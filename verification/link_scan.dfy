/**
 The global regular-expression scan of `extractNetflixLink`
 (index.js:102-103): `content.match(/https?:\/\/www\.netflix\.com\/[^\s]+/g)`.

 A global match walks the content left to right. At each position the
 pattern is tried; on success the (greedy, hence maximal) match is recorded
 and the walk resumes right after it; on failure the walk moves on by one
 character. The pattern never matches the empty string, so the walk never
 has to step past an empty match.

 `Scan` is that walk. `LeftmostTokens` is an independent description of its
 result (ordered, non-overlapping greedy matches with no match starting in
 the gaps between them), and `LeftmostTokensUnique` shows that the walk is
 the only sequence of spans that fits the description.
 */
module LinkScan {
  import opened Wrappers
  import opened Text

  /** The two host prefixes `https?:\/\/www\.netflix\.com\/` admits. */
  const HttpsHost: string := "https://www.netflix.com/"
  const HttpHost: string := "http://www.netflix.com/"

  /**
   `u` belongs to the language of `https?:\/\/www\.netflix\.com\/[^\s]+`:
   one of the host prefixes followed by at least one character, with no
   whitespace anywhere (the prefixes themselves hold none).
   */
  predicate InPattern(u: string) {
    && ((|HttpsHost| < |u| && StartsWith(u, HttpsHost)) || (|HttpHost| < |u| && StartsWith(u, HttpHost)))
    && NoWhitespace(u)
  }

  /** The pattern fails at position `i`: no text starting at `i` belongs to it. */
  ghost predicate NoMatchAt(s: string, i: nat) {
    forall e :: i < e <= |s| ==> !InPattern(s[i..e])
  }

  /**
   `s[i..e]` is the match the engine reports when it tries position `i`: it
   belongs to the pattern, and the greedy `[^\s]+` cannot take one more
   character because `e` is the end of `s` or a whitespace character.
   */
  ghost predicate GreedyMatch(s: string, i: nat, e: nat) {
    && i < e <= |s|
    && InPattern(s[i..e])
    && (e == |s| || IsWhitespace(s[e]))
  }

  /** End of the maximal run of non-whitespace characters of `s` that begins at `j`. */
  function RunEnd(s: string, j: nat): (e: nat)
    requires j <= |s|
    decreases |s| - j
    ensures j <= e <= |s|
    ensures forall k :: j <= k < e ==> !IsWhitespace(s[k])
    ensures e == |s| || IsWhitespace(s[e])
  {
    if j == |s| || IsWhitespace(s[j]) then j else RunEnd(s, j + 1)
  }

  /** The two host prefixes cannot both start at one position: they differ at index 4. */
  lemma HostsExclusive(s: string, i: nat)
    ensures !(OccursAt(s, HttpsHost, i) && OccursAt(s, HttpHost, i))
  {
    if OccursAt(s, HttpsHost, i) {
      assert s[i + 4] == HttpsHost[4] == 's';
      assert HttpHost[4] == ':';
    }
  }

  /** What any text in the pattern starting at `i` tells about `s` around `i`. */
  lemma InPatternAt(s: string, i: nat, e: nat)
    requires i < e <= |s|
    requires InPattern(s[i..e])
    ensures (OccursAt(s, HttpsHost, i) && i + |HttpsHost| < e) || (OccursAt(s, HttpHost, i) && i + |HttpHost| < e)
    ensures forall k :: i <= k < e ==> !IsWhitespace(s[k])
  {
    var u := s[i..e];
    forall k | i <= k < e
      ensures !IsWhitespace(s[k])
    {
      assert s[k] == u[k - i];
    }
    if |HttpsHost| < |u| && StartsWith(u, HttpsHost) {
      assert s[i..i + |HttpsHost|] == u[..|HttpsHost|];
    } else {
      assert s[i..i + |HttpHost|] == u[..|HttpHost|];
    }
  }

  /** A host prefix at `i` followed by a non-empty run of non-whitespace is in the pattern. */
  lemma HostAndRunInPattern(s: string, i: nat, h: string, e: nat)
    requires h == HttpsHost || h == HttpHost
    requires OccursAt(s, h, i) && i + |h| < e <= |s|
    requires forall k :: i + |h| <= k < e ==> !IsWhitespace(s[k])
    ensures InPattern(s[i..e])
  {
    var u := s[i..e];
    assert u[..|h|] == s[i..i + |h|];
    forall k | 0 <= k < |u|
      ensures !IsWhitespace(u[k])
    {
      if k < |h| {
        assert u[k] == h[k];
      } else {
        assert u[k] == s[i + k];
      }
    }
  }

  /** Length of the host prefix at `i`, or 0 when neither prefix occurs there. */
  function HostLength(s: string, i: nat): (h: nat)
    ensures h == 0 ==> !OccursAt(s, HttpsHost, i) && !OccursAt(s, HttpHost, i)
    ensures h != 0 ==> i + h <= |s|
    ensures h != 0 ==> (h == |HttpsHost| && OccursAt(s, HttpsHost, i)) || (h == |HttpHost| && OccursAt(s, HttpHost, i))
  {
    if OccursAt(s, HttpsHost, i) then |HttpsHost|
    else if OccursAt(s, HttpHost, i) then |HttpHost|
    else 0
  }

  /**
   The attempt of the pattern at position `i`: the end of the greedy match
   there, or `None` when the pattern fails at `i`.
   */
  function MatchEnd(s: string, i: nat): (r: Option<nat>)
    requires i <= |s|
    ensures r.Some? ==> GreedyMatch(s, i, r.value)
    ensures r.None? ==> NoMatchAt(s, i)
  {
    var h := HostLength(s, i);
    HostsExclusive(s, i);
    if h == 0 || i + h == |s| || IsWhitespace(s[i + h]) then
      forall e | i < e <= |s| && InPattern(s[i..e])
        ensures false
      {
        InPatternAt(s, i, e);
      }
      None
    else
      var e := RunEnd(s, i + h);
      HostAndRunInPattern(s, i, if h == |HttpsHost| then HttpsHost else HttpHost, e);
      Some(e)
  }

  /** A greedy match is determined by where it starts. */
  lemma GreedyMatchUnique(s: string, i: nat, e1: nat, e2: nat)
    requires GreedyMatch(s, i, e1) && GreedyMatch(s, i, e2)
    ensures e1 == e2
  {
    InPatternAt(s, i, e1);
    InPatternAt(s, i, e2);
  }

  /** A span `s[start..stop]` of the content. */
  datatype Span = Span(start: nat, stop: nat)

  /** Where the `k`-th gap before a match begins: the scan start, or the end of the previous match. */
  function GapStart(spans: seq<Span>, from: nat, k: nat): nat
    requires k <= |spans|
  {
    if k == 0 then from else spans[k - 1].stop
  }

  /** Where the `k`-th gap ends: the start of the `k`-th match, or the end of the content. */
  function GapStop(s: string, spans: seq<Span>, k: nat): nat
    requires k <= |spans|
  {
    if k == |spans| then |s| else spans[k].start
  }

  /** The pattern fails at every position of `[lo, hi)`. */
  ghost predicate Clear(s: string, lo: nat, hi: nat) {
    forall i: nat :: lo <= i < hi ==> NoMatchAt(s, i)
  }

  /**
   `spans` is what a global match from position `from` reports: greedy
   matches in increasing order, none overlapping the previous one, and no
   match starting anywhere in the gaps before, between and after them.
   */
  ghost predicate LeftmostTokens(s: string, from: nat, spans: seq<Span>) {
    && (forall k :: 0 <= k < |spans| ==> GapStart(spans, from, k) <= spans[k].start)
    && (forall k :: 0 <= k < |spans| ==> GreedyMatch(s, spans[k].start, spans[k].stop))
    && (forall k :: 0 <= k <= |spans| ==> Clear(s, GapStart(spans, from, k), GapStop(s, spans, k)))
  }

  /** The first reported match starts at or after `from` and before the end of the content. */
  lemma FirstTokenWithin(s: string, from: nat, spans: seq<Span>)
    requires LeftmostTokens(s, from, spans)
    ensures |spans| > 0 ==> from <= spans[0].start < |s|
  {
    if |spans| > 0 {
      assert GapStart(spans, from, 0) <= spans[0].start;
      assert GreedyMatch(s, spans[0].start, spans[0].stop);
    }
  }

  /** A position where the pattern fails widens the first gap by one. */
  lemma SkipPosition(s: string, from: nat, rest: seq<Span>)
    requires NoMatchAt(s, from)
    requires LeftmostTokens(s, from + 1, rest)
    ensures LeftmostTokens(s, from, rest)
  {
    assert GapStart(rest, from, 0) == from;
    forall k | 0 <= k <= |rest|
      ensures Clear(s, GapStart(rest, from, k), GapStop(s, rest, k))
    {
      if k == 0 {
        assert Clear(s, from + 1, GapStop(s, rest, 0));
      } else {
        assert GapStart(rest, from, k) == GapStart(rest, from + 1, k);
      }
    }
  }

  /** A greedy match at `from` in front of the walk that resumes at its end. */
  lemma ConsToken(s: string, from: nat, e: nat, rest: seq<Span>)
    requires GreedyMatch(s, from, e)
    requires LeftmostTokens(s, e, rest)
    ensures LeftmostTokens(s, from, [Span(from, e)] + rest)
  {
    var spans := [Span(from, e)] + rest;
    assert spans[0] == Span(from, e);
    forall k | 0 <= k < |spans|
      ensures GapStart(spans, from, k) <= spans[k].start
      ensures GreedyMatch(s, spans[k].start, spans[k].stop)
    {
      if k > 0 {
        assert spans[k] == rest[k - 1];
        assert GapStart(spans, from, k) == GapStart(rest, e, k - 1) by {
          if k > 1 {
            assert spans[k - 1] == rest[k - 2];
          }
        }
        assert GapStart(rest, e, k - 1) <= rest[k - 1].start;
        assert GreedyMatch(s, rest[k - 1].start, rest[k - 1].stop);
      }
    }
    forall k | 0 <= k <= |spans|
      ensures Clear(s, GapStart(spans, from, k), GapStop(s, spans, k))
    {
      if k > 0 {
        assert GapStart(spans, from, k) == GapStart(rest, e, k - 1) by {
          if k > 1 {
            assert spans[k - 1] == rest[k - 2];
          }
        }
        assert GapStop(s, spans, k) == GapStop(s, rest, k - 1) by {
          if k < |spans| {
            assert spans[k] == rest[k - 1];
          }
        }
        assert Clear(s, GapStart(rest, e, k - 1), GapStop(s, rest, k - 1));
      }
    }
  }

  /** The global match walk from position `from`. */
  function Scan(s: string, from: nat): (spans: seq<Span>)
    requires from <= |s|
    decreases |s| - from
  {
    if from == |s| then
      []
    else
      match MatchEnd(s, from)
      case Some(e) => [Span(from, e)] + Scan(s, e)
      case None => Scan(s, from + 1)
  }

  /** The walk reports a leftmost tokenization of the content from `from` on. */
  lemma {:induction false} ScanIsLeftmost(s: string, from: nat)
    requires from <= |s|
    ensures LeftmostTokens(s, from, Scan(s, from))
    decreases |s| - from
  {
    if from < |s| {
      match MatchEnd(s, from)
      case Some(e) =>
        ScanIsLeftmost(s, e);
        ConsToken(s, from, e, Scan(s, e));
      case None =>
        ScanIsLeftmost(s, from + 1);
        SkipPosition(s, from, Scan(s, from + 1));
    }
  }

  /** A position where the pattern fails is not the start of any reported match. */
  lemma SkipUnmatchedPosition(s: string, from: nat, spans: seq<Span>)
    requires NoMatchAt(s, from)
    requires LeftmostTokens(s, from, spans)
    ensures LeftmostTokens(s, from + 1, spans)
  {
    forall k | 0 <= k < |spans|
      ensures GapStart(spans, from + 1, k) <= spans[k].start
    {
      if k == 0 {
        assert GreedyMatch(s, spans[0].start, spans[0].stop);
        assert spans[0].start != from;
      }
    }
    forall k | 0 <= k <= |spans|
      ensures Clear(s, GapStart(spans, from + 1, k), GapStop(s, spans, k))
    {
      assert Clear(s, GapStart(spans, from, k), GapStop(s, spans, k));
    }
  }

  /** A non-empty sequence is its first element followed by the rest. */
  lemma HeadAndTail<T>(xs: seq<T>)
    requires |xs| > 0
    ensures xs == [xs[0]] + xs[1..]
  {
  }

  /** Where the pattern matches at `from`, a leftmost tokenization from `from` starts with that match. */
  lemma FirstTokenIsMatchAt(s: string, from: nat, e: nat, spans: seq<Span>)
    requires GreedyMatch(s, from, e)
    requires LeftmostTokens(s, from, spans)
    ensures |spans| > 0 && spans[0] == Span(from, e)
  {
    assert !NoMatchAt(s, from) by {
      assert InPattern(s[from..e]);
    }
    assert |spans| > 0 by {
      assert Clear(s, GapStart(spans, from, 0), GapStop(s, spans, 0));
    }
    assert spans[0].start == from by {
      assert Clear(s, from, spans[0].start);
    }
    assert GreedyMatch(s, from, spans[0].stop);
    GreedyMatchUnique(s, from, e, spans[0].stop);
  }

  /** Dropping the first match leaves a leftmost tokenization from its end. */
  lemma TailTokens(s: string, from: nat, spans: seq<Span>)
    requires |spans| > 0
    requires LeftmostTokens(s, from, spans)
    ensures LeftmostTokens(s, spans[0].stop, spans[1..])
  {
    var e := spans[0].stop;
    var rest := spans[1..];
    forall k | 0 <= k <= |rest|
      ensures GapStart(rest, e, k) == GapStart(spans, from, k + 1)
      ensures GapStop(s, rest, k) == GapStop(s, spans, k + 1)
    {
    }
    forall k | 0 <= k < |rest|
      ensures GapStart(rest, e, k) <= rest[k].start
      ensures GreedyMatch(s, rest[k].start, rest[k].stop)
    {
      assert rest[k] == spans[k + 1];
    }
    forall k | 0 <= k <= |rest|
      ensures Clear(s, GapStart(rest, e, k), GapStop(s, rest, k))
    {
      assert Clear(s, GapStart(spans, from, k + 1), GapStop(s, spans, k + 1));
    }
  }

  /** Where the walk resumes after trying `from`: after the match there, or one character on. */
  function StepNext(s: string, from: nat): (next: nat)
    requires from < |s|
    ensures from < next <= |s|
    ensures MatchEnd(s, from).None? <==> next == from + 1
  {
    match MatchEnd(s, from)
    case Some(e) => e
    case None => from + 1
  }

  /** What the walk records when it tries `from`: the match there, or nothing. */
  function StepPrefix(s: string, from: nat): (prefix: seq<Span>)
    requires from < |s|
  {
    match MatchEnd(s, from)
    case Some(e) => [Span(from, e)]
    case None => []
  }

  /** One step of the walk: it records what it finds at `from` and goes on from where that ends. */
  lemma ScanStep(s: string, from: nat)
    requires from < |s|
    ensures Scan(s, from) == StepPrefix(s, from) + Scan(s, StepNext(s, from))
  {
    if MatchEnd(s, from).None? {
      assert StepPrefix(s, from) + Scan(s, from + 1) == Scan(s, from + 1);
    }
  }

  /** Where the pattern fails at `from`, the walk records nothing and a leftmost tokenization carries on unchanged. */
  lemma UniqueStepNone(s: string, from: nat, spans: seq<Span>)
    requires from < |s|
    requires MatchEnd(s, from).None?
    requires LeftmostTokens(s, from, spans)
    ensures spans == StepPrefix(s, from) + spans
    ensures LeftmostTokens(s, StepNext(s, from), spans)
  {
    SkipUnmatchedPosition(s, from, spans);
    assert StepPrefix(s, from) == [];
  }

  /** Where the pattern matches at `from`, a leftmost tokenization starts with that match and goes on after it. */
  lemma UniqueStepSome(s: string, from: nat, spans: seq<Span>)
    requires from < |s|
    requires MatchEnd(s, from).Some?
    requires LeftmostTokens(s, from, spans)
    ensures |spans| > 0
    ensures spans == StepPrefix(s, from) + spans[1..]
    ensures LeftmostTokens(s, StepNext(s, from), spans[1..])
  {
    var e := MatchEnd(s, from).value;
    FirstTokenIsMatchAt(s, from, e, spans);
    TailTokens(s, from, spans);
    assert StepNext(s, from) == e;
    assert StepPrefix(s, from) == [spans[0]];
    HeadAndTail(spans);
  }

  /**
   One step of the uniqueness proof: a leftmost tokenization from `from`
   begins with what the walk records at `from`, and the rest of it is a
   leftmost tokenization from where the walk goes on.
   */
  lemma UniqueStep(s: string, from: nat, spans: seq<Span>) returns (rest: seq<Span>)
    requires from < |s|
    requires LeftmostTokens(s, from, spans)
    ensures spans == StepPrefix(s, from) + rest
    ensures LeftmostTokens(s, StepNext(s, from), rest)
  {
    if MatchEnd(s, from).None? {
      UniqueStepNone(s, from, spans);
      rest := spans;
    } else {
      UniqueStepSome(s, from, spans);
      rest := spans[1..];
    }
  }

  /**
   The walk is the only span sequence that is a leftmost tokenization: any
   sequence of ordered greedy matches with no match starting in its gaps is
   exactly what `Scan` returns.
   */
  lemma {:induction false} LeftmostTokensUnique(s: string, from: nat, spans: seq<Span>)
    requires from <= |s|
    requires LeftmostTokens(s, from, spans)
    ensures spans == Scan(s, from)
    decreases |s| - from
  {
    if from == |s| {
      FirstTokenWithin(s, from, spans);
    } else {
      var rest := UniqueStep(s, from, spans);
      LeftmostTokensUnique(s, StepNext(s, from), rest);
      ScanStep(s, from);
    }
  }
}
