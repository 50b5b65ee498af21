/**
 `extractNetflixLink` (index.js:100-112): collect every match of the Netflix
 URL pattern in the mail content, then return the first one that starts
 with the address of the "update primary location" page, or `null`.
 */
module LinkExtraction {
  import opened Wrappers
  import opened Text
  import opened Seqs
  import opened LinkScan

  /** The only links the script acts on start with this text. */
  const ApprovalPrefix: string := "https://www.netflix.com/account/update-primary-location?"

  /** The predicate handed to `links.find`. */
  predicate IsApprovalLink(link: string) {
    StartsWith(link, ApprovalPrefix)
  }

  /** The text of each span, in order. */
  function SpanTexts(s: string, spans: seq<Span>): (links: seq<string>)
    requires forall k :: 0 <= k < |spans| ==> spans[k].start <= spans[k].stop <= |s|
  {
    seq(|spans|, k requires 0 <= k < |spans| => s[spans[k].start..spans[k].stop])
  }

  /**
   `content.match(regex)`, with the `null` of "no match" written as the empty
   sequence. Every element is a text of the pattern, and there are none
   exactly when the pattern fails at every position.
   */
  function MatchAll(content: string): (links: seq<string>)
    ensures forall k :: 0 <= k < |links| ==> InPattern(links[k])
    ensures |links| == 0 <==> Clear(content, 0, |content|)
  {
    var spans := Scan(content, 0);
    ScanIsLeftmost(content, 0);
    NoSpansIffClear(content);
    SpanTexts(content, spans)
  }

  /** The walk over the whole content reports nothing exactly when the pattern fails everywhere. */
  lemma NoSpansIffClear(content: string)
    ensures |Scan(content, 0)| == 0 <==> Clear(content, 0, |content|)
  {
    var spans := Scan(content, 0);
    ScanIsLeftmost(content, 0);
    FirstTokenWithin(content, 0, spans);
    assert GapStart(spans, 0, |spans|) == 0 ==> |spans| == 0;
    assert |spans| > 0 ==> !NoMatchAt(content, spans[0].start) by {
      if |spans| > 0 {
        assert GreedyMatch(content, spans[0].start, spans[0].stop);
      }
    }
    assert |spans| == 0 ==> Clear(content, GapStart(spans, 0, 0), GapStop(content, spans, 0));
  }

  /**
   `extractNetflixLink(content)`: `None` when no match starts with
   `ApprovalPrefix` (including when there is no match at all), and otherwise
   the first such match in document order.
   */
  function ExtractNetflixLink(content: string): (r: Option<string>)
    ensures r.Some? ==> IsApprovalLink(r.value)
    ensures r.None? <==> forall k :: 0 <= k < |MatchAll(content)| ==> !IsApprovalLink(MatchAll(content)[k])
    ensures forall k :: 0 <= k < |MatchAll(content)| && IsFirst(MatchAll(content), IsApprovalLink, k) ==> r == Some(MatchAll(content)[k])
  {
    var links := MatchAll(content);
    match Find(links, IsApprovalLink)
    case Some(k) => Some(links[k])
    case None => None
  }

  /** No substring of the content matches the pattern, so there is no link. */
  lemma NoNetflixUrlNoLink(content: string)
    requires forall i, e :: 0 <= i < e <= |content| ==> !InPattern(content[i..e])
    ensures ExtractNetflixLink(content) == None
  {
    assert Clear(content, 0, |content|);
  }

  /**
   The result always begins with the secure Netflix host and the approval
   page; a plain `http://` link matches the scan but is never returned.
   */
  lemma ResultIsHttps(content: string)
    ensures ExtractNetflixLink(content).Some? ==> StartsWith(ExtractNetflixLink(content).value, HttpsHost)
    ensures ExtractNetflixLink(content).Some? ==> !StartsWith(ExtractNetflixLink(content).value, HttpHost)
  {
    var r := ExtractNetflixLink(content);
    if r.Some? {
      ApprovalLinkIsHttps(r.value);
    }
  }

  /** A text starting with `ApprovalPrefix` starts with the `https` host, hence not with the `http` one. */
  lemma ApprovalLinkIsHttps(l: string)
    requires IsApprovalLink(l)
    ensures StartsWith(l, HttpsHost) && !StartsWith(l, HttpHost)
  {
    assert ApprovalPrefix[..|HttpsHost|] == HttpsHost;
    assert l[..|HttpsHost|] == ApprovalPrefix[..|HttpsHost|];
    assert l[4] == HttpsHost[4] == 's';
    assert HttpHost[4] == ':';
  }

  /**
   Shape of the `k`-th match: it is the content between two positions, it
   starts with one of the two host prefixes and has at least one character
   after the host's `/`, it holds no whitespace, it ends at whitespace or at
   the end of the content, and it ends no later than the next match starts.
   */
  lemma MatchShape(content: string, k: nat)
    requires k < |MatchAll(content)|
    ensures var spans := Scan(content, 0);
      && |spans| == |MatchAll(content)|
      && 0 <= spans[k].start < spans[k].stop <= |content|
      && MatchAll(content)[k] == content[spans[k].start..spans[k].stop]
      && ((|HttpsHost| < |MatchAll(content)[k]| && StartsWith(MatchAll(content)[k], HttpsHost))
          || (|HttpHost| < |MatchAll(content)[k]| && StartsWith(MatchAll(content)[k], HttpHost)))
      && NoWhitespace(MatchAll(content)[k])
      && (spans[k].stop == |content| || IsWhitespace(content[spans[k].stop]))
      && (k + 1 < |spans| ==> spans[k].stop <= spans[k + 1].start)
  {
    var spans := Scan(content, 0);
    ScanIsLeftmost(content, 0);
    assert GreedyMatch(content, spans[k].start, spans[k].stop);
    if k + 1 < |spans| {
      assert GapStart(spans, 0, k + 1) <= spans[k + 1].start;
    }
  }

  /**
   A non-null result is a whitespace-free substring of the content that
   starts with the approval prefix and ends at whitespace or at the end of
   the content. It need not be maximal to the left: in `href="https://…"`
   the match starts after the quote.
   */
  lemma ResultIsWhitespaceFreeRun(content: string)
    ensures ExtractNetflixLink(content).Some? ==>
              exists a, b ::
                && 0 <= a < b <= |content|
                && content[a..b] == ExtractNetflixLink(content).value
                && NoWhitespace(content[a..b])
                && (b == |content| || IsWhitespace(content[b]))
                && StartsWith(content[a..b], ApprovalPrefix)
  {
    var links := MatchAll(content);
    var f := Find(links, IsApprovalLink);
    if f.Some? {
      var k := f.value;
      MatchShape(content, k);
      var spans := Scan(content, 0);
      var a, b := spans[k].start, spans[k].stop;
      assert content[a..b] == ExtractNetflixLink(content).value;
    }
  }

  /** Content made of one approval link and nothing else yields that link. */
  lemma SoleLinkIsExtracted(link: string)
    requires IsApprovalLink(link) && NoWhitespace(link)
    ensures ExtractNetflixLink(link) == Some(link)
  {
    ApprovalLinkIsHttps(link);
    assert OccursAt(link, HttpsHost, 0);
    assert |HttpsHost| < |ApprovalPrefix| <= |link|;
    assert RunEnd(link, |HttpsHost|) == |link|;
    assert MatchEnd(link, 0) == Some(|link|);
    assert Scan(link, 0) == [Span(0, |link|)];
    assert link[0..|link|] == link;
    assert |MatchAll(link)| == 1 && MatchAll(link)[0] == link;
    assert MatchAll(link) == [link];
    assert IsFirst(MatchAll(link), IsApprovalLink, 0);
  }
}
