/**
 Strings as JavaScript sees them in the watcher script: prefix tests
 (`String.prototype.startsWith`), substring tests (`String.prototype.includes`)
 and the whitespace class `\s` of ECMAScript regular expressions.
 */
module Text {

  /** `s.startsWith(p)`: `p` is a prefix of `s`. */
  predicate StartsWith(s: string, p: string) {
    |p| <= |s| && s[..|p|] == p
  }

  /** `p` occurs in `s` beginning at index `i`. */
  predicate OccursAt(s: string, p: string, i: nat) {
    i + |p| <= |s| && s[i..i + |p|] == p
  }

  /** Reference meaning of `s.includes(p)`: some index of `s` starts an occurrence of `p`. */
  ghost predicate Contains(s: string, p: string) {
    exists i: nat :: OccursAt(s, p, i)
  }

  /** Left-to-right search for `p` in `s`, starting at index `i`. */
  function IncludesFrom(s: string, p: string, i: nat): (b: bool)
    decreases |s| - i
    ensures b <==> exists j: nat :: i <= j && OccursAt(s, p, j)
  {
    if |s| < i + |p| then
      assert forall j: nat :: i <= j ==> !OccursAt(s, p, j);
      false
    else if s[i..i + |p|] == p then
      assert OccursAt(s, p, i);
      true
    else
      var b := IncludesFrom(s, p, i + 1);
      assert forall j: nat :: i <= j && OccursAt(s, p, j) ==> j == i || i + 1 <= j;
      b
  }

  /** `s.includes(p)`, the case-sensitive substring test. */
  function Includes(s: string, p: string): (b: bool)
    ensures b <==> Contains(s, p)
  {
    IncludesFrom(s, p, 0)
  }

  /**
   The character class `\s` of ECMAScript regular expressions: the WhiteSpace
   code points (tab, vertical tab, form feed, space, no-break space, zero width
   no-break space and the Unicode "Zs" separators) and the LineTerminator code
   points (line feed, carriage return, line and paragraph separator).
   */
  predicate IsWhitespace(c: char) {
    var n := c as int;
    || n == 0x09 || n == 0x0A || n == 0x0B || n == 0x0C || n == 0x0D
    || n == 0x20 || n == 0xA0 || n == 0x1680
    || (0x2000 <= n <= 0x200A)
    || n == 0x2028 || n == 0x2029 || n == 0x202F || n == 0x205F
    || n == 0x3000 || n == 0xFEFF
  }

  /** Every character of `s` belongs to `[^\s]`. */
  predicate NoWhitespace(s: string) {
    forall k :: 0 <= k < |s| ==> !IsWhitespace(s[k])
  }
}
