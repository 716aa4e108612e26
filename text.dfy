/** Token splitting used by the two command classifiers. */
module Text {

  /** The longest prefix of `s` containing no character on which `stop` holds:
      the first piece of `s.split(..)` for a one-character separator. */
  function PrefixUntil(s: string, stop: char -> bool): (r: string)
    ensures r <= s
    ensures forall i :: 0 <= i < |r| ==> !stop(r[i])
    ensures |r| < |s| ==> stop(s[|r|])
  {
    if s == [] || stop(s[0]) then [] else [s[0]] + PrefixUntil(s[1..], stop)
  }

  /** The contract of PrefixUntil pins its result down: it ends at the first
      stopping character, or at the end of `s`. */
  lemma PrefixUntilAt(s: string, stop: char -> bool, k: nat)
    requires k <= |s|
    requires forall i :: 0 <= i < k ==> !stop(s[i])
    requires k < |s| ==> stop(s[k])
    ensures PrefixUntil(s, stop) == s[..k]
  {
    var r := PrefixUntil(s, stop);
    assert |r| >= k;
    assert |r| <= k;
  }

  /** The number of leading characters of `s` on which `skip` holds. */
  function CountWhile(s: string, skip: char -> bool): (n: nat)
    ensures n <= |s|
    ensures forall i :: 0 <= i < n ==> skip(s[i])
    ensures n < |s| ==> !skip(s[n])
  {
    if s == [] || !skip(s[0]) then 0 else 1 + CountWhile(s[1..], skip)
  }

  /** Rust's `char::is_whitespace`: the Unicode White_Space property. */
  predicate IsWhitespace(c: char)
  {
    || ('\t' <= c <= '\r') || c == ' '
    || c == '\U{0085}' || c == '\U{00A0}' || c == '\U{1680}'
    || ('\U{2000}' <= c <= '\U{200A}')
    || c == '\U{2028}' || c == '\U{2029}' || c == '\U{202F}' || c == '\U{205F}' || c == '\U{3000}'
  }

  /** True when `split_whitespace` yields at least one token. */
  predicate HasWord(s: string)
  {
    exists i :: 0 <= i < |s| && !IsWhitespace(s[i])
  }

  /** The first token of `s.split_whitespace()`. */
  function FirstWord(s: string): (w: string)
    requires HasWord(s)
    ensures w != []
    ensures var k := CountWhile(s, IsWhitespace);
      (forall i :: 0 <= i < k ==> IsWhitespace(s[i])) &&
      k + |w| <= |s| && s[k..k + |w|] == w &&
      (forall i :: 0 <= i < |w| ==> !IsWhitespace(w[i])) &&
      (k + |w| < |s| ==> IsWhitespace(s[k + |w|]))
  {
    var k := CountWhile(s, IsWhitespace);
    PrefixUntil(s[k..], IsWhitespace)
  }
}
