/**
  Whitespace and trimming as the page script sees them.

  JavaScript's `String.prototype.trim()` and the regular-expression class `\s`
  both use the same character set: the ECMAScript WhiteSpace and
  LineTerminator code points. One predicate, `IsWS`, stands for that set
  everywhere in the model.
 */
module Text {

  /** ECMAScript WhiteSpace (TAB, VT, FF, SP, NBSP, ZWNBSP, the Zs category)
      and LineTerminator (LF, CR, LS, PS). */
  predicate IsWS(c: char) {
    || c == '\t' || c == '\n' || c == '\U{000B}' || c == '\U{000C}' || c == '\r'
    || c == ' ' || c == '\U{00A0}' || c == '\U{1680}'
    || ('\U{2000}' <= c <= '\U{200A}')
    || c == '\U{2028}' || c == '\U{2029}' || c == '\U{202F}' || c == '\U{205F}'
    || c == '\U{3000}' || c == '\U{FEFF}'
  }

  /** Every character of `s` is whitespace (the empty string included). */
  predicate IsBlank(s: string) {
    forall k | 0 <= k < |s| :: IsWS(s[k])
  }

  /** Neither end of `s` is whitespace: what `trim()` leaves behind. */
  predicate IsTrimmed(s: string) {
    s == [] || (!IsWS(s[0]) && !IsWS(s[|s| - 1]))
  }

  /** The end of the whitespace run that starts at `i`. */
  function SkipLeading(s: string, i: nat): (n: nat)
    requires i <= |s|
    ensures i <= n <= |s|
    ensures forall k | i <= k < n :: IsWS(s[k])
    ensures n == |s| || !IsWS(s[n])
    decreases |s| - i
  {
    if i < |s| && IsWS(s[i]) then SkipLeading(s, i + 1) else i
  }

  /** The start of the whitespace run that ends just before `j`. */
  function SkipTrailing(s: string, j: nat): (m: nat)
    requires j <= |s|
    ensures m <= j
    ensures forall k | m <= k < j :: IsWS(s[k])
    ensures m == 0 || !IsWS(s[m - 1])
    decreases j
  {
    if j > 0 && IsWS(s[j - 1]) then SkipTrailing(s, j - 1) else j
  }

  /** Where the trimmed text starts inside the original string: the length
      of the leading whitespace run. */
  function TrimOffset(s: string): nat
  {
    SkipLeading(s, 0)
  }

  /** `trim()`: empty exactly for blank input, and otherwise starts and ends
      with a non-whitespace character. It removes only whitespace, and only
      from the two ends: the result is the infix of `s` at `TrimOffset(s)`,
      with a whitespace-only margin on each side. */
  function Trim(s: string): (r: string)
    ensures r == [] <==> IsBlank(s)
    ensures IsTrimmed(r)
    ensures TrimOffset(s) + |r| <= |s|
    ensures r == s[TrimOffset(s)..TrimOffset(s) + |r|]
    ensures forall k | 0 <= k < TrimOffset(s) :: IsWS(s[k])
    ensures forall k | TrimOffset(s) + |r| <= k < |s| :: IsWS(s[k])
  {
    var n := TrimOffset(s);
    if n == |s| then []
    else
      var m := SkipTrailing(s, |s|);
      assert !IsWS(s[n]);
      assert n < m;
      var r := s[n..m];
      assert r[0] == s[n] && r[|r| - 1] == s[m - 1];
      r
  }

  /** `trim()` leaves already-trimmed text alone. */
  lemma TrimOfTrimmed(s: string)
    requires IsTrimmed(s)
    ensures Trim(s) == s
  {
    if s != [] {
      assert SkipLeading(s, 0) == 0;
      assert SkipTrailing(s, |s|) == |s|;
    }
  }

  /** `trim()` is idempotent. */
  lemma TrimIdempotent(s: string)
    ensures Trim(Trim(s)) == Trim(s)
  {
    TrimOfTrimmed(Trim(s));
  }
}
