/**
  The address check behind the email rule of the research form. The page
  tests the untrimmed input against the regular expression

      ^ [^\s@]+ @ [^\s@]+ \. [^\s@]+ $

  Rather than a regular-expression engine, the model gives the language of
  that expression directly (`EmailPattern`, a choice of the two split points)
  and a scanning decision procedure (`IsValidEmail`) proved to decide it.
 */
module Email {
  import opened Text

  /** A character of the class `[^\s@]`. Note that `.` belongs to it. */
  predicate EmailChar(c: char) {
    !IsWS(c) && c != '@'
  }

  predicate AllEmailChars(t: string) {
    forall k | 0 <= k < |t| :: EmailChar(t[k])
  }

  /** The language of the expression: `s` splits as x '@' y '.' z with x, y, z
      non-empty runs of `[^\s@]`; `i` is the '@' and `j` the '.'. */
  ghost predicate EmailPattern(s: string) {
    exists i, j | 0 < i && i + 1 < j && j + 1 < |s| ::
      && s[i] == '@' && s[j] == '.'
      && AllEmailChars(s[..i]) && AllEmailChars(s[i + 1..j]) && AllEmailChars(s[j + 1..])
  }

  /** Position of the first '@' in `s`, or `|s|` when there is none. */
  function FindAt(s: string): (i: nat)
    ensures i <= |s|
    ensures i < |s| ==> s[i] == '@'
    ensures forall k | 0 <= k < i :: s[k] != '@'
    decreases |s|
  {
    if s == [] then 0
    else if s[0] == '@' then 0
    else 1 + FindAt(s[1..])
  }

  /** Some '.' of `d` has at least one character on each side of it. */
  predicate HasInnerDot(d: string) {
    exists j | 0 < j < |d| - 1 :: d[j] == '.'
  }

  /** The executable check: split at the first '@', then require a non-empty
      local part, no whitespace or further '@' anywhere, and an inner dot in
      the domain. */
  function IsValidEmail(s: string): (ok: bool)
    ensures ok ==> 0 < FindAt(s) < |s| - 3
    ensures ok ==> forall k | 0 <= k < |s| && k != FindAt(s) :: EmailChar(s[k])
  {
    var i := FindAt(s);
    if 0 < i < |s| && AllEmailChars(s[..i]) && AllEmailChars(s[i + 1..]) then
      EmailCharsAround(s, i);
      HasInnerDot(s[i + 1..])
    else
      false
  }

  /** Address characters before and after position `i` cover every other
      position of `s`. */
  lemma EmailCharsAround(s: string, i: nat)
    requires i < |s| && AllEmailChars(s[..i]) && AllEmailChars(s[i + 1..])
    ensures forall k | 0 <= k < |s| && k != i :: EmailChar(s[k])
  {
    forall k | 0 <= k < |s| && k != i
      ensures EmailChar(s[k])
    {
      if k < i {
        assert s[k] == s[..i][k];
      } else {
        assert s[k] == s[i + 1..][k - i - 1];
      }
    }
  }

  /** Address characters on both sides of an address character make a run
      of address characters. */
  lemma AllEmailCharsJoin(s: string, a: nat, m: nat)
    requires a <= m < |s|
    requires AllEmailChars(s[a..m]) && EmailChar(s[m]) && AllEmailChars(s[m + 1..])
    ensures AllEmailChars(s[a..])
  {
    var t := s[a..];
    forall k | 0 <= k < |t|
      ensures EmailChar(t[k])
    {
      if a + k < m {
        assert t[k] == s[a..m][k];
      } else if a + k > m {
        assert t[k] == s[m + 1..][a + k - m - 1];
      }
    }
  }

  /** Soundness: whatever the scanning check accepts is in the language. */
  lemma {:induction false} IsValidEmailSound(s: string)
    requires IsValidEmail(s)
    ensures EmailPattern(s)
  {
    var i := FindAt(s);
    var d := s[i + 1..];
    var j :| 0 < j < |d| - 1 && d[j] == '.';
    var jj := i + 1 + j;
    assert s[i + 1..jj] == d[..j];
    assert s[jj + 1..] == d[j + 1..];
    assert s[jj] == d[j];
    assert AllEmailChars(s[i + 1..jj]) by {
      forall k | 0 <= k < j ensures EmailChar(d[..j][k]) {
        assert d[..j][k] == d[k];
      }
    }
    assert AllEmailChars(s[jj + 1..]) by {
      var e := d[j + 1..];
      forall k | 0 <= k < |e| ensures EmailChar(e[k]) {
        assert e[k] == d[j + 1 + k];
      }
    }
  }

  /** An '@' with only address characters before it is the first '@'. */
  lemma FindAtOfSplit(s: string, i: nat)
    requires i < |s| && s[i] == '@' && AllEmailChars(s[..i])
    ensures FindAt(s) == i
  {
  }

  /** Completeness at a given pair of split points. */
  lemma {:induction false} IsValidEmailCompleteAt(s: string, i: nat, j: nat)
    requires 0 < i && i + 1 < j && j + 1 < |s|
    requires s[i] == '@' && s[j] == '.'
    requires AllEmailChars(s[..i]) && AllEmailChars(s[i + 1..j]) && AllEmailChars(s[j + 1..])
    ensures IsValidEmail(s)
  {
    FindAtOfSplit(s, i);
    AllEmailCharsJoin(s, i + 1, j);
    var d := s[i + 1..];
    assert d[j - i - 1] == s[j];
  }

  /** Completeness: everything in the language passes the scanning check. */
  lemma IsValidEmailComplete(s: string)
    requires EmailPattern(s)
    ensures IsValidEmail(s)
  {
    var i, j :| 0 < i && i + 1 < j && j + 1 < |s|
      && s[i] == '@' && s[j] == '.'
      && AllEmailChars(s[..i]) && AllEmailChars(s[i + 1..j]) && AllEmailChars(s[j + 1..]);
    IsValidEmailCompleteAt(s, i, j);
  }

  /** The scanning check decides exactly the language of the expression. */
  lemma IsValidEmailCorrect(s: string)
    ensures IsValidEmail(s) <==> EmailPattern(s)
  {
    if IsValidEmail(s) {
      IsValidEmailSound(s);
    }
    if EmailPattern(s) {
      IsValidEmailComplete(s);
    }
  }
}
