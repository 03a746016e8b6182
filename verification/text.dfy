/**
 * Strings as the pages use them: `String.prototype.trim` for the "blank input"
 * checks, and a total order standing in for `localeCompare`.
 */
module Text {

  /** ECMAScript WhiteSpace and LineTerminator code points: what `trim` removes. */
  predicate IsSpace(c: char) {
    var n := c as int;
    n == 0x09 || n == 0x0A || n == 0x0B || n == 0x0C || n == 0x0D || n == 0x20
    || n == 0xA0 || n == 0x1680 || (0x2000 <= n <= 0x200A) || n == 0x2028
    || n == 0x2029 || n == 0x202F || n == 0x205F || n == 0x3000 || n == 0xFEFF
  }

  /** Every character of `s` is white space (so `s.trim()` is empty and falsy). */
  predicate Blank(s: string) {
    forall k | 0 <= k < |s| :: IsSpace(s[k])
  }

  /** Number of leading white-space characters. */
  function Leading(s: string): (n: nat)
    ensures n <= |s|
    ensures Blank(s[..n])
    ensures n < |s| ==> !IsSpace(s[n])
  {
    if |s| == 0 || !IsSpace(s[0]) then 0
    else
      var m := Leading(s[1..]);
      assert s[1..][..m] == s[1..m + 1];
      m + 1
  }

  /** Number of trailing white-space characters. */
  function Trailing(s: string): (n: nat)
    ensures n <= |s|
    ensures Blank(s[|s| - n..])
    ensures n < |s| ==> !IsSpace(s[|s| - n - 1])
  {
    if |s| == 0 || !IsSpace(s[|s| - 1]) then 0
    else
      var m := Trailing(s[..|s| - 1]);
      assert s[..|s| - 1][|s| - 1 - m..] == s[|s| - 1 - m..|s| - 1];
      m + 1
  }

  /**
   * `s.trim()`: the infix of `s` that remains after dropping white space at
   * both ends. It is empty exactly when `s` is blank; otherwise it starts and
   * ends with a non-space character.
   */
  function Trim(s: string): (r: string)
    ensures Leading(s) + |r| <= |s|
    ensures r == s[Leading(s)..Leading(s) + |r|]
    ensures Blank(s[..Leading(s)]) && Blank(s[Leading(s) + |r|..])
    ensures r == "" <==> Blank(s)
    ensures r != "" ==> !IsSpace(r[0]) && !IsSpace(r[|r| - 1])
  {
    var i := Leading(s);
    if i == |s| then
      assert s[..i] == s;
      ""
    else
      var t := s[i..];
      var j := Trailing(t);
      assert !IsSpace(t[0]);
      assert t[|t| - j..] == s[i + |t| - j..];
      assert !Blank(s) by { assert !IsSpace(s[i]); }
      t[..|t| - j]
  }

  /**
   * Lexicographic strict order on characters (Unicode scalar values, with no
   * locale collation): the model of `a.localeCompare(b) < 0`.
   */
  predicate StrLt(a: string, b: string) {
    if |a| == 0 then |b| > 0
    else if |b| == 0 then false
    else if a[0] != b[0] then a[0] < b[0]
    else StrLt(a[1..], b[1..])
  }

  lemma {:induction false} StrLtIrreflexive(a: string)
    ensures !StrLt(a, a)
  {
    if |a| > 0 {
      StrLtIrreflexive(a[1..]);
    }
  }

  lemma {:induction false} StrLtAsymmetric(a: string, b: string)
    ensures StrLt(a, b) ==> !StrLt(b, a)
  {
    if |a| > 0 && |b| > 0 && a[0] == b[0] {
      StrLtAsymmetric(a[1..], b[1..]);
    }
  }

  lemma {:induction false} StrLtTransitive(a: string, b: string, c: string)
    ensures StrLt(a, b) && StrLt(b, c) ==> StrLt(a, c)
  {
    if |a| > 0 && |b| > 0 && |c| > 0 && a[0] == b[0] && b[0] == c[0] {
      StrLtTransitive(a[1..], b[1..], c[1..]);
    }
  }

  /** Distinct strings are always ordered one way or the other. */
  lemma {:induction false} StrLtTotal(a: string, b: string)
    ensures a != b ==> StrLt(a, b) || StrLt(b, a)
  {
    if |a| > 0 && |b| > 0 && a[0] == b[0] {
      StrLtTotal(a[1..], b[1..]);
      if a[1..] == b[1..] {
        assert a == [a[0]] + a[1..] && b == [b[0]] + b[1..];
      }
    }
  }
}
