/**
 * Character classes and string helpers that the Python code takes from `str`.
 * Only ASCII behaviour is modelled: `isdigit`, `isalpha` and `isspace` are
 * restricted to their ASCII members.
 */
module Text {

  /** ASCII members of `str.isspace`: tab, line feed, vertical tab, form feed,
      carriage return, the four information separators 0x1C..0x1F and space. */
  predicate IsSpace(c: char) {
    c == ' ' || ('\t' <= c <= '\r') || ('\U{1C}' <= c <= '\U{1F}')
  }

  predicate IsDigit(c: char) {
    '0' <= c <= '9'
  }

  predicate IsLetter(c: char) {
    ('a' <= c <= 'z') || ('A' <= c <= 'Z')
  }

  /** `s.isdigit()`: false on the empty string. */
  predicate IsDigits(s: string) {
    |s| > 0 && forall i :: 0 <= i < |s| ==> IsDigit(s[i])
  }

  /** `s.isalpha()`: false on the empty string. */
  predicate IsAlpha(s: string) {
    |s| > 0 && forall i :: 0 <= i < |s| ==> IsLetter(s[i])
  }

  /** No leading and no trailing whitespace. */
  predicate IsStripped(s: string) {
    |s| == 0 || (!IsSpace(s[0]) && !IsSpace(s[|s| - 1]))
  }

  predicate AllSpace(s: string) {
    forall i :: 0 <= i < |s| ==> IsSpace(s[i])
  }

  function StripLeft(s: string): (r: string)
    ensures |r| <= |s| && r == s[|s| - |r|..]
    ensures forall k :: 0 <= k < |s| - |r| ==> IsSpace(s[k])
    ensures |r| == 0 || !IsSpace(r[0])
    ensures r == [] <==> AllSpace(s)
  {
    if |s| > 0 && IsSpace(s[0]) then
      assert forall k :: 1 <= k < |s| ==> s[k] == s[1..][k - 1];
      StripLeft(s[1..])
    else s
  }

  function StripRight(s: string): (r: string)
    ensures |r| <= |s| && r == s[..|r|]
    ensures forall k :: |r| <= k < |s| ==> IsSpace(s[k])
    ensures |r| == 0 || !IsSpace(r[|r| - 1])
    ensures r == [] <==> AllSpace(s)
  {
    if |s| > 0 && IsSpace(s[|s| - 1]) then StripRight(s[..|s| - 1]) else s
  }

  /** `s.strip()`: drops whitespace at both ends and keeps the middle. */
  function Strip(s: string): (r: string)
    ensures exists i, j :: 0 <= i <= j <= |s| && r == s[i..j] && AllSpace(s[..i]) && AllSpace(s[j..])
    ensures IsStripped(r)
    ensures IsStripped(s) ==> r == s
    ensures r == [] <==> AllSpace(s)
  {
    var l := StripLeft(s);
    StripLeftOfStripped(s);
    StripMiddle(s);
    StripRight(l)
  }

  lemma StripLeftOfStripped(s: string)
    ensures IsStripped(s) ==> StripLeft(s) == s && StripRight(s) == s
  {
    if IsStripped(s) && |s| > 0 {
      assert !IsSpace(s[0]) && !IsSpace(s[|s| - 1]);
    }
  }

  /** Taking whitespace off the left and then off the right keeps a middle
      slice with only whitespace around it. */
  lemma StripMiddle(s: string)
    ensures var r := StripRight(StripLeft(s));
      exists i, j :: 0 <= i <= j <= |s| && r == s[i..j] && AllSpace(s[..i]) && AllSpace(s[j..])
  {
    var l := StripLeft(s);
    var r := StripRight(l);
    var i := |s| - |l|;
    MiddleSlice(s, l, r, i, i + |r|);
  }

  /** A prefix of a suffix is a slice, and what is cut off it on both sides
      is whitespace. */
  lemma MiddleSlice(s: string, l: string, r: string, i: nat, j: nat)
    requires |l| <= |s| && i == |s| - |l| && l == s[i..]
    requires forall k :: 0 <= k < i ==> IsSpace(s[k])
    requires |r| <= |l| && j == i + |r| && r == l[..|r|]
    requires forall k :: |r| <= k < |l| ==> IsSpace(l[k])
    ensures r == s[i..j] && AllSpace(s[..i]) && AllSpace(s[j..])
  {
    forall n | 0 <= n < |r|
      ensures r[n] == s[i + n]
    {
      assert r[n] == l[n];
    }
    forall k | 0 <= k < i
      ensures IsSpace(s[..i][k])
    {
    }
    forall k | 0 <= k < |s| - j
      ensures IsSpace(s[j..][k])
    {
      assert s[j + k] == l[|r| + k];
    }
  }

  /** `s.replace(c, "")`. */
  function Remove(s: string, c: char): (r: string)
    ensures multiset(r) == multiset(s)[c := 0]
  {
    if s == [] then []
    else
      assert s == [s[0]] + s[1..];
      (if s[0] == c then [] else [s[0]]) + Remove(s[1..], c)
  }

  lemma RemoveMembers(s: string, c: char)
    ensures forall x :: x in Remove(s, c) <==> x in s && x != c
  {
    forall x ensures x in Remove(s, c) <==> x in s && x != c {
      assert x in Remove(s, c) <==> x in multiset(Remove(s, c));
      assert x in s <==> x in multiset(s);
    }
  }

  function DigitChar(d: nat): (c: char)
    requires d < 10
    ensures IsDigit(c)
  {
    "0123456789"[d]
  }

  /** `str(n)` for a non-negative integer: decimal, no leading zeros. */
  function NatString(n: nat): (r: string)
    ensures |r| > 0 && IsDigits(r)
    ensures (|r| == 1) == (n < 10)
  {
    if n < 10 then [DigitChar(n)] else NatString(n / 10) + [DigitChar(n % 10)]
  }

  /** `str(i)` for any integer. */
  function IntString(i: int): (r: string)
    ensures |r| > 0
    ensures (i >= 0) == IsDigits(r)
  {
    if i >= 0 then NatString(i)
    else
      var r := "-" + NatString(-i);
      assert !IsDigit(r[0]);
      r
  }

  lemma DigitCharInjective(a: nat, b: nat)
    requires a < 10 && b < 10 && DigitChar(a) == DigitChar(b)
    ensures a == b
  {
  }

  /** Different numbers have different decimal strings. */
  lemma {:induction false} NatStringInjective(a: nat, b: nat)
    requires NatString(a) == NatString(b)
    ensures a == b
  {
    if a >= 10 && b >= 10 {
      var sa, sb := NatString(a), NatString(b);
      assert sa == NatString(a / 10) + [DigitChar(a % 10)];
      assert sb == NatString(b / 10) + [DigitChar(b % 10)];
      assert sa[..|sa| - 1] == NatString(a / 10);
      assert sb[..|sb| - 1] == NatString(b / 10);
      NatStringInjective(a / 10, b / 10);
      DigitCharInjective(a % 10, b % 10);
    } else if a < 10 && b < 10 {
      DigitCharInjective(a, b);
    }
  }
}
