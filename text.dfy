/** The string operations of Python 3 that the control panel applies to operator
    input and to lines read from the serial port: str.strip(), str.upper(),
    str.isdigit(), int() on a digit string and str.find(). Only characters below
    128 are given Python's meaning (the model's inputs are ASCII). */
module Text {

  /** All characters of `s` are ASCII. */
  predicate IsAscii(s: string) {
    forall i :: 0 <= i < |s| ==> s[i] as int < 128
  }

  /** The characters below 128 for which Python's str.isspace() holds:
      tab, line feed, vertical tab, form feed, carriage return (9-13),
      the four separators 28-31, and space. */
  predicate IsSpace(c: char) {
    var n := c as int;
    (9 <= n <= 13) || (28 <= n <= 31) || n == 32
  }

  predicate AllSpace(s: string) {
    forall i :: 0 <= i < |s| ==> IsSpace(s[i])
  }

  /** `s` without its leading whitespace. */
  function StripLeft(s: string): string {
    if s != [] && IsSpace(s[0]) then StripLeft(s[1..]) else s
  }

  /** `s` without its trailing whitespace. */
  function StripRight(s: string): string {
    if s != [] && IsSpace(s[|s| - 1]) then StripRight(s[..|s| - 1]) else s
  }

  /** StripLeft cuts off a prefix of whitespace and nothing more. */
  lemma {:induction false} StripLeftShape(s: string)
    ensures var r := StripLeft(s);
      && |r| <= |s| && r == s[|s| - |r|..]
      && (forall i :: 0 <= i < |s| - |r| ==> IsSpace(s[i]))
      && (r != [] ==> !IsSpace(r[0]))
  {
    if s != [] && IsSpace(s[0]) {
      var t := s[1..];
      StripLeftShape(t);
      var r := StripLeft(t);
      assert StripLeft(s) == r;
      assert t[|t| - |r|..] == s[|s| - |r|..];
      forall i | 0 <= i < |s| - |r|
        ensures IsSpace(s[i])
      {
        if i > 0 {
          assert s[i] == t[i - 1];
        }
      }
    }
  }

  /** StripRight cuts off a suffix of whitespace and nothing more. */
  lemma {:induction false} StripRightShape(s: string)
    ensures var r := StripRight(s);
      && |r| <= |s| && r == s[..|r|]
      && (forall i :: |r| <= i < |s| ==> IsSpace(s[i]))
      && (r != [] ==> !IsSpace(r[|r| - 1]))
  {
    if s != [] && IsSpace(s[|s| - 1]) {
      var t := s[..|s| - 1];
      StripRightShape(t);
      var r := StripRight(t);
      assert StripRight(s) == r;
      assert t[..|r|] == s[..|r|];
      forall i | |r| <= i < |s|
        ensures IsSpace(s[i])
      {
        if i < |s| - 1 {
          assert s[i] == t[i];
        }
      }
    }
  }

  /** Python's `s.strip()`. */
  function Strip(s: string): string {
    StripRight(StripLeft(s))
  }

  /** `m` has no whitespace at either end. */
  predicate Trimmed(m: string) {
    m == [] || (!IsSpace(m[0]) && !IsSpace(m[|m| - 1]))
  }

  lemma {:induction false} StripLeftPadding(a: string, t: string)
    requires AllSpace(a)
    requires t == [] || !IsSpace(t[0])
    ensures StripLeft(a + t) == t
  {
    if a != [] {
      assert (a + t)[1..] == a[1..] + t;
      StripLeftPadding(a[1..], t);
    } else {
      assert a + t == t;
    }
  }

  lemma {:induction false} StripRightPadding(t: string, b: string)
    requires AllSpace(b)
    requires t == [] || !IsSpace(t[|t| - 1])
    ensures StripRight(t + b) == t
  {
    if b != [] {
      assert (t + b)[..|t + b| - 1] == t + b[..|b| - 1];
      StripRightPadding(t, b[..|b| - 1]);
    } else {
      assert t + b == t;
    }
  }

  /** Strip characterised: whatever whitespace surrounds a trimmed text,
      stripping gives back exactly that text. */
  lemma StripUnique(a: string, m: string, b: string)
    requires AllSpace(a) && AllSpace(b) && Trimmed(m)
    ensures Strip(a + m + b) == m
  {
    if m == [] {
      assert a + m + b == (a + b) + [];
      StripLeftPadding(a + b, []);
    } else {
      assert a + m + b == a + (m + b);
      StripLeftPadding(a, m + b);
      StripRightPadding(m, b);
    }
  }

  lemma SpacePrefix(s: string, i: nat)
    requires i <= |s| && forall k :: 0 <= k < i ==> IsSpace(s[k])
    ensures AllSpace(s[..i])
  {
    forall k | 0 <= k < i
      ensures IsSpace(s[..i][k])
    {
      assert s[..i][k] == s[k];
    }
  }

  lemma SpaceSuffix(s: string, j: nat)
    requires j <= |s| && forall k :: j <= k < |s| ==> IsSpace(s[k])
    ensures AllSpace(s[j..])
  {
    var tail := s[j..];
    forall k | 0 <= k < |tail|
      ensures IsSpace(tail[k])
    {
      assert tail[k] == s[j + k];
    }
  }

  /** The result of Strip is a trimmed slice of its input with only whitespace cut off. */
  lemma StripShape(s: string)
    ensures Trimmed(Strip(s))
    ensures exists i :: 0 <= i <= |s| - |Strip(s)| && Strip(s) == s[i..i + |Strip(s)|]
                        && AllSpace(s[..i]) && AllSpace(s[i + |Strip(s)|..])
  {
    var l := StripLeft(s);
    var r := StripRight(l);
    assert Strip(s) == r;
    StripLeftShape(s);
    StripRightShape(l);
    var i := |s| - |l|;
    SpacePrefix(s, i);
    SpaceSuffix(l, |r|);
    assert l == s[i..];
    assert s[i + |r|..] == l[|r|..];
    assert r == s[i..i + |r|];
    assert Trimmed(r) by {
      if r != [] {
        assert r[0] == l[0];
      }
    }
  }

  /** Stripping keeps a text ASCII. */
  lemma StripAscii(s: string)
    requires IsAscii(s)
    ensures IsAscii(Strip(s))
  {
    var l := StripLeft(s);
    StripLeftShape(s);
    StripRightShape(l);
    assert forall k :: 0 <= k < |l| ==> l[k] == s[|s| - |l| + k];
    assert forall k :: 0 <= k < |Strip(s)| ==> Strip(s)[k] == l[k];
  }

  /** Stripping twice is stripping once. */
  lemma StripIdempotent(s: string)
    ensures Strip(Strip(s)) == Strip(s)
  {
    StripShape(s);
    var m := Strip(s);
    assert [] + m + [] == m;
    StripUnique([], m, []);
  }

  /** A text strips to the empty string exactly when it is all whitespace. */
  lemma StripEmpty(s: string)
    ensures Strip(s) == [] <==> AllSpace(s)
  {
    if AllSpace(s) {
      assert s + [] + [] == s;
      StripUnique(s, [], []);
    }
    if Strip(s) == [] {
      StripShape(s);
      var i :| 0 <= i <= |s| && [] == s[i..i] && AllSpace(s[..i]) && AllSpace(s[i..]);
      assert s == s[..i] + s[i..];
    }
  }

  /** Python's str.upper() on an ASCII character. */
  function UpperChar(c: char): char {
    if 'a' <= c <= 'z' then (c as int - 32) as char else c
  }

  predicate IsLower(c: char) {
    'a' <= c <= 'z'
  }

  /** Python's `s.upper()`, on ASCII text. */
  function Upper(s: string): (r: string)
    ensures |r| == |s|
    ensures forall i :: 0 <= i < |s| ==> r[i] == UpperChar(s[i])
  {
    if s == [] then [] else [UpperChar(s[0])] + Upper(s[1..])
  }

  /** Upper-casing keeps text ASCII, leaves no lower-case letter, and changes
      nothing on a second application. */
  lemma UpperProperties(s: string)
    ensures IsAscii(s) ==> IsAscii(Upper(s))
    ensures forall i :: 0 <= i < |s| ==> !IsLower(Upper(s)[i])
    ensures Upper(Upper(s)) == Upper(s)
  {
    var u := Upper(s);
    if IsAscii(s) {
      forall i | 0 <= i < |u| ensures u[i] as int < 128 {
        assert u[i] == UpperChar(s[i]);
      }
    }
    forall i | 0 <= i < |s| ensures !IsLower(u[i]) {
      assert u[i] == UpperChar(s[i]);
    }
    UpperFixed(u);
  }

  /** Upper-casing leaves text alone exactly when it has no lower-case letter. */
  lemma UpperFixed(s: string)
    ensures Upper(s) == s <==> forall i :: 0 <= i < |s| ==> !IsLower(s[i])
  {
    if forall i :: 0 <= i < |s| ==> !IsLower(s[i]) {
      assert forall i :: 0 <= i < |s| ==> Upper(s)[i] == s[i];
    }
  }

  predicate IsDigit(c: char) {
    '0' <= c <= '9'
  }

  /** Python's `s.isdigit()` on ASCII text: non-empty and only digits. */
  predicate IsDigits(s: string) {
    |s| > 0 && forall i :: 0 <= i < |s| ==> IsDigit(s[i])
  }

  predicate OnlyDigits(s: string) {
    forall i :: 0 <= i < |s| ==> IsDigit(s[i])
  }

  /** Python's `int(s)` on a string of decimal digits (leading zeros allowed). */
  function DigitsValue(s: string): nat
    requires OnlyDigits(s)
  {
    if s == [] then 0 else DigitsValue(s[..|s| - 1]) * 10 + (s[|s| - 1] as int - '0' as int)
  }

  function Pow10(n: nat): (p: nat)
    ensures p >= 1
  {
    if n == 0 then 1 else 10 * Pow10(n - 1)
  }

  function DigitChar(d: nat): (c: char)
    requires d < 10
    ensures IsDigit(c)
  {
    ('0' as int + d) as char
  }

  /** The canonical decimal rendering of `n`, as Python's str(n). */
  function ShowDecimal(n: nat): (r: string)
    ensures IsDigits(r)
    ensures r[0] == '0' ==> n == 0
    decreases n
  {
    if n < 10 then [DigitChar(n)] else ShowDecimal(n / 10) + [DigitChar(n % 10)]
  }

  /** Reading back a rendered number gives the number. */
  lemma {:induction false} DigitsRoundTrip(n: nat)
    ensures DigitsValue(ShowDecimal(n)) == n
    decreases n
  {
    var r := ShowDecimal(n);
    if n >= 10 {
      assert r[..|r| - 1] == ShowDecimal(n / 10);
      DigitsRoundTrip(n / 10);
    } else {
      assert r[..|r| - 1] == [];
    }
  }

  /** A k-digit string denotes a number below 10^k. */
  lemma {:induction false} DigitsValueBound(s: string)
    requires OnlyDigits(s)
    ensures DigitsValue(s) < Pow10(|s|)
  {
    if s != [] {
      DigitsValueBound(s[..|s| - 1]);
    }
  }

  /** Leading zeros do not change the value, so "007" and "7" denote the same number. */
  lemma {:induction false} LeadingZero(s: string)
    requires OnlyDigits(s)
    ensures OnlyDigits("0" + s) && DigitsValue("0" + s) == DigitsValue(s)
  {
    if s != [] {
      assert ("0" + s)[..|"0" + s| - 1] == "0" + s[..|s| - 1];
      LeadingZero(s[..|s| - 1]);
    }
  }

  predicate AllZeros(s: string) {
    forall i :: 0 <= i < |s| ==> s[i] == '0'
  }

  /** `s` is some (possibly no) zeros followed by `r`. */
  predicate ZerosThen(s: string, r: string) {
    |r| <= |s| && AllZeros(s[..|s| - |r|]) && s[|s| - |r|..] == r
  }

  /** Any run of leading zeros leaves the value unchanged. */
  lemma {:induction false} ZerosPrefix(z: string, s: string)
    requires AllZeros(z) && OnlyDigits(s)
    ensures OnlyDigits(z + s) && DigitsValue(z + s) == DigitsValue(s)
  {
    if z != [] {
      ZerosPrefix(z[1..], s);
      LeadingZero(z[1..] + s);
      assert z + s == "0" + (z[1..] + s);
    } else {
      assert z + s == s;
    }
  }

  /** Every digit string is leading zeros followed by the canonical rendering of its value. */
  lemma {:induction false} DigitsCanonical(s: string)
    requires IsDigits(s)
    ensures ZerosThen(s, ShowDecimal(DigitsValue(s)))
  {
    var init, c := s[..|s| - 1], s[|s| - 1];
    var d := c as int - '0' as int;
    assert DigitChar(d) == c;
    var v := DigitsValue(s);
    assert v == DigitsValue(init) * 10 + d;
    if init == [] {
      assert s == [c];
    } else {
      var m := DigitsValue(init);
      DigitsCanonical(init);
      var sm := ShowDecimal(m);
      if m == 0 {
        assert sm == "0";
        assert AllZeros(init) by {
          forall i | 0 <= i < |init| ensures init[i] == '0' {
            if i < |init| - 1 {
              assert init[..|init| - 1][i] == init[i];
            } else {
              assert init[|init| - 1..][0] == init[i];
            }
          }
        }
        assert s[..|s| - 1] == init && s[|s| - 1..] == [c];
      } else {
        assert v / 10 == m && v % 10 == d;
        var r := ShowDecimal(v);
        assert r == sm + [c];
        var k := |init| - |sm|;
        assert s[..k] == init[..k];
        assert s[k..] == init[k..] + [c];
      }
    }
  }

  /** `p` occurs in `s` starting at index `i`. */
  predicate OccursAt(s: string, p: string, i: int) {
    0 <= i && i + |p| <= |s| && s[i..i + |p|] == p
  }

  /** Python's `s.find(p, k)`: the lowest index at or after `k` where `p` occurs, or -1. */
  function FindFrom(s: string, p: string, k: nat): int
    requires k <= |s|
    decreases |s| - k
  {
    if k + |p| > |s| then -1
    else if s[k..k + |p|] == p then k
    else FindFrom(s, p, k + 1)
  }

  /** FindFrom returns the first occurrence at or after `k`, and -1 exactly when there is none. */
  lemma {:induction false} FindFromFirst(s: string, p: string, k: nat)
    requires k <= |s|
    decreases |s| - k
    ensures var r := FindFrom(s, p, k);
      && (r == -1 || (k <= r && OccursAt(s, p, r)))
      && (r == -1 ==> forall i :: k <= i ==> !OccursAt(s, p, i))
      && (r != -1 ==> forall i :: k <= i < r ==> !OccursAt(s, p, i))
  {
    if k + |p| <= |s| && s[k..k + |p|] != p {
      FindFromFirst(s, p, k + 1);
    }
  }

  /** Python's `s.find(p)`. */
  function Find(s: string, p: string): int {
    FindFrom(s, p, 0)
  }

  /** `s.find(p) > -1`, the test the program uses for "contains". */
  predicate Contains(s: string, p: string) {
    Find(s, p) > -1
  }

  /** The find test holds exactly when `p` occurs somewhere in `s`. */
  lemma ContainsIff(s: string, p: string)
    ensures Contains(s, p) <==> exists i :: OccursAt(s, p, i)
  {
    FindFromFirst(s, p, 0);
  }
}
