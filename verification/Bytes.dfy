/** Bytes, C strings and decimal numerals, shared by every module that handles text. */
module Bytes {

  /** A C `unsigned char`, written as a character below 256 so that literals stay readable. */
  type byte = c: char | c as int < 256 witness ' '

  /** The contents of a buffer, or of a C string without its terminator. */
  type Text = seq<byte>

  datatype Option<+T> = None | Some(value: T)

  /** What C reads at index `i`: the terminating NUL stands just behind the contents. */
  function At(s: Text, i: nat): byte {
    if i < |s| then s[i] else '\0'
  }

  predicate NulFree(s: Text) {
    forall i :: 0 <= i < |s| ==> s[i] != '\0'
  }

  /** The C string that starts a buffer: everything before the first NUL. */
  function CString(s: Text): Text {
    if s == [] || s[0] == '\0' then [] else [s[0]] + CString(s[1..])
  }

  lemma {:induction false} CStringOfNulFree(s: Text)
    requires NulFree(s)
    ensures CString(s) == s
  {
    if s != [] {
      CStringOfNulFree(s[1..]);
    }
  }

  /** `t` is found in `c` at position `p`. */
  predicate Occurs(c: Text, p: nat, t: Text) {
    p + |t| <= |c| && c[p..p + |t|] == t
  }

  lemma OccursSplit(c: Text, p: nat, s: Text, t: Text)
    requires Occurs(c, p, s + t)
    ensures Occurs(c, p, s)
    ensures Occurs(c, p + |s|, t)
  {
    assert c[p..p + |s|] == c[p..p + |s + t|][..|s|];
    assert c[p + |s|..p + |s| + |t|] == c[p..p + |s + t|][|s|..];
  }

  predicate IsDigit(c: byte) {
    '0' <= c <= '9'
  }

  predicate AllDigits(s: Text) {
    forall i :: 0 <= i < |s| ==> IsDigit(s[i])
  }

  /** The numeral that `%lu` prints. */
  function Decimal(n: nat): (s: Text)
    ensures |s| > 0
  {
    if n < 10 then [('0' as int + n) as char] else Decimal(n / 10) + [('0' as int + n % 10) as char]
  }

  function DigitsValue(s: Text): nat
    requires AllDigits(s)
  {
    if s == [] then 0 else 10 * DigitsValue(s[..|s| - 1]) + (s[|s| - 1] as int - '0' as int)
  }

  /** Decimal numerals are read back, and have no superfluous leading zero. */
  lemma {:induction false} DecimalRoundTrip(n: nat)
    ensures AllDigits(Decimal(n))
    ensures DigitsValue(Decimal(n)) == n
    ensures Decimal(n)[0] == '0' ==> n == 0
    ensures n == 0 ==> Decimal(n) == ['0']
  {
    if n >= 10 {
      DecimalRoundTrip(n / 10);
      var s := Decimal(n);
      assert s[..|s| - 1] == Decimal(n / 10);
    } else {
      assert Decimal(n)[..0] == [];
    }
  }

  function Pow10(k: nat): nat {
    if k == 0 then 1 else 10 * Pow10(k - 1)
  }

  lemma {:induction false} DecimalLength(n: nat, k: nat)
    requires k > 0 && n < Pow10(k)
    ensures |Decimal(n)| <= k
  {
    if n >= 10 {
      assert Pow10(1) == 10 * Pow10(0) == 10;
      DecimalLength(n / 10, k - 1);
    }
  }

  /** The ASCII part of `tolower`. */
  function Lower(c: byte): byte {
    if 'A' <= c <= 'Z' then (c as int + 32) as char else c
  }

  function LowerText(s: Text): (r: Text)
    ensures |r| == |s|
  {
    seq(|s|, i requires 0 <= i < |s| => Lower(s[i]))
  }

  /** Keys are looked up as they are, or folded to lower case when matching ignores case. */
  function Fold(s: Text, caseSensitive: bool): Text {
    if caseSensitive then s else LowerText(s)
  }

  /** The sign of `strcmp`. */
  function StrCmp(a: Text, b: Text): int {
    if a == [] then (if b == [] then 0 else -1)
    else if b == [] then 1
    else if a[0] == b[0] then StrCmp(a[1..], b[1..])
    else a[0] as int - b[0] as int
  }

  /** `compare_strings` of two keys that are present. */
  function CompareStrings(a: Text, b: Text, caseSensitive: bool): int {
    StrCmp(Fold(a, caseSensitive), Fold(b, caseSensitive))
  }

  lemma {:induction false} StrCmpZero(a: Text, b: Text)
    ensures StrCmp(a, b) == 0 <==> a == b
  {
    if a != [] && b != [] {
      StrCmpZero(a[1..], b[1..]);
      assert a == [a[0]] + a[1..] && b == [b[0]] + b[1..];
    }
  }

  lemma {:induction false} StrCmpAntisymmetric(a: Text, b: Text)
    ensures StrCmp(a, b) < 0 <==> StrCmp(b, a) > 0
    ensures StrCmp(a, b) == 0 <==> StrCmp(b, a) == 0
  {
    if a != [] && b != [] {
      StrCmpAntisymmetric(a[1..], b[1..]);
    }
  }

  lemma {:induction false} StrCmpTransitive(a: Text, b: Text, c: Text)
    requires StrCmp(a, b) <= 0 && StrCmp(b, c) <= 0
    ensures StrCmp(a, c) <= 0
    ensures StrCmp(a, b) < 0 || StrCmp(b, c) < 0 ==> StrCmp(a, c) < 0
  {
    if a != [] && b != [] && c != [] && a[0] == b[0] && b[0] == c[0] {
      StrCmpTransitive(a[1..], b[1..], c[1..]);
    }
  }

  /** `a` and `b` have their first `k` bytes in common, and then `a` ends or has the smaller byte. */
  predicate SmallerAt(a: Text, b: Text, k: nat) {
    k <= |a| && k < |b| && a[..k] == b[..k] && (k < |a| ==> a[k] as int < b[k] as int)
  }

  /** The order is lexicographic, by the values of the bytes. */
  lemma {:induction false} StrCmpIsLexicographic(a: Text, b: Text)
    ensures StrCmp(a, b) < 0 <==> exists k: nat :: SmallerAt(a, b, k)
  {
    if a != [] && b != [] && a[0] == b[0] {
      StrCmpIsLexicographic(a[1..], b[1..]);
      forall k: nat | k <= |a[1..]| && k <= |b[1..]|
        ensures SmallerAt(a, b, k + 1) <==> SmallerAt(a[1..], b[1..], k)
      {
        assert a[..k + 1] == [a[0]] + a[1..][..k] && b[..k + 1] == [b[0]] + b[1..][..k];
        assert a[1..][..k] == a[..k + 1][1..] && b[1..][..k] == b[..k + 1][1..];
      }
      if k: nat :| SmallerAt(a[1..], b[1..], k) {
        assert SmallerAt(a, b, k + 1);
      }
      if k: nat :| SmallerAt(a, b, k) {
        assert SmallerAt(a[1..], b[1..], k - 1);
      }
    } else if StrCmp(a, b) < 0 {
      assert SmallerAt(a, b, 0);
    }
  }
}
