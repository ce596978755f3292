/**
  String helpers the controllers rely on, restricted to what the model needs:
  ordinal and ASCII-case-insensitive comparison, substring search, the
  white-space test of `string.IsNullOrWhiteSpace`, and decimal rendering of
  a non-negative integer (`int.ToString()`).
 */
module Text {
  import opened Wrappers

  // ---------------------------------------------------------------- case folding

  predicate IsUpperAscii(c: char) { 'A' <= c <= 'Z' }
  predicate IsLowerAscii(c: char) { 'a' <= c <= 'z' }

  function UpperChar(c: char): char {
    if IsLowerAscii(c) then (c as int - 32) as char else c
  }

  function LowerChar(c: char): char {
    if IsUpperAscii(c) then (c as int + 32) as char else c
  }

  /** `ToUpperInvariant`, restricted to ASCII letters. */
  function Upper(s: string): (r: string)
    ensures |r| == |s|
    ensures forall i :: 0 <= i < |s| ==> r[i] == UpperChar(s[i])
  {
    if |s| == 0 then "" else [UpperChar(s[0])] + Upper(s[1..])
  }

  /** `ToLower`, restricted to ASCII letters. */
  function Lower(s: string): (r: string)
    ensures |r| == |s|
    ensures forall i :: 0 <= i < |s| ==> r[i] == LowerChar(s[i])
  {
    if |s| == 0 then "" else [LowerChar(s[0])] + Lower(s[1..])
  }

  /** Two characters are equal up to ASCII case. */
  predicate SameLetter(a: char, b: char) { UpperChar(a) == UpperChar(b) }

  /** `string.Equals(a, b, StringComparison.OrdinalIgnoreCase)` over ASCII. */
  predicate EqualsIgnoreCase(a: string, b: string) { Upper(a) == Upper(b) }

  lemma UpperLowerAgree(a: char, b: char)
    ensures UpperChar(a) == UpperChar(b) <==> LowerChar(a) == LowerChar(b)
  {
  }

  /** Folding to lower case and folding to upper case identify the same strings. */
  lemma {:induction false} LowerEqIffUpperEq(a: string, b: string)
    ensures Lower(a) == Lower(b) <==> Upper(a) == Upper(b)
  {
    if |a| == |b| {
      if Lower(a) == Lower(b) {
        forall i | 0 <= i < |a| ensures Upper(a)[i] == Upper(b)[i] {
          assert Lower(a)[i] == Lower(b)[i];
          UpperLowerAgree(a[i], b[i]);
        }
      }
      if Upper(a) == Upper(b) {
        forall i | 0 <= i < |a| ensures Lower(a)[i] == Lower(b)[i] {
          assert Upper(a)[i] == Upper(b)[i];
          UpperLowerAgree(a[i], b[i]);
        }
      }
    } else {
      assert |Lower(a)| != |Lower(b)|;
    }
  }

  // ---------------------------------------------------------------- substring search

  /** `needle` sits in `hay` starting at position `i`. */
  predicate OccursAt(hay: string, needle: string, i: int) {
    0 <= i && i + |needle| <= |hay| && hay[i..i + |needle|] == needle
  }

  predicate StartsWith(s: string, prefix: string) {
    |prefix| <= |s| && s[..|prefix|] == prefix
  }

  /** `hay.Contains(needle)` with ordinal comparison; the empty needle occurs everywhere. */
  predicate Contains(hay: string, needle: string)
    decreases |hay|
  {
    StartsWith(hay, needle) || (|hay| > 0 && Contains(hay[1..], needle))
  }

  /** The search above finds exactly the positions at which the needle occurs. */
  lemma {:induction false} ContainsIffOccurs(hay: string, needle: string)
    ensures Contains(hay, needle) <==> exists i :: OccursAt(hay, needle, i)
    decreases |hay|
  {
    assert hay[..0] == [];
    if StartsWith(hay, needle) {
      assert OccursAt(hay, needle, 0);
    } else if |hay| == 0 {
      // the needle is not empty, so it fits nowhere in the empty string
    } else {
      ContainsIffOccurs(hay[1..], needle);
      if exists i :: OccursAt(hay[1..], needle, i) {
        var i :| OccursAt(hay[1..], needle, i);
        assert hay[i + 1..i + 1 + |needle|] == hay[1..][i..i + |needle|];
        assert OccursAt(hay, needle, i + 1);
      }
      assert |needle| <= |hay| ==> hay[0..|needle|] == hay[..|needle|];
      if exists i :: OccursAt(hay, needle, i) {
        var i :| OccursAt(hay, needle, i);
        assert hay[1..][i - 1..i - 1 + |needle|] == hay[i..i + |needle|];
        assert OccursAt(hay[1..], needle, i - 1);
      }
    }
  }

  /** `hay.Contains(needle, StringComparison.OrdinalIgnoreCase)` over ASCII. */
  predicate ContainsIgnoreCase(hay: string, needle: string) {
    Contains(Upper(hay), Upper(needle))
  }

  /** `s.Split(sep)`: the pieces between separators, always at least one. */
  function Split(s: string, sep: char): (r: seq<string>)
    ensures |r| >= 1
    decreases |s|
  {
    if |s| == 0 then [""]
    else
      var rest := Split(s[1..], sep);
      if s[0] == sep then [""] + rest
      else [[s[0]] + rest[0]] + rest[1..]
  }

  predicate Lacks(s: string, c: char) {
    forall i :: 0 <= i < |s| ==> s[i] != c
  }

  /** A separator-free piece followed by a separator splits off as one field. */
  lemma {:induction false} SplitPiece(x: string, y: string, sep: char)
    requires Lacks(x, sep)
    ensures Split(x + [sep] + y, sep) == [x] + Split(y, sep)
    ensures Split(x, sep) == [x]
    decreases |x|
  {
    if |x| == 0 {
      assert x + [sep] + y == [sep] + y;
      assert ([sep] + y)[1..] == y;
    } else {
      SplitPiece(x[1..], y, sep);
      assert (x + [sep] + y)[1..] == x[1..] + [sep] + y;
      assert [x[0]] + x[1..] == x;
    }
  }

  // ---------------------------------------------------------------- white space

  /** `char.IsWhiteSpace`: the Unicode separators plus the control white space. */
  predicate IsWhiteSpace(c: char) {
    var k := c as int;
    (0x09 <= k <= 0x0D) || k == 0x20 || k == 0x85 || k == 0xA0 || k == 0x1680
    || (0x2000 <= k <= 0x200A) || k == 0x2028 || k == 0x2029 || k == 0x202F
    || k == 0x205F || k == 0x3000
  }

  predicate AllWhiteSpace(s: string) {
    forall i :: 0 <= i < |s| ==> IsWhiteSpace(s[i])
  }

  /** `string.IsNullOrWhiteSpace`; true also of the empty string. */
  predicate IsNullOrWhiteSpace(s: Option<string>) {
    s.None? || AllWhiteSpace(s.value)
  }

  /** `string.IsNullOrEmpty`. */
  predicate IsNullOrEmpty(s: Option<string>) {
    s.None? || |s.value| == 0
  }

  // ---------------------------------------------------------------- decimal digits

  function DigitChar(d: nat): char
    requires d < 10
  {
    ('0' as int + d) as char
  }

  predicate IsDigit(c: char) { '0' <= c <= '9' }

  /** `n.ToString()` for a non-negative `n`: no sign, no leading zeros. */
  function DecimalString(n: nat): string
  {
    if n < 10 then [DigitChar(n)] else DecimalString(n / 10) + [DigitChar(n % 10)]
  }

  /** The value of a string of decimal digits (`int.Parse` without sign or spaces). */
  function DecimalValue(s: string): nat
    requires forall i :: 0 <= i < |s| ==> IsDigit(s[i])
  {
    if |s| == 0 then 0
    else
      var last := s[|s| - 1];
      assert IsDigit(last);
      DecimalValue(s[..|s| - 1]) * 10 + (last as int - '0' as int)
  }

  function Pow10(k: nat): (r: nat)
    ensures r >= 1
  {
    if k == 0 then 1 else 10 * Pow10(k - 1)
  }

  /**
    Rendering is digits only, parses back to the number, and has exactly `k`
    characters when the number has `k` digits.
   */
  lemma {:induction false} DecimalStringFacts(n: nat, k: nat)
    requires (1 <= k && Pow10(k - 1) <= n < Pow10(k)) || (k == 1 && n == 0)
    ensures |DecimalString(n)| == k
    ensures forall i :: 0 <= i < |DecimalString(n)| ==> IsDigit(DecimalString(n)[i])
    ensures DecimalValue(DecimalString(n)) == n
  {
    assert Pow10(1) == 10;
    if k >= 2 {
      assert Pow10(k - 1) == 10 * Pow10(k - 2);
    }
    if n >= 10 {
      assert Pow10(k - 2) <= n / 10 < Pow10(k - 1) by {
        assert Pow10(k) == 10 * Pow10(k - 1);
      }
      DecimalStringFacts(n / 10, k - 1);
      var s := DecimalString(n);
      assert s[..|s| - 1] == DecimalString(n / 10);
    }
  }

  /** Six-digit numbers render as six-character codes that parse back. */
  lemma SixDigitCode(n: nat)
    requires 100000 <= n < 1000000
    ensures |DecimalString(n)| == 6
    ensures forall i :: 0 <= i < 6 ==> IsDigit(DecimalString(n)[i])
    ensures DecimalValue(DecimalString(n)) == n
  {
    assert Pow10(5) == 100000 && Pow10(6) == 1000000;
    DecimalStringFacts(n, 6);
  }

  /** Distinct numbers render as distinct strings. */
  lemma DecimalStringInjective(m: nat, n: nat)
    requires 100000 <= m < 1000000 && 100000 <= n < 1000000
    ensures DecimalString(m) == DecimalString(n) <==> m == n
  {
    SixDigitCode(m);
    SixDigitCode(n);
  }
}
