/**
  `System.Guid` as a 128-bit number, with the text forms the code relies on:
  `ToString()` (format "D", lower-case hex in 8-4-4-4-12 groups) and
  `Guid.TryParse` restricted to the "D" and "N" (32 bare digits) forms.
 */
module Guids {
  import opened Wrappers

  const GuidBound: nat := 0x1_0000_0000_0000_0000_0000_0000_0000_0000

  type Guid = n: nat | n < GuidBound

  /** `Guid.Empty`. */
  const Empty: Guid := 0

  function Pow16(k: nat): (r: nat)
    ensures r >= 1
  {
    if k == 0 then 1 else 16 * Pow16(k - 1)
  }

  lemma {:induction false} Pow16Add(a: nat, b: nat)
    ensures Pow16(a + b) == Pow16(a) * Pow16(b)
  {
    if a > 0 {
      Pow16Add(a - 1, b);
    }
  }

  lemma Pow16Bound()
    ensures Pow16(32) == GuidBound
  {
    assert Pow16(2) == 256;
    assert Pow16(4) == 65536 by { Pow16Add(2, 2); }
    assert Pow16(8) == 0x1_0000_0000 by { Pow16Add(4, 4); }
    assert Pow16(16) == 0x1_0000_0000_0000_0000 by { Pow16Add(8, 8); }
    Pow16Add(16, 16);
  }

  predicate IsHexDigit(c: char) {
    ('0' <= c <= '9') || ('a' <= c <= 'f') || ('A' <= c <= 'F')
  }

  predicate AllHex(s: string) {
    forall i :: 0 <= i < |s| ==> IsHexDigit(s[i])
  }

  function HexChar(d: nat): char
    requires d < 16
  {
    if d < 10 then ('0' as int + d) as char else ('a' as int + d - 10) as char
  }

  function HexCharValue(c: char): (d: nat)
    requires IsHexDigit(c)
    ensures d < 16
  {
    if '0' <= c <= '9' then c as int - '0' as int
    else if 'a' <= c <= 'f' then c as int - 'a' as int + 10
    else c as int - 'A' as int + 10
  }

  /** The low `k` hexadecimal digits of `n`, most significant first. */
  function HexDigits(n: nat, k: nat): (s: string)
    ensures |s| == k
  {
    if k == 0 then "" else HexDigits(n / 16, k - 1) + [HexChar(n % 16)]
  }

  /** The number a string of hexadecimal digits denotes (either case). */
  function HexValue(s: string): nat
    requires AllHex(s)
  {
    if |s| == 0 then 0
    else
      var last := s[|s| - 1];
      assert IsHexDigit(last);
      HexValue(s[..|s| - 1]) * 16 + HexCharValue(last)
  }

  lemma {:induction false} HexValueBound(s: string)
    requires AllHex(s)
    ensures HexValue(s) < Pow16(|s|)
  {
    if |s| > 0 {
      HexValueBound(s[..|s| - 1]);
    }
  }

  /** Rendering `k` digits and reading them back recovers any number below 16^k. */
  lemma {:induction false} HexRoundTrip(n: nat, k: nat)
    requires n < Pow16(k)
    ensures AllHex(HexDigits(n, k))
    ensures HexValue(HexDigits(n, k)) == n
  {
    if k > 0 {
      HexRoundTrip(n / 16, k - 1);
      var s := HexDigits(n, k);
      assert s[..k - 1] == HexDigits(n / 16, k - 1);
    }
  }

  /** `Guid.ToString()`: format "D". */
  function Format(g: Guid): (s: string)
    ensures |s| == 36
  {
    var h := HexDigits(g, 32);
    h[..8] + "-" + h[8..12] + "-" + h[12..16] + "-" + h[16..20] + "-" + h[20..]
  }

  /** `Guid.ToString("N")`: 32 digits, no separators. */
  function FormatN(g: Guid): (s: string)
    ensures |s| == 32
  {
    HexDigits(g, 32)
  }

  predicate HyphensAtD(s: string) {
    |s| == 36 && s[8] == '-' && s[13] == '-' && s[18] == '-' && s[23] == '-'
  }

  /** The 32 digits of a "D"-shaped string, separators removed. */
  function DigitsOfD(s: string): (h: string)
    requires HyphensAtD(s)
    ensures |h| == 32
  {
    s[..8] + s[9..13] + s[14..18] + s[19..23] + s[24..]
  }

  /** `Guid.TryParse(s, out g)` for the "D" and "N" forms; `None` is a `false` return. */
  function TryParse(s: Option<string>): Option<Guid>
  {
    if s.None? then None
    else
      var t := s.value;
      if HyphensAtD(t) && AllHex(DigitsOfD(t)) then
        HexValueBound(DigitsOfD(t));
        Pow16Bound();
        Some(HexValue(DigitsOfD(t)))
      else if |t| == 32 && AllHex(t) then
        HexValueBound(t);
        Pow16Bound();
        Some(HexValue(t))
      else None
  }

  /** Removing the separators from the "D" form leaves the 32 digits. */
  lemma DigitsOfFormat(g: Guid)
    ensures HyphensAtD(Format(g))
    ensures DigitsOfD(Format(g)) == HexDigits(g, 32)
  {
    var h := HexDigits(g, 32);
    var s := Format(g);
    assert s[..8] == h[..8];
    assert s[9..13] == h[8..12];
    assert s[14..18] == h[12..16];
    assert s[19..23] == h[16..20];
    assert s[24..] == h[20..];
    assert h == h[..8] + h[8..12] + h[12..16] + h[16..20] + h[20..];
  }

  /** The text `ToString()` produces parses back to the same Guid. */
  lemma FormatRoundTrip(g: Guid)
    ensures TryParse(Some(Format(g))) == Some(g)
  {
    Pow16Bound();
    HexRoundTrip(g, 32);
    DigitsOfFormat(g);
  }

  /** So does the "N" form. */
  lemma FormatNRoundTrip(g: Guid)
    ensures TryParse(Some(FormatN(g))) == Some(g)
  {
    Pow16Bound();
    HexRoundTrip(g, 32);
    var s := FormatN(g);
    assert !HyphensAtD(s);
  }

  /** Distinct Guids have distinct text. */
  lemma FormatInjective(a: Guid, b: Guid)
    ensures Format(a) == Format(b) <==> a == b
  {
    FormatRoundTrip(a);
    FormatRoundTrip(b);
  }
}
