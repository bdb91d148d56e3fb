/** Decimal numerals: printing, reading, padding, and the scaled value of a numeral with
    a fraction. The currency parser and the Stellar amount parser are both measured
    against `Denotes`. */
module Decimal {
  import opened Prelude

  predicate IsDigits(s: string) {
    forall i :: 0 <= i < |s| ==> '0' <= s[i] <= '9'
  }

  /** The number a string of digits spells; the empty string spells zero. */
  function DigitsValue(s: string): nat
    requires IsDigits(s)
  {
    if s == "" then 0 else DigitsValue(s[..|s| - 1]) * 10 + (s[|s| - 1] as int - 48)
  }

  /** `n.to_string()` */
  function PrintNat(n: nat): (s: string)
    ensures s != "" && IsDigits(s)
    decreases n
  {
    if n < 10 then [(48 + n) as char] else PrintNat(n / 10) + [(48 + n % 10) as char]
  }

  function Zeros(k: nat): (s: string)
    ensures |s| == k && IsDigits(s)
    ensures forall i :: 0 <= i < k ==> s[i] == '0'
  {
    seq(k, i => '0')
  }

  /** Right-align to a width with zeros. */
  function PadLeft(s: string, width: nat): string {
    if |s| >= width then s else Zeros(width - |s|) + s
  }

  /** Left-align to a width with zeros. */
  function PadRight(s: string, width: nat): string {
    if |s| >= width then s else s + Zeros(width - |s|)
  }

  /** Digits read into an unsigned machine integer: refused when empty or out of range. */
  function ParseUnsigned(s: string, max: int): Option<nat> {
    if s != "" && IsDigits(s) && DigitsValue(s) <= max then Some(DigitsValue(s)) else None
  }

  /** `str::parse::<i128>`: an optional sign, at least one digit, and a value in range. */
  function ParseI128(s: string): (r: Option<int>)
    ensures r.Some? ==> -I128_MAX - 1 <= r.value <= I128_MAX
  {
    if s == "" then None
    else if s[0] == '-' then
      match ParseUnsigned(s[1..], I128_MAX + 1)
      case None => None
      case Some(n) => var m: int := n; Some(-m)
    else ParseUnsigned(if s[0] == '+' then s[1..] else s, I128_MAX)
  }

  /** v * 10^k */
  function Upscale(v: nat, k: nat): nat {
    v * Power(10, k)
  }

  /** The value of `whole.frac` in units of 10^-exp. */
  function Scaled(whole: string, frac: string, exp: nat): nat
    requires IsDigits(whole) && IsDigits(frac) && |frac| <= exp
  {
    Upscale(DigitsValue(whole), exp) + Upscale(DigitsValue(frac), exp - |frac|)
  }

  /** The grammar shared by both parsers: `t` is digits, or digits, a point and at most `exp`
      more digits (either side may be empty), and means exactly `v` units of 10^-exp. */
  ghost predicate Denotes(t: string, exp: nat, v: nat) {
    t != "" && exists whole, frac :: Spells(t, whole, frac, exp) && v == Scaled(whole, frac, exp)
  }

  predicate Spells(t: string, whole: string, frac: string, exp: nat) {
    && IsDigits(whole) && IsDigits(frac) && |frac| <= exp
    && (t == whole + "." + frac || (t == whole && frac == ""))
  }

  /** `split_once('.')`: what precedes the first point, and what follows it if there is one. */
  function SplitOnce(t: string): (r: (string, Option<string>))
    ensures r.1.None? ==> r.0 == t && '.' !in t
    ensures r.1.Some? ==> t == r.0 + "." + r.1.value && '.' !in r.0
  {
    if t == "" then ("", None)
    else if t[0] == '.' then ("", Some(t[1..]))
    else
      var (w, f) := SplitOnce(t[1..]);
      ([t[0]] + w, f)
  }

  lemma {:induction false} PrintNatValue(n: nat)
    ensures DigitsValue(PrintNat(n)) == n
    decreases n
  {
    var s := PrintNat(n);
    if n < 10 {
      assert s[..0] == "";
    } else {
      PrintNatValue(n / 10);
      assert s[..|s| - 1] == PrintNat(n / 10);
    }
  }

  /** Printed numbers have as many digits as their size requires. */
  lemma {:induction false} PrintNatLength(n: nat, width: nat)
    requires n < Power(10, width) && width > 0
    ensures |PrintNat(n)| <= width
    decreases n
  {
    if n >= 10 {
      assert Power(10, width) == 10 * Power(10, width - 1);
      assert width > 1 by {
        assert Power(10, 1) == 10;
      }
      PrintNatLength(n / 10, width - 1);
    }
  }

  lemma {:induction false} ZeroPrefix(k: nat, s: string)
    requires IsDigits(s)
    ensures DigitsValue(Zeros(k) + s) == DigitsValue(s)
    decreases k + |s|
  {
    var t := Zeros(k) + s;
    if s != "" {
      ZeroPrefix(k, s[..|s| - 1]);
      assert t[..|t| - 1] == Zeros(k) + s[..|s| - 1];
    } else if k > 0 {
      ZeroPrefix(k - 1, "");
      assert t[..|t| - 1] == Zeros(k - 1) + "";
    }
  }

  lemma {:induction false} ZeroSuffix(s: string, k: nat)
    requires IsDigits(s)
    ensures DigitsValue(s + Zeros(k)) == Upscale(DigitsValue(s), k)
  {
    hide Upscale;
    var t := s + Zeros(k);
    if k == 0 {
      assert t == s;
      UpscaleZero(DigitsValue(s));
    } else {
      ZeroSuffix(s, k - 1);
      assert t[..|t| - 1] == s + Zeros(k - 1);
      UpscaleStep(DigitsValue(s), k - 1);
    }
  }

  lemma UpscaleZero(v: nat)
    ensures Upscale(v, 0) == v && Upscale(0, v) == 0
  {
  }

  lemma UpscaleStep(v: nat, k: nat)
    ensures Upscale(v, k) * 10 == Upscale(v, k + 1)
  {
    var p := Power(10, k);
    assert v * p * 10 == v * (10 * p);
  }

  lemma UpscaleGrows(v: nat, k: nat)
    ensures v <= Upscale(v, k)
  {
    var p := Power(10, k);
    assert v * (p - 1) >= 0;
  }

  /** A string of k digits spells less than 10^k. */
  lemma {:induction false} DigitsValueBelow(s: string)
    requires IsDigits(s)
    ensures DigitsValue(s) < Power(10, |s|)
  {
    if s != "" {
      DigitsValueBelow(s[..|s| - 1]);
      assert Power(10, |s|) == 10 * Power(10, |s| - 1);
    }
  }

  /** Splitting at the first point recovers the two sides of the grammar. */
  lemma {:induction false} SplitOnceOfDigits(whole: string, frac: string)
    requires IsDigits(whole)
    ensures SplitOnce(whole + "." + frac) == (whole, Some(frac))
    ensures SplitOnce(whole) == (whole, None)
  {
    var t := whole + "." + frac;
    if whole == "" {
      assert t[0] == '.' && t[1..] == frac;
    } else {
      SplitOnceOfDigits(whole[1..], frac);
      assert t[0] == whole[0] && t[1..] == whole[1..] + "." + frac;
      assert [whole[0]] + whole[1..] == whole;
    }
  }

  /** The grammar decides the sides, so a text denotes at most one value. */
  lemma SpellsSplit(t: string, whole: string, frac: string, exp: nat)
    requires Spells(t, whole, frac, exp)
    ensures var (w, f) := SplitOnce(t);
            w == whole && frac == if f.Some? then f.value else ""
  {
    SplitOnceOfDigits(whole, frac);
  }

  lemma NumeralStart(t: string, exp: nat, v: nat)
    requires Denotes(t, exp, v)
    ensures t[0] == '.' || '0' <= t[0] <= '9'
  {
    var whole, frac :| Spells(t, whole, frac, exp) && v == Scaled(whole, frac, exp);
    assert t[0] == if whole == "" then '.' else whole[0];
  }

  lemma SmallValues()
    ensures DigitsValue("") == 0 && DigitsValue("0") == 0 && Power(10, 7) == 10_000_000
  {
    assert "0"[..0] == "";
  }

  lemma DenotesIsFunctional(t: string, exp: nat, u: nat, v: nat)
    requires Denotes(t, exp, u) && Denotes(t, exp, v)
    ensures u == v
  {
    var w0, f0 :| Spells(t, w0, f0, exp) && u == Scaled(w0, f0, exp);
    var w1, f1 :| Spells(t, w1, f1, exp) && v == Scaled(w1, f1, exp);
    SpellsSplit(t, w0, f0, exp);
    SpellsSplit(t, w1, f1, exp);
  }

  /** A printed number parses back as an i128 when it is in range. */
  lemma PrintParseI128(n: nat)
    requires n <= I128_MAX
    ensures ParseI128(PrintNat(n)) == Some(n)
  {
    PrintNatValue(n);
    assert '0' <= PrintNat(n)[0] <= '9';
  }

  /** The text of an integer in the i128 range: digits, at least one, after at most one sign. */
  ghost predicate SpellsI128(s: string, n: int) {
    || (IsNumeral(s) && n == DigitsValue(s) <= I128_MAX)
    || (exists d: string :: IsNumeral(d) && s == "+" + d && n == DigitsValue(d) <= I128_MAX)
    || (exists d: string :: IsNumeral(d) && s == "-" + d && n + DigitsValue(d) == 0 && n >= -I128_MAX - 1)
  }

  predicate IsNumeral(s: string) {
    s != "" && IsDigits(s)
  }

  /** A text parses as an i128 if and only if it spells one. */
  lemma ParseI128Iff(s: string, n: int)
    ensures ParseI128(s) == Some(n) <==> SpellsI128(s, n)
  {
    hide DigitsValue;
    if s != "" {
      var d := s[1..];
      assert s == [s[0]] + d;
      assert forall c: char, e: string :: s == [c] + e ==> c == s[0] && e == d;
    }
  }

  // ------------------------------------------------------------ canonical numerals

  /** Digits with no leading zero, except for zero itself. */
  predicate IsCanonical(s: string) {
    s != "" && IsDigits(s) && (s[0] != '0' || |s| == 1)
  }

  lemma {:induction false} PrintNatCanonical(n: nat)
    ensures IsCanonical(PrintNat(n)) && (n > 0 ==> PrintNat(n)[0] != '0')
    decreases n
  {
    if n >= 10 {
      PrintNatCanonical(n / 10);
    }
  }

  lemma {:induction false} LeadingDigitCounts(s: string)
    requires s != "" && IsDigits(s) && s[0] != '0'
    ensures DigitsValue(s) > 0
  {
    if |s| > 1 {
      LeadingDigitCounts(s[..|s| - 1]);
    }
  }

  lemma LastDigit(s: string)
    requires s != "" && IsDigits(s)
    ensures DigitsValue(s) / 10 == DigitsValue(s[..|s| - 1]) && DigitsValue(s) % 10 == s[|s| - 1] as int - 48
  {
  }

  /** A canonical numeral is the printed form of its value. */
  lemma {:induction false} CanonicalIsPrinted(s: string)
    requires IsCanonical(s)
    ensures PrintNat(DigitsValue(s)) == s
  {
    var front, last := s[..|s| - 1], s[|s| - 1];
    LastDigit(s);
    if |s| == 1 {
      assert front == "" && DigitsValue(front) == 0;
      assert s == [last];
    } else {
      LeadingDigitCounts(front);
      CanonicalIsPrinted(front);
      assert s == front + [last];
    }
  }

  /** At a fixed width the digits follow from the value. */
  lemma {:induction false} WidthFixesDigits(s: string, t: string)
    requires IsDigits(s) && IsDigits(t) && |s| == |t| && DigitsValue(s) == DigitsValue(t)
    ensures s == t
  {
    if s != "" {
      LastDigit(s);
      LastDigit(t);
      WidthFixesDigits(s[..|s| - 1], t[..|t| - 1]);
      assert s == s[..|s| - 1] + [s[|s| - 1]];
      assert t == t[..|t| - 1] + [t[|t| - 1]];
    }
  }
}
