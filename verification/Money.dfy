/** Exact decimal money: the ISO 4217 printer and parser of `patala-fiat/src/currency.rs`
    and the stroop parser of `patala-stellar/src/rpc.rs`, against one decimal grammar. */
module Money {
  import opened Prelude
  import opened Text
  import opened Decimal
  import Radix

  datatype CurrencyError = InvalidCurrency | UnknownCurrency | InvalidAmount

  /** Currency code to minor-unit exponent. The shipped table has only 0, 2 and 3; all that
      the arithmetic needs is that 10^exponent is a u64. */
  type CurrencyTable = t: map<string, nat> | forall c :: c in t ==> t[c] <= 19 witness map[]

  function ToAsciiUppercase(s: string): string {
    seq(|s|, i requires 0 <= i < |s| => UpperChar(s[i]))
  }

  function NormalizeCode(code: string): Result<string, CurrencyError> {
    var c := ToAsciiUppercase(Trim(code));
    if ByteLen(c) != 3 || !(forall i :: 0 <= i < |c| ==> 'A' <= c[i] <= 'Z') then Err(InvalidCurrency)
    else Ok(c)
  }

  /** `normalize`: the table's own spelling of a code. */
  function Normalize(table: CurrencyTable, code: string): Result<string, CurrencyError> {
    match NormalizeCode(code)
    case Err(e) => Err(e)
    case Ok(c) => if c in table then Ok(c) else Err(UnknownCurrency)
  }

  function Exponent(table: CurrencyTable, code: string): (r: Result<nat, CurrencyError>)
    ensures r.Ok? ==> r.value <= 19
  {
    match Normalize(table, code)
    case Err(e) => Err(e)
    case Ok(c) => Ok(table[c])
  }

  function MinorToMajorString(table: CurrencyTable, amount: U64, currency: string): Result<string, CurrencyError> {
    match Exponent(table, currency)
    case Err(e) => Err(e)
    case Ok(exp) => Ok(PrintScaled(amount, exp))
  }

  /** The printer once the exponent is known. */
  function PrintScaled(amount: nat, exp: nat): string {
    if exp == 0 then PrintNat(amount) else
    var div := Power(10, exp);
    PrintNat(amount / div) + "." + PadLeft(PrintNat(amount % div), exp)
  }

  function MajorStringToMinor(table: CurrencyTable, s: string, currency: string): Result<U64, CurrencyError> {
    var t := Trim(s);
    if t == "" then Err(InvalidAmount)
    else if t[0] == '-' then Err(InvalidAmount)
    else match Exponent(table, currency)
      case Err(e) => Err(e)
      case Ok(exp) =>
        match ParseScaled(t, exp)
        case None => Err(InvalidAmount)
        case Some(v) => Ok(v)
  }

  /** The parser once the exponent is known. */
  function ParseScaled(t: string, exp: nat): Option<U64> {
    var (w, f) := SplitOnce(t);
    var whole := if w == "" then "0" else w;
    if !IsDigits(whole) then None
    else if f.Some? && (!IsDigits(f.value) || |f.value| > exp) then None
    else
      var fracDigits := if f.Some? then PadRight(f.value, exp) else Zeros(exp);
      match ParseUnsigned(whole, U64_BOUND - 1)
      case None => None
      case Some(wholeN) =>
        match if exp > 0 then ParseUnsigned(fracDigits, U64_BOUND - 1) else Some(0)
        case None => None
        case Some(fracN) =>
          // checked_mul then checked_add: both terms are non-negative
          var scaled := Upscale(wholeN, exp);
          if scaled + fracN < U64_BOUND then Some(scaled + fracN) else None
  }

  /** The same character up to ASCII letter case. */
  predicate SameLetter(c: char, d: char) {
    || c == d
    || ('a' <= c <= 'z' && c as int == d as int + 32)
    || ('a' <= d <= 'z' && d as int == c as int + 32)
  }

  predicate SameInAnyCase(s: string, t: string) {
    |s| == |t| && forall i :: 0 <= i < |s| ==> SameLetter(s[i], t[i])
  }

  /** Comparing uppercase forms is comparing letter by letter up to ASCII case. */
  lemma UppercaseIff(s: string, t: string)
    ensures ToAsciiUppercase(s) == ToAsciiUppercase(t) <==> SameInAnyCase(s, t)
  {
    var u, v := ToAsciiUppercase(s), ToAsciiUppercase(t);
    assert forall i :: 0 <= i < |s| ==> u[i] == UpperChar(s[i]);
    assert forall i :: 0 <= i < |t| ==> v[i] == UpperChar(t[i]);
    if SameInAnyCase(s, t) {
      assert forall i :: 0 <= i < |s| ==> UpperChar(s[i]) == UpperChar(t[i]);
    }
    if u == v {
      forall i | 0 <= i < |s|
        ensures SameLetter(s[i], t[i])
      {
        assert u[i] == v[i];
      }
    }
  }

  predicate IsCode(c: string) {
    |c| == 3 && forall i :: 0 <= i < 3 ==> 'A' <= c[i] <= 'Z'
  }

  /** A code is accepted as `c` if and only if `c` is three capital letters in the table and what is
      left of the code without surrounding whitespace is `c` in some letter case. */
  lemma NormalizeIff(table: CurrencyTable, code: string, c: string)
    ensures Normalize(table, code) == Ok(c) <==>
            IsCode(c) && c in table && exists t :: IsTrimmedFrom(code, t) && SameInAnyCase(t, c)
    ensures Normalize(table, code) == Err(UnknownCurrency) <==>
            exists t, d :: IsTrimmedFrom(code, t) && IsCode(d) && SameInAnyCase(t, d) && d !in table
  {
    hide Trim, IsTrimmedFrom;
    var t := Trim(code);
    var u := ToAsciiUppercase(t);
    TrimIff(code, t);
    forall t' | IsTrimmedFrom(code, t')
      ensures t' == t
    {
      TrimIff(code, t');
    }
    forall d | IsCode(d)
      ensures u == d <==> SameInAnyCase(t, d)
    {
      UppercaseIff(t, d);
      assert ToAsciiUppercase(d) == d;
    }
    if |u| == 3 && forall i :: 0 <= i < 3 ==> 'A' <= u[i] <= 'Z' {
      AsciiByteLen(u);
      assert IsCode(u);
    } else if IsAscii(u) {
      AsciiByteLen(u);
    }
    if NormalizeCode(code).Ok? {
      LettersAreAscii(u);
    }
  }

  lemma LettersAreAscii(u: string)
    requires ByteLen(u) == 3 && forall i :: 0 <= i < |u| ==> 'A' <= u[i] <= 'Z'
    ensures IsCode(u)
  {
    AsciiByteLen(u);
  }

  lemma PowerOfTenFitsU64(exp: nat)
    requires exp <= 19
    ensures Power(10, exp) < U64_BOUND
  {
    assert Power(10, 10) == 10_000_000_000;
    assert Power(10, 19) == 10_000_000_000_000_000_000;
    Radix.PowerMonotone(10, exp, 19);
  }

  /** Padding the fraction to full width is the same as scaling it. */
  lemma PaddedFraction(frac: string, exp: nat)
    requires IsDigits(frac) && |frac| <= exp
    ensures IsDigits(PadRight(frac, exp)) && |PadRight(frac, exp)| == exp
    ensures DigitsValue(PadRight(frac, exp)) == Upscale(DigitsValue(frac), exp - |frac|)
    ensures DigitsValue(PadRight(frac, exp)) < Power(10, exp)
  {
    ZeroSuffix(frac, exp - |frac|);
    assert frac + Zeros(0) == frac;
    DigitsValueBelow(PadRight(frac, exp));
  }

  /** With its sides known, the parser computes the scaled value or overflows. */
  lemma ParseScaledOfSides(t: string, whole: string, frac: string, exp: nat)
    requires exp <= 19 && Spells(t, whole, frac, exp)
    ensures ParseScaled(t, exp) ==
            (if Scaled(whole, frac, exp) < U64_BOUND then Some(Scaled(whole, frac, exp)) else None)
  {
    hide Upscale, Power, DigitsValue, SplitOnce;
    SpellsSplit(t, whole, frac, exp);
    PaddedFraction(frac, exp);
    PowerOfTenFitsU64(exp);
    assert PadRight("", exp) == Zeros(exp);
    SmallValues();
    UpscaleGrows(DigitsValue(whole), exp);
    UpscaleZero(exp);
    assert IsDigits(whole) && IsDigits(frac) && |frac| <= exp;
    assert exp == 0 ==> frac == "";
    hide PadRight, Zeros, IsDigits, Spells;
  }

  /** The currency parser accepts exactly the grammar, and returns exactly the value. */
  lemma ParseScaledIff(t: string, exp: nat, v: nat)
    requires exp <= 19 && t != ""
    ensures ParseScaled(t, exp) == Some(v) <==> Denotes(t, exp, v) && v < U64_BOUND
  {
    if Denotes(t, exp, v) {
      var whole, frac :| Spells(t, whole, frac, exp) && v == Scaled(whole, frac, exp);
      ParseScaledOfSides(t, whole, frac, exp);
    }
    if ParseScaled(t, exp) == Some(v) {
      var (w, f) := SplitOnce(t);
      var frac := if f.Some? then f.value else "";
      assert Spells(t, w, frac, exp);
      ParseScaledOfSides(t, w, frac, exp);
    }
  }

  /** `major_string_to_minor` accepts a text exactly when the currency is known and the
      trimmed text is a non-negative decimal of at most exponent fraction digits whose
      scaled value is a u64; it then returns that value. */
  lemma MajorStringToMinorIff(table: CurrencyTable, s: string, currency: string, v: U64)
    ensures MajorStringToMinor(table, s, currency) == Ok(v) <==>
            Exponent(table, currency).Ok? && Denotes(Trim(s), Exponent(table, currency).value, v)
  {
    var t := Trim(s);
    if Exponent(table, currency).Ok? && t != "" {
      var exp := Exponent(table, currency).value;
      ParseScaledIff(t, exp, v);
      if Denotes(t, exp, v) {
        NumeralStart(t, exp, v);
      }
    }
  }

  lemma QuotientRemainder(amount: nat, exp: nat)
    ensures var div := Power(10, exp);
            amount % div < div && amount == Upscale(amount / div, exp) + amount % div
  {
  }

  /** A number below 10^exp, padded to exp digits, keeps its value. */
  lemma PaddedRemainder(r: nat, exp: nat)
    requires 0 < exp && r < Power(10, exp)
    ensures var frac := PadLeft(PrintNat(r), exp); |frac| == exp && IsDigits(frac) && DigitsValue(frac) == r
  {
    hide Power, DigitsValue, PrintNat;
    PrintNatValue(r);
    PrintNatLength(r, exp);
    ZeroPrefix(exp - |PrintNat(r)|, PrintNat(r));
  }

  /** A whole part and a zero-padded fraction denote the amount they were split from. */
  lemma PrintedDenotes(q: nat, r: nat, exp: nat)
    requires 0 < exp && r < Power(10, exp)
    ensures Denotes(PrintNat(q) + "." + PadLeft(PrintNat(r), exp), exp, Upscale(q, exp) + r)
  {
    hide Upscale, Power, DigitsValue, PrintNat;
    var whole, frac := PrintNat(q), PadLeft(PrintNat(r), exp);
    PrintNatValue(q);
    PaddedRemainder(r, exp);
    UpscaleZero(r);
    assert Spells(whole + "." + frac, whole, frac, exp);
  }

  /** Printed money denotes its amount and has no whitespace to trim. */
  lemma PrintScaledDenotes(amount: nat, exp: nat)
    ensures var t := PrintScaled(amount, exp); Denotes(t, exp, amount) && Trim(t) == t
  {
    hide Trim, Denotes, PrintNat, DigitsValue, Power;
    PrintedAmount(amount, exp);
    DenotedIsTrimmed(PrintScaled(amount, exp), exp, amount);
  }

  lemma PrintedAmount(amount: nat, exp: nat)
    ensures Denotes(PrintScaled(amount, exp), exp, amount)
  {
    var t := PrintScaled(amount, exp);
    if exp == 0 {
      PrintNatValue(amount);
      UpscaleZero(amount);
      UpscaleZero(0);
      assert Spells(t, t, "", 0);
    } else {
      hide Denotes, PrintNat, DigitsValue, Power;
      QuotientRemainder(amount, exp);
      PrintedDenotes(amount / Power(10, exp), amount % Power(10, exp), exp);
    }
  }

  /** A whole part without superfluous zeros and, unless the exponent is zero, a point and exactly
      that many fraction digits. */
  predicate MajorForm(t: string, whole: string, frac: string, exp: nat) {
    IsCanonical(whole) && IsDigits(frac) && |frac| == exp && t == if exp == 0 then whole else whole + "." + frac
  }

  /** The printer's output is the one text of that form that denotes the amount. */
  lemma PrintScaledIff(t: string, amount: nat, exp: nat)
    ensures t == PrintScaled(amount, exp) <==>
            (exists whole, frac :: MajorForm(t, whole, frac, exp)) && Denotes(t, exp, amount)
  {
    hide Denotes, PrintNat, DigitsValue, Power;
    PrintedForm(amount, exp);
    PrintScaledDenotes(amount, exp);
    if Denotes(t, exp, amount) && exists whole, frac :: MajorForm(t, whole, frac, exp) {
      var whole, frac :| MajorForm(t, whole, frac, exp);
      FormIsPrinted(t, whole, frac, exp, amount);
    }
  }

  lemma PrintedForm(amount: nat, exp: nat)
    ensures exists whole, frac :: MajorForm(PrintScaled(amount, exp), whole, frac, exp)
  {
    hide PrintNat, DigitsValue, Power;
    if exp == 0 {
      PrintNatCanonical(amount);
      assert MajorForm(PrintScaled(amount, exp), PrintNat(amount), "", exp);
    } else {
      var div := Power(10, exp);
      QuotientRemainder(amount, exp);
      PrintNatCanonical(amount / div);
      PaddedRemainder(amount % div, exp);
      assert MajorForm(PrintScaled(amount, exp), PrintNat(amount / div), PadLeft(PrintNat(amount % div), exp), exp);
    }
  }

  lemma FormIsPrinted(t: string, whole: string, frac: string, exp: nat, amount: nat)
    requires MajorForm(t, whole, frac, exp) && Denotes(t, exp, amount)
    ensures t == PrintScaled(amount, exp)
  {
    hide Denotes, PrintNat, DigitsValue, Power, Upscale;
    CanonicalIsPrinted(whole);
    SpelledValue(t, whole, frac, exp);
    DenotesIsFunctional(t, exp, amount, Upscale(DigitsValue(whole), exp) + DigitsValue(frac));
    DigitsValueBelow(frac);
    if exp == 0 {
      SmallValues();
      UpscaleZero(DigitsValue(whole));
    } else {
      SplitUnique(amount, DigitsValue(whole), DigitsValue(frac), exp);
      PaddedRemainder(DigitsValue(frac), exp);
      WidthFixesDigits(frac, PadLeft(PrintNat(DigitsValue(frac)), exp));
    }
  }

  lemma SpelledValue(t: string, whole: string, frac: string, exp: nat)
    requires MajorForm(t, whole, frac, exp)
    ensures Denotes(t, exp, Upscale(DigitsValue(whole), exp) + DigitsValue(frac))
  {
    hide DigitsValue, Upscale;
    UpscaleZero(DigitsValue(frac));
    assert Spells(t, whole, frac, exp);
  }

  lemma SplitUnique(amount: nat, q: nat, r: nat, exp: nat)
    requires amount == Upscale(q, exp) + r && r < Power(10, exp)
    ensures amount / Power(10, exp) == q && amount % Power(10, exp) == r
  {
    hide Power;
    QuotientRemainder(amount, exp);
    var div := Power(10, exp);
    Radix.QuotientUnique(amount / div, amount % div, q, r, div);
  }

  /** Every amount of every currency in the table survives printing and parsing. */
  lemma MoneyRoundTrip(table: CurrencyTable, amount: U64, currency: string)
    requires Exponent(table, currency).Ok?
    ensures var printed := MinorToMajorString(table, amount, currency);
            printed.Ok? && MajorStringToMinor(table, printed.value, currency) == Ok(amount)
  {
    var exp := Exponent(table, currency).value;
    PrintScaledDenotes(amount, exp);
    MajorStringToMinorIff(table, PrintScaled(amount, exp), currency, amount);
  }

  // ---------------------------------------------------------------- stroops

  const STROOP_DIGITS := 7

  /** What `parse_stroops` is for: a decimal of at most seven fraction digits, other than a lone
      point, worth v stroops, which fit an i64. */
  ghost predicate StroopsDenote(s: string, v: nat) {
    s != "." && Denotes(s, STROOP_DIGITS, v) && v <= I64_MAX
  }

  /** `parse_stroops`, with the i128 bound on every checked step. */
  method ParseStroops(s: string) returns (r: Option<int>)
    ensures r.Some? ==> 0 <= r.value <= I64_MAX
    ensures forall v: nat :: r == Some(v) <==> StroopsDenote(s, v)
  {
    hide Upscale, DigitsValue, Denotes, Power;
    var (w, f) := SplitOnce(s);
    var fracText := if f.Some? then f.value else "";
    if w == "" && fracText == "" {
      EmptySides(s);
      return None;
    }
    if !IsDigits(w) || !IsDigits(fracText) || |fracText| > STROOP_DIGITS {
      RefusedSides(s);
      return None;
    }
    StroopBounds(s, w, fracText);
    ghost var total := Scaled(w, fracText, STROOP_DIGITS);
    hide SplitOnce;
    var whole := if w == "" then Some(0) else ParseUnsigned(w, I128_MAX);
    if whole.None? {
      return None;
    }
    var frac := if fracText == "" then Some(0) else ParseUnsigned(fracText, I128_MAX);
    var units := ScaleFraction(fracText, frac.value);
    assert total == Upscale(whole.value, STROOP_DIGITS) + units;
    var product := Upscale(whole.value, STROOP_DIGITS);
    if product > I128_MAX || product + units > I128_MAX || product + units > I64_MAX {
      return None;
    }
    return Some(product + units);
  }

  /** The loop of `parse_stroops`: scale the fraction up to exactly seven digits. */
  method ScaleFraction(fracText: string, frac: nat) returns (units: nat)
    requires IsDigits(fracText) && |fracText| <= STROOP_DIGITS && frac == DigitsValue(fracText)
    ensures units == Upscale(DigitsValue(fracText), STROOP_DIGITS - |fracText|)
  {
    hide Upscale, DigitsValue;
    units := frac;
    UpscaleZero(units);
    var i := |fracText|;
    while i < STROOP_DIGITS
      invariant |fracText| <= i <= STROOP_DIGITS
      invariant units == Upscale(frac, i - |fracText|)
    {
      UpscaleStep(frac, i - |fracText|);
      units := units * 10;
      i := i + 1;
    }
  }

  lemma EmptySides(s: string)
    requires var (w, f) := SplitOnce(s); w == "" && (f.Some? ==> f.value == "")
    ensures s == "" || s == "."
    ensures forall v: nat :: s != "." ==> !Denotes(s, STROOP_DIGITS, v)
  {
  }

  /** Sides that are not digits, or too many of them, denote nothing. */
  lemma RefusedSides(s: string)
    requires var (w, f) := SplitOnce(s);
             var frac := if f.Some? then f.value else "";
             !IsDigits(w) || !IsDigits(frac) || |frac| > STROOP_DIGITS
    ensures forall v: nat :: !Denotes(s, STROOP_DIGITS, v)
  {
    forall v: nat | Denotes(s, STROOP_DIGITS, v)
      ensures false
    {
      var whole, frac :| Spells(s, whole, frac, STROOP_DIGITS) && v == Scaled(whole, frac, STROOP_DIGITS);
      SpellsSplit(s, whole, frac, STROOP_DIGITS);
    }
  }

  /** The value denoted, and why an i128 overflow can only mean a value out of range. */
  lemma StroopBounds(s: string, whole: string, frac: string)
    requires IsDigits(whole) && IsDigits(frac) && |frac| <= STROOP_DIGITS
    requires whole != "" || frac != ""
    requires var (w, f) := SplitOnce(s); w == whole && frac == if f.Some? then f.value else ""
    ensures s != "."
    ensures forall v: nat :: Denotes(s, STROOP_DIGITS, v) <==> v == Scaled(whole, frac, STROOP_DIGITS)
    ensures DigitsValue(whole) <= Scaled(whole, frac, STROOP_DIGITS)
    ensures DigitsValue(frac) < 10_000_000
    ensures whole == "" ==> DigitsValue(whole) == 0
    ensures frac == "" ==> DigitsValue(frac) == 0
  {
    hide Upscale, DigitsValue, Power;
    assert Spells(s, whole, frac, STROOP_DIGITS);
    assert Denotes(s, STROOP_DIGITS, Scaled(whole, frac, STROOP_DIGITS));
    forall v: nat | Denotes(s, STROOP_DIGITS, v)
      ensures v == Scaled(whole, frac, STROOP_DIGITS)
    {
      DenotesIsFunctional(s, STROOP_DIGITS, v, Scaled(whole, frac, STROOP_DIGITS));
    }
    UpscaleGrows(DigitsValue(whole), STROOP_DIGITS);
    DigitsValueBelow(frac);
    Radix.PowerMonotone(10, |frac|, STROOP_DIGITS);
    SmallValues();
    SplitOnceOfDigits("", "");
    assert "" + "." + "" == ".";
  }

  /** Some checked step of `parse_stroops` leaves the i128 range: reading a side, scaling the
      fraction, scaling the whole part, or adding the two. */
  predicate StepOverflows(whole: string, frac: string)
    requires IsDigits(whole) && IsDigits(frac) && |frac| <= STROOP_DIGITS
  {
    var w, f := DigitsValue(whole), DigitsValue(frac);
    var units := Upscale(f, STROOP_DIGITS - |frac|);
    || w > I128_MAX || f > I128_MAX || units > I128_MAX
    || Upscale(w, STROOP_DIGITS) > I128_MAX || Upscale(w, STROOP_DIGITS) + units > I128_MAX
  }

  /** An overflow of any step is a genuine out-of-range amount: refusing it loses no amount. */
  lemma OverflowIsOutOfRange(s: string, whole: string, frac: string)
    requires IsDigits(whole) && IsDigits(frac) && |frac| <= STROOP_DIGITS
    requires whole != "" || frac != ""
    requires var (w, f) := SplitOnce(s); w == whole && frac == if f.Some? then f.value else ""
    requires StepOverflows(whole, frac)
    ensures forall v: nat :: Denotes(s, STROOP_DIGITS, v) ==> v > I64_MAX
  {
    hide Upscale, DigitsValue, Denotes, SplitOnce;
    StroopBounds(s, whole, frac);
  }

  lemma DenotedIsTrimmed(s: string, exp: nat, v: nat)
    requires Denotes(s, exp, v)
    ensures Trim(s) == s
  {
    NumeralStart(s, exp, v);
    NumeralEnd(s, exp, v);
    hide Denotes, Trim;
    TrimFixed(s);
  }

  lemma NumeralEnd(s: string, exp: nat, v: nat)
    requires Denotes(s, exp, v)
    ensures var last := s[|s| - 1]; last == '.' || '0' <= last <= '9'
  {
    hide Scaled;
    var whole, frac :| Spells(s, whole, frac, exp) && v == Scaled(whole, frac, exp);
    assert s[|s| - 1] == if frac != "" then frac[|frac| - 1] else if s == whole then whole[|whole| - 1] else '.';
  }

  /** Apart from trimming: on a non-empty text the stroop parser accepts v if and only if the currency
      parser's arithmetic does at exponent seven, it is not a lone point, and v fits an i64. */
  lemma StroopsAreScaledIff(s: string, v: nat)
    requires s != ""
    ensures StroopsDenote(s, v) <==> ParseScaled(s, STROOP_DIGITS) == Some(v) && s != "." && v <= I64_MAX
  {
    hide Denotes, ParseScaled;
    ParseScaledIff(s, STROOP_DIGITS, v);
  }

  /** The two parsers read one grammar. For every text, the stroop parser accepts it as v if and only
      if the currency parser does at exponent seven, there is nothing to trim, it is not a lone
      point, and v fits an i64. */
  lemma ParsersAgreeIff(table: CurrencyTable, s: string, currency: string, v: U64)
    requires Exponent(table, currency) == Ok(STROOP_DIGITS)
    ensures StroopsDenote(s, v) <==>
            MajorStringToMinor(table, s, currency) == Ok(v) && Trim(s) == s && s != "." && v <= I64_MAX
  {
    hide Denotes, Exponent, MajorStringToMinor, Trim;
    MajorStringToMinorIff(table, s, currency, v);
    if Denotes(s, STROOP_DIGITS, v) {
      DenotedIsTrimmed(s, STROOP_DIGITS, v);
    }
  }

  /** Each of the three differences occurs: a lone point is zero to one and refused by the other, and
      so is an amount between the two ranges and a text with a space in front. */
  lemma ParsersDiffer(table: CurrencyTable, currency: string)
    requires Exponent(table, currency) == Ok(STROOP_DIGITS)
    ensures MajorStringToMinor(table, ".", currency) == Ok(0) && !StroopsDenote(".", 0)
    ensures var big := PrintScaled(I64_MAX + 1, STROOP_DIGITS);
            MajorStringToMinor(table, big, currency) == Ok(I64_MAX + 1) && forall v: nat :: !StroopsDenote(big, v)
    ensures MajorStringToMinor(table, " 1", currency) == Ok(10_000_000) && forall v: nat :: !StroopsDenote(" 1", v)
  {
    LonePointIsZero(STROOP_DIGITS);
    var big := PrintScaled(I64_MAX + 1, STROOP_DIGITS);
    PrintScaledDenotes(I64_MAX + 1, STROOP_DIGITS);
    assert Trim(".") == "." by {
      TrimFixed(".");
    }
    MajorStringToMinorIff(table, ".", currency, 0);
    MajorStringToMinorIff(table, big, currency, I64_MAX + 1);
    SpacedOne();
    MajorStringToMinorIff(table, " 1", currency, 10_000_000);
    forall v: nat
      ensures !StroopsDenote(big, v) && !StroopsDenote(" 1", v)
    {
      if Denotes(big, STROOP_DIGITS, v) {
        DenotesIsFunctional(big, STROOP_DIGITS, v, I64_MAX + 1);
      }
      if Denotes(" 1", STROOP_DIGITS, v) {
        NumeralStart(" 1", STROOP_DIGITS, v);
        assert false;
      }
    }
  }

  lemma SpacedOne()
    ensures Trim(" 1") == "1" && Denotes("1", STROOP_DIGITS, 10_000_000)
  {
    assert TrimStart(" 1") == "1" by {
      assert " 1"[1..] == "1";
    }
    TrimFixed("1");
    SmallValues();
    assert "1"[..0] == "";
    assert DigitsValue("1") == 1;
    UpscaleZero(STROOP_DIGITS);
    assert Spells("1", "1", "", STROOP_DIGITS);
    assert Scaled("1", "", STROOP_DIGITS) == 10_000_000;
  }

  /** The currency parser reads a lone point as zero. */
  lemma LonePointIsZero(exp: nat)
    requires exp <= 19
    ensures Denotes(".", exp, 0) && ParseScaled(".", exp) == Some(0)
  {
    assert "" + "." + "" == ".";
    assert Spells(".", "", "", exp);
    SmallValues();
    UpscaleZero(exp);
    assert Scaled("", "", exp) == 0;
    ParseScaledIff(".", exp, 0);
  }
}
