/** Positional numerals in an arbitrary base, and the change of base that keeps
    the count of leading zeros. Base58 is this change of base between 256 and 58. */
module Radix {
  import opened Prelude

  /** Every digit is below the base. */
  ghost predicate Digital(ds: seq<nat>, base: nat) {
    forall i :: 0 <= i < |ds| ==> ds[i] < base
  }

  /** One Horner step: shift a value left by a digit. */
  function Shift(high: nat, base: nat, d: nat): nat {
    high * base + d
  }

  /** Big-endian value. */
  function Value(ds: seq<nat>, base: nat): nat {
    if ds == [] then 0 else Shift(Value(ds[..|ds| - 1], base), base, ds[|ds| - 1])
  }

  /** Big-endian digits with no leading zero; zero has none at all. */
  function Digits(n: nat, base: nat): (ds: seq<nat>)
    requires base >= 2
    ensures Digital(ds, base)
    decreases n
  {
    if n == 0 then [] else
    assert n / base < n by { QuotientIsSmaller(n, base); }
    Digits(n / base, base) + [n % base]
  }

  function LeadingZeros(ds: seq<nat>): (z: nat)
    ensures z <= |ds|
  {
    if ds == [] || ds[0] != 0 then 0 else 1 + LeadingZeros(ds[1..])
  }

  function Zeros(z: nat): (ds: seq<nat>)
    ensures |ds| == z && forall i :: 0 <= i < z ==> ds[i] == 0
  {
    seq(z, i => 0)
  }

  /** Rewrite a numeral in another base, one leading zero for each leading zero. */
  function ChangeBase(ds: seq<nat>, source: nat, target: nat): (es: seq<nat>)
    requires target >= 2
    ensures Digital(es, target)
  {
    Zeros(LeadingZeros(ds)) + Digits(Value(ds, source), target)
  }

  lemma QuotientIsSmaller(n: nat, base: nat)
    requires n > 0 && base >= 2
    ensures n / base < n
  {
    var q := n / base;
    assert n == q * base + n % base;
    ProductMonotone(2, base, q);
    assert 2 * q <= n;
  }

  lemma ProductMonotone(a: nat, b: nat, c: nat)
    requires a <= b
    ensures a * c <= b * c
  {
  }

  lemma ProductSign(d: int, base: int)
    requires base >= 0
    ensures d >= 1 ==> d * base >= base
    ensures d <= -1 ==> d * base <= -base
  {
  }

  lemma QuotientUnique(p: int, r: int, q: int, s: int, base: int)
    requires 0 <= r < base && 0 <= s < base && p * base + r == q * base + s
    ensures p == q && r == s
  {
    ProductSign(p - q, base);
    assert (p - q) * base == s - r;
  }

  /** Division recovers the high part and the last digit. */
  lemma SplitLastDigit(high: nat, d: nat, base: nat)
    requires d < base
    ensures var n := Shift(high, base, d); n / base == high && n % base == d
  {
    var n := Shift(high, base, d);
    assert n == n / base * base + n % base;
    QuotientUnique(high, d, n / base, n % base, base);
  }

  lemma JoinLastDigit(n: nat, base: nat)
    requires base >= 1
    ensures Shift(n / base, base, n % base) == n
  {
  }

  lemma ShiftPositive(high: nat, base: nat, d: nat)
    requires base >= 1
    ensures high > 0 || d > 0 ==> Shift(high, base, d) > 0
    ensures high == 0 ==> Shift(high, base, d) == d
  {
  }

  /** A value below a power stays below the next power after one more digit. */
  lemma ShiftBelow(high: nat, base: nat, d: nat, e: nat)
    requires d < base && high < Power(base, e)
    ensures Shift(high, base, d) < Power(base, e + 1)
  {
    var p := Power(base, e);
    ProductMonotone(high + 1, p, base);
    assert Power(base, e + 1) == base * p;
  }

  lemma ShiftAtLeast(high: nat, base: nat, d: nat, e: nat)
    requires Power(base, e) <= high
    ensures Power(base, e + 1) <= Shift(high, base, d)
  {
    var p := Power(base, e);
    ProductMonotone(p, high, base);
    assert Power(base, e + 1) == base * p;
  }

  /** A number is the value of its digits. */
  lemma {:induction false} ValueOfDigits(n: nat, base: nat)
    requires base >= 2
    ensures Value(Digits(n, base), base) == n
    decreases n
  {
    if n > 0 {
      hide Shift;
      var q, r := n / base, n % base;
      QuotientIsSmaller(n, base);
      JoinLastDigit(n, base);
      ValueOfDigits(q, base);
      var ds := Digits(n, base);
      assert ds[..|ds| - 1] == Digits(q, base) && ds[|ds| - 1] == r;
    }
  }

  /** A numeral without a leading zero is the digits of its value. */
  lemma {:induction false} DigitsOfValue(ds: seq<nat>, base: nat)
    requires base >= 2 && Digital(ds, base)
    requires ds != [] ==> ds[0] != 0
    ensures Digits(Value(ds, base), base) == ds
    ensures ds != [] ==> Value(ds, base) > 0
  {
    if ds != [] {
      hide Shift;
      var front, last := ds[..|ds| - 1], ds[|ds| - 1];
      DigitsOfValue(front, base);
      SplitLastDigit(Value(front, base), last, base);
      ShiftPositive(Value(front, base), base, last);
      assert front + [last] == ds;
    }
  }

  lemma {:induction false} ZerosAreWorthless(z: nat, ds: seq<nat>, base: nat)
    requires base >= 1
    ensures Value(Zeros(z) + ds, base) == Value(ds, base)
    decreases z + |ds|
  {
    hide Shift;
    var all := Zeros(z) + ds;
    if ds != [] {
      ZerosAreWorthless(z, ds[..|ds| - 1], base);
      assert all[..|all| - 1] == Zeros(z) + ds[..|ds| - 1];
    } else if z > 0 {
      ZerosAreWorthless(z - 1, [], base);
      assert all[..|all| - 1] == Zeros(z - 1) + [];
      assert all[|all| - 1] == 0;
      ShiftPositive(0, base, 0);
    }
  }

  lemma {:induction false} LeadingZerosAre(ds: seq<nat>)
    ensures forall i :: 0 <= i < LeadingZeros(ds) ==> ds[i] == 0
    ensures LeadingZeros(ds) < |ds| ==> ds[LeadingZeros(ds)] != 0
  {
    if ds != [] && ds[0] == 0 {
      var rest := ds[1..];
      LeadingZerosAre(rest);
      assert LeadingZeros(ds) == 1 + LeadingZeros(rest);
      hide LeadingZeros;
      assert forall i :: 0 < i < |ds| ==> ds[i] == rest[i - 1];
    }
  }

  lemma ZerosFill(s: seq<nat>)
    requires forall i :: 0 <= i < |s| ==> s[i] == 0
    ensures s == Zeros(|s|)
  {
  }

  lemma SplitAt(ds: seq<nat>, z: nat)
    requires z <= |ds|
    ensures ds == ds[..z] + ds[z..]
  {
  }

  lemma LeadingZerosSplit(ds: seq<nat>)
    ensures var z := LeadingZeros(ds);
            ds == Zeros(z) + ds[z..] && (z < |ds| ==> ds[z] != 0)
  {
    hide LeadingZeros, Zeros, Value, Digits;
    var z := LeadingZeros(ds);
    LeadingZerosAre(ds);
    ZerosFill(ds[..z]);
    SplitAt(ds, z);
  }

  lemma {:induction false} LeadingZerosOf(z: nat, ds: seq<nat>)
    requires ds != [] ==> ds[0] != 0
    ensures LeadingZeros(Zeros(z) + ds) == z
  {
    var all := Zeros(z) + ds;
    if z > 0 {
      LeadingZerosOf(z - 1, ds);
      assert all[1..] == Zeros(z - 1) + ds;
    } else {
      assert all == ds;
    }
  }

  lemma {:induction false} DigitsHaveNoLeadingZero(n: nat, base: nat)
    requires base >= 2
    ensures n > 0 ==> Digits(n, base) != [] && Digits(n, base)[0] != 0
    decreases n
  {
    if n > 0 {
      QuotientIsSmaller(n, base);
      DigitsHaveNoLeadingZero(n / base, base);
      JoinLastDigit(n, base);
      ShiftPositive(n / base, base, n % base);
      assert n / base == 0 ==> Digits(n, base) == [n % base];
    }
  }

  /** Changing base and changing back is the identity on every numeral. */
  lemma ChangeBaseRoundTrip(ds: seq<nat>, source: nat, target: nat)
    requires source >= 2 && target >= 2 && Digital(ds, source)
    ensures ChangeBase(ChangeBase(ds, source, target), target, source) == ds
  {
    hide Shift;
    var z, n := LeadingZeros(ds), Value(ds, source);
    var tail := ds[z..];
    LeadingZerosSplit(ds);
    ZerosAreWorthless(z, tail, source);
    DigitsOfValue(tail, source);
    assert Digits(n, source) == tail;

    var es := Digits(n, target);
    DigitsHaveNoLeadingZero(n, target);
    LeadingZerosOf(z, es);
    ZerosAreWorthless(z, es, target);
    ValueOfDigits(n, target);
  }

  /** A numeral of k digits is below base^k. */
  lemma {:induction false} ValueBelowPower(ds: seq<nat>, base: nat)
    requires Digital(ds, base)
    ensures Value(ds, base) < Power(base, |ds|)
  {
    if ds != [] {
      hide Shift;
      var front := ds[..|ds| - 1];
      ValueBelowPower(front, base);
      ShiftBelow(Value(front, base), base, ds[|ds| - 1], |front|);
    }
  }

  /** A numeral of k digits with a nonzero first digit is at least base^(k-1). */
  lemma {:induction false} ValueAtLeastPower(ds: seq<nat>, base: nat)
    requires base >= 1 && ds != [] && ds[0] != 0
    ensures Power(base, |ds| - 1) <= Value(ds, base)
  {
    hide Shift;
    var front, last := ds[..|ds| - 1], ds[|ds| - 1];
    if front != [] {
      ValueAtLeastPower(front, base);
      ShiftAtLeast(Value(front, base), base, last, |front| - 1);
    } else {
      ShiftPositive(0, base, last);
      assert Power(base, 0) == 1;
    }
  }

  lemma {:induction false} PowerMonotone(base: nat, d: nat, e: nat)
    requires base >= 1 && d <= e
    ensures Power(base, d) <= Power(base, e)
    decreases e
  {
    if d < e {
      PowerMonotone(base, d, e - 1);
      ProductMonotone(1, base, Power(base, e - 1));
    }
  }

  /** Byte `i` of a little-endian number is its base-256 digit of weight 256^i. */
  lemma {:induction false} LittleEndianAt(n: nat, width: nat, i: nat)
    requires i < width
    ensures LittleEndian(n, width)[i] == n / Power(256, i) % 256
    decreases width
  {
    if i > 0 {
      LittleEndianAt(n / 256, width - 1, i - 1);
      DivideTwice(n, 256, Power(256, i - 1));
    }
  }

  lemma DivideTwice(n: nat, a: nat, b: nat)
    requires a > 0 && b > 0
    ensures a * b > 0 && n / a / b == n / (a * b)
  {
    assert a * b > 0;
    var q, r := n / a / b, n / a % b;
    assert n == (q * b + r) * a + n % a;
    assert q * (a * b) == (q * b) * a;
    var s := r * a + n % a;
    assert 0 <= s < a * b by {
      assert r * a <= (b - 1) * a;
      assert (b - 1) * a == a * b - a;
    }
    assert n == q * (a * b) + s;
    assert n == n / (a * b) * (a * b) + n % (a * b);
    QuotientUnique(q, s, n / (a * b), n % (a * b), a * b);
  }
}
