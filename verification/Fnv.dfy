/** The 64-bit FNV-1a round behind the mock rail's keyed digest (`patala-core/src/mock.rs`). */
module Fnv {
  import opened Prelude
  import opened Radix

  const OFFSET: U64 := 0xcbf2_9ce4_8422_2325
  const PRIME: nat := 0x0000_0100_0000_01b3

  /** The inverse of the prime modulo 2^64. */
  const INVERSE: nat := 0xce965057aff6957b

  /** Bitwise exclusive or. */
  function Xor(a: nat, b: nat): nat
    decreases a + b
  {
    if a == 0 && b == 0 then 0 else 2 * Xor(a / 2, b / 2) + (a % 2 + b % 2) % 2
  }

  /** Bit by bit, also at zero. */
  lemma XorUnfold(a: nat, b: nat)
    ensures Xor(a, b) / 2 == Xor(a / 2, b / 2) && Xor(a, b) % 2 == (a % 2 + b % 2) % 2
  {
  }

  lemma XorZero()
    ensures Xor(0, 0) == 0
  {
  }

  lemma {:induction false} XorInvolutive(a: nat, b: nat)
    ensures Xor(Xor(a, b), b) == a
    decreases a + b
  {
    hide Xor;
    if a == 0 && b == 0 {
      XorZero();
    } else {
      XorInvolutive(a / 2, b / 2);
      XorUnfold(a, b);
      XorUnfold(Xor(a, b), b);
    }
  }

  lemma {:induction false} XorCommutes(a: nat, b: nat)
    ensures Xor(a, b) == Xor(b, a)
    decreases a + b
  {
    if a != 0 || b != 0 {
      XorCommutes(a / 2, b / 2);
    }
  }

  lemma {:induction false} XorBelow(a: nat, b: nat, bits: nat)
    requires a < Power(2, bits) && b < Power(2, bits)
    ensures Xor(a, b) < Power(2, bits)
    decreases bits
  {
    if bits > 0 && (a != 0 || b != 0) {
      assert Power(2, bits) == 2 * Power(2, bits - 1);
      XorBelow(a / 2, b / 2, bits - 1);
    }
  }

  lemma PowerOf2To64()
    ensures Power(2, 64) == U64_BOUND
  {
    assert Power(2, 7) == 0x80;
    assert Power(2, 14) == 0x4000;
    assert Power(2, 21) == 0x200000;
    assert Power(2, 28) == 0x10000000;
    assert Power(2, 35) == 0x800000000;
    assert Power(2, 42) == 0x40000000000;
    assert Power(2, 49) == 0x2000000000000;
    assert Power(2, 56) == 0x100000000000000;
    assert Power(2, 63) == 0x8000000000000000;
  }

  lemma XorWord(a: U64, b: U64)
    ensures Xor(a, b) < U64_BOUND
  {
    PowerOf2To64();
    XorBelow(a, b, 64);
  }

  /** `wrapping_mul(PRIME)` */
  function MulPrime(x: nat): U64 {
    x * PRIME % U64_BOUND
  }

  /** One byte: xor, then multiply. */
  function Step(h: U64, b: Byte): U64 {
    MulPrime(Xor(h, b))
  }

  function Fold(h: U64, bs: Bytes): U64 {
    if bs == [] then h else Step(Fold(h, bs[..|bs| - 1]), bs[|bs| - 1])
  }

  /** Multiplication by the odd prime is undone by multiplication by its inverse. */
  lemma MulPrimeInverse(x: U64)
    ensures MulPrime(x) * INVERSE % U64_BOUND == x
  {
    var q, r := x * PRIME / U64_BOUND, MulPrime(x);
    assert x * PRIME == q * U64_BOUND + r;
    assert PRIME * INVERSE == 1 + 887285111055 * U64_BOUND;
    var k: int := 887285111055 * x - q * INVERSE;
    assert r * INVERSE == x + k * U64_BOUND;
    var p := r * INVERSE;
    QuotientUnique(p / U64_BOUND, p % U64_BOUND, k, x, U64_BOUND);
  }

  lemma MulPrimeInjective(x: U64, y: U64)
    requires MulPrime(x) == MulPrime(y)
    ensures x == y
  {
    MulPrimeInverse(x);
    MulPrimeInverse(y);
  }

  lemma StepInjectiveInState(g: U64, h: U64, b: Byte)
    requires Step(g, b) == Step(h, b)
    ensures g == h
  {
    hide Xor, MulPrime;
    XorWord(g, b);
    XorWord(h, b);
    MulPrimeInjective(Xor(g, b), Xor(h, b));
    XorInvolutive(g, b);
    XorInvolutive(h, b);
  }

  lemma StepInjectiveInByte(h: U64, a: Byte, b: Byte)
    requires Step(h, a) == Step(h, b)
    ensures a == b
  {
    hide Xor, MulPrime;
    XorWord(h, a);
    XorWord(h, b);
    MulPrimeInjective(Xor(h, a), Xor(h, b));
    XorCommutes(h, a);
    XorCommutes(h, b);
    XorInvolutive(a, h);
    XorInvolutive(b, h);
  }

  lemma {:induction false} TailInjective(g: U64, h: U64, p: Bytes, q: Bytes, tail: Bytes)
    requires Fold(g, p + tail) == Fold(h, q + tail)
    ensures Fold(g, p) == Fold(h, q)
    decreases |tail|
  {
    hide Step;
    if tail == [] {
      assert p + tail == p && q + tail == q;
    } else {
      var front, last := tail[..|tail| - 1], tail[|tail| - 1];
      assert (p + tail)[..|p + tail| - 1] == p + front;
      assert (q + tail)[..|q + tail| - 1] == q + front;
      StepInjectiveInState(Fold(g, p + front), Fold(h, q + front), last);
      TailInjective(g, h, p, q, front);
    }
  }

  /** Changing exactly one byte of the input always changes the result. */
  lemma OneByteChangesFold(h: U64, p: Bytes, a: Byte, b: Byte, tail: Bytes)
    requires a != b
    ensures Fold(h, p + [a] + tail) != Fold(h, p + [b] + tail)
  {
    hide Step;
    if Fold(h, p + [a] + tail) == Fold(h, p + [b] + tail) {
      TailInjective(h, h, p + [a], p + [b], tail);
      assert (p + [a])[..|p|] == p && (p + [b])[..|p|] == p;
      StepInjectiveInByte(Fold(h, p), a, b);
      assert false;
    }
  }

  lemma {:induction false} FoldConcat(h: U64, p: Bytes, q: Bytes)
    ensures Fold(h, p + q) == Fold(Fold(h, p), q)
  {
    hide Step;
    if q == [] {
      assert p + q == p;
    } else {
      FoldConcat(h, p, q[..|q| - 1]);
      assert (p + q)[..|p + q| - 1] == p + q[..|q| - 1];
    }
  }

  lemma FoldSnoc(h: U64, bs: Bytes, b: Byte)
    ensures Fold(h, bs + [b]) == Step(Fold(h, bs), b)
  {
    hide Step;
    assert (bs + [b])[..|bs|] == bs;
  }

  /** `fnv1a_round`, over the key and then the message. */
  method Round(salt: Byte, key: Bytes, msg: Bytes) returns (h: U64)
    ensures h == RoundOf(salt, key, msg)
  {
    hide Step, Xor, Fold;
    XorWord(OFFSET, salt);
    h := Xor(OFFSET, salt);
    ghost var start := h;
    FoldEmpty(start);
    var input := key + msg;
    var i := 0;
    while i < |input|
      invariant 0 <= i <= |input|
      invariant h == Fold(start, input[..i])
    {
      assert input[..i + 1] == input[..i] + [input[i]];
      FoldSnoc(start, input[..i], input[i]);
      h := Step(h, input[i]);
      i := i + 1;
    }
    assert input[..i] == input;
  }

  lemma FoldEmpty(h: U64)
    ensures Fold(h, []) == h
  {
  }

  function StartState(salt: Byte): U64 {
    XorWord(OFFSET, salt);
    Xor(OFFSET, salt)
  }

  function RoundOf(salt: Byte, key: Bytes, msg: Bytes): U64 {
    Fold(StartState(salt), key + msg)
  }

  // ------------------------------------------------------------ what a round is made of

  lemma XorDigit(a: nat, b: nat)
    ensures Xor(a, b) == 2 * Xor(a / 2, b / 2) + (a % 2 + b % 2) % 2
  {
  }

  lemma {:induction false} XorWithZero(a: nat)
    ensures Xor(a, 0) == a
    decreases a
  {
    if a > 0 {
      XorWithZero(a / 2);
      XorDigit(a, 0);
    }
  }

  /** The four rounds start from the offset basis with the round number xored in. */
  lemma StartStates()
    ensures StartState(0) == 0xcbf2_9ce4_8422_2325 && StartState(1) == 0xcbf2_9ce4_8422_2324
    ensures StartState(2) == 0xcbf2_9ce4_8422_2327 && StartState(3) == 0xcbf2_9ce4_8422_2326
  {
    hide Xor;
    XorWithZero(0xcbf29ce484222325);
    XorDigit(0xcbf29ce484222325, 0x1);
    XorWithZero(0x65f94e7242111192);
    XorDigit(0xcbf29ce484222325, 0x2);
    XorDigit(0x65f94e7242111192, 0x1);
    XorWithZero(0x32fca739210888c9);
    XorDigit(0xcbf29ce484222325, 0x3);
    XorDigit(0x65f94e7242111192, 0x1);
    XorWithZero(0x32fca739210888c9);
  }

  /** A round feeds the key and then the message: the message is folded from where the key ended. */
  lemma KeyThenMessage(salt: Byte, key: Bytes, msg: Bytes)
    ensures RoundOf(salt, key, msg) == Fold(RoundOf(salt, key, []), msg)
  {
    hide Fold, StartState;
    FoldConcat(StartState(salt), key, msg);
    assert key + [] == key;
  }

  /** Changing exactly one byte of the key always changes the round. */
  lemma KeyByteChangesRound(salt: Byte, p: Bytes, a: Byte, b: Byte, tail: Bytes, msg: Bytes)
    requires a != b
    ensures RoundOf(salt, p + [a] + tail, msg) != RoundOf(salt, p + [b] + tail, msg)
  {
    hide Fold, StartState;
    OneByteChangesFold(StartState(salt), p, a, b, tail + msg);
    assert p + [a] + tail + msg == p + [a] + (tail + msg);
    assert p + [b] + tail + msg == p + [b] + (tail + msg);
  }

  /** Rounds of one input from different starts never meet. */
  lemma SaltsSeparate(r: Byte, s: Byte, key: Bytes, msg: Bytes)
    requires r < 4 && s < 4 && r != s
    ensures RoundOf(r, key, msg) != RoundOf(s, key, msg)
  {
    StartStates();
    assert r == 0 || r == 1 || r == 2 || r == 3;
    assert s == 0 || s == 1 || s == 2 || s == 3;
    assert StartState(r) != StartState(s);
    hide Fold, StartState;
    if RoundOf(r, key, msg) == RoundOf(s, key, msg) {
      var empty: Bytes := [];
      assert empty + (key + msg) == key + msg;
      TailInjective(StartState(r), StartState(s), empty, empty, key + msg);
      FoldEmpty(StartState(r));
      FoldEmpty(StartState(s));
      assert false;
    }
  }

  /** FNV-1a of "a" and of "ab", the published values, the second with key "a" and message "b". */
  lemma PublishedValues()
    ensures RoundOf(0, [], [0x61]) == 0xaf63_dc4c_8601_ec8c
    ensures RoundOf(0, [0x61], [0x62]) == 0x089c_4407_b545_986a
  {
    StartStates();
    XorWithA();
    XorWithB();
    hide Xor, StartState;
    var empty, a: Bytes := [], [0x61];
    assert empty + a == a && a + empty == a && empty + [0x61] == a;
    FoldEmpty(StartState(0));
    FoldSnoc(StartState(0), [], 0x61);
    FoldSnoc(StartState(0), a, 0x62);
  }

  lemma XorWithA()
    ensures Xor(0xcbf29ce484222325, 0x61) == 0xcbf29ce484222344
  {
    hide Xor;
    XorDigit(0xcbf29ce484222325, 0x61);
    XorDigit(0x65f94e7242111192, 0x30);
    XorDigit(0x32fca739210888c9, 0x18);
    XorDigit(0x197e539c90844464, 0xc);
    XorDigit(0xcbf29ce48422232, 0x6);
    XorDigit(0x65f94e724211119, 0x3);
    XorDigit(0x32fca739210888c, 0x1);
    XorWithZero(0x197e539c9084446);
  }

  lemma XorWithB()
    ensures Xor(0xaf63dc4c8601ec8c, 0x62) == 0xaf63dc4c8601ecee
  {
    hide Xor;
    XorDigit(0xaf63dc4c8601ec8c, 0x62);
    XorDigit(0x57b1ee264300f646, 0x31);
    XorDigit(0x2bd8f71321807b23, 0x18);
    XorDigit(0x15ec7b8990c03d91, 0xc);
    XorDigit(0xaf63dc4c8601ec8, 0x6);
    XorDigit(0x57b1ee264300f64, 0x3);
    XorDigit(0x2bd8f71321807b2, 0x1);
    XorWithZero(0x15ec7b8990c03d9);
  }
}
