/** CRC16-XMODEM: polynomial x^16 + x^12 + x^5 + 1, initial value zero, no reflection. */
module Crc16 {

  /** Addition of registers over GF(2), named so that proofs can treat it as a black box. */
  function Xor(c: bv16, d: bv16): bv16 {
    c ^ d
  }

  function Double(c: bv16): bv16 {
    c + c
  }

  predicate Top(c: bv16) {
    c & 0x8000 != 0
  }

  /** One bit through the register: shift left by one, reduce if a bit fell out. */
  function Shift1(c: bv16): bv16 {
    if Top(c) then Xor(Double(c), 0x1021) else Double(c)
  }

  /** A byte in the high half of the register. */
  function High(b: bv8): bv16 {
    (b as bv16) * 0x100
  }

  function Low(b: bv8): bv16 {
    b as bv16
  }

  function Shift8(c: bv16): bv16 {
    Shift1(Shift1(Shift1(Shift1(Shift1(Shift1(Shift1(Shift1(c))))))))
  }

  /** One byte through the register. */
  function Feed(c: bv16, b: bv8): bv16 {
    Shift8(Xor(c, High(b)))
  }

  function Crc(bs: seq<bv8>): bv16 {
    if bs == [] then 0 else Feed(Crc(bs[..|bs| - 1]), bs[|bs| - 1])
  }

  lemma DoubleOfXor(c: bv16, d: bv16)
    ensures Double(Xor(c, d)) == Xor(Double(c), Double(d))
  {
  }

  lemma TopOfXor(c: bv16, d: bv16)
    ensures Top(Xor(c, d)) <==> Top(c) != Top(d)
  {
  }

  lemma XorCommutes(c: bv16, d: bv16)
    ensures Xor(c, d) == Xor(d, c)
  {
  }

  lemma XorSelf(c: bv16)
    ensures Xor(c, c) == 0 && Xor(c, 0) == c && Xor(0, c) == c
  {
  }

  lemma XorRegroups(c: bv16, d: bv16, p: bv16)
    ensures (c ^ d) ^ p == c ^ (d ^ p)
  {
  }

  lemma XorIs(c: bv16, d: bv16)
    ensures Xor(c, d) == c ^ d
  {
  }

  lemma XorOfXor(a: bv16, b: bv16, c: bv16)
    ensures Xor(Xor(a, b), c) == (a ^ b) ^ c
  {
    hide Xor;
    XorIs(a, b);
    XorIs(a ^ b, c);
  }

  lemma XorIntoXor(a: bv16, b: bv16, c: bv16)
    ensures Xor(a, Xor(b, c)) == a ^ (b ^ c)
  {
    hide Xor;
    XorIs(b, c);
    XorIs(a, b ^ c);
  }

  lemma XorAssociates(a: bv16, b: bv16, c: bv16)
    ensures Xor(Xor(a, b), c) == Xor(a, Xor(b, c))
  {
    hide Xor;
    XorOfXor(a, b, c);
    XorIntoXor(a, b, c);
    XorRegroups(a, b, c);
  }

  lemma XorSwaps(c: bv16, d: bv16, p: bv16)
    ensures Xor(Xor(c, p), d) == Xor(Xor(c, d), p)
  {
    hide Xor;
    XorAssociates(c, p, d);
    XorAssociates(c, d, p);
    XorCommutes(d, p);
  }

  /** A term that both sides carry drops out of their difference. */
  lemma XorDifference(c: bv16, x: bv16, y: bv16)
    ensures Xor(Xor(c, x), Xor(c, y)) == Xor(x, y)
  {
    hide Xor;
    XorCommutes(c, x);
    XorAssociates(x, c, Xor(c, y));
    XorAssociates(c, c, y);
    XorSelf(c);
    XorSelf(y);
  }

  lemma XorZero(c: bv16, d: bv16)
    ensures Xor(c, d) == 0 <==> c == d
  {
    hide Xor;
    XorSelf(c);
    XorSelf(d);
    XorAssociates(c, d, d);
  }

  lemma Shift1OfXor(c: bv16, d: bv16)
    ensures Shift1(Xor(c, d)) == Xor(Shift1(c), Shift1(d))
  {
    hide Xor, Double, Top;
    TopOfXor(c, d);
    DoubleOfXor(c, d);
    var x, y := Double(c), Double(d);
    if Top(c) && Top(d) {
      XorCommutes(x, 0x1021);
      XorCommutes(y, 0x1021);
      XorDifference(0x1021, x, y);
    } else if Top(c) {
      XorSwaps(x, y, 0x1021);
    } else if Top(d) {
      XorAssociates(x, y, 0x1021);
    }
  }

  lemma Shift8Linear(c: bv16, d: bv16)
    ensures Shift8(Xor(c, d)) == Xor(Shift8(c), Shift8(d))
  {
    hide Shift1, Xor;
    var c1, d1 := Shift1(c), Shift1(d);
    var c2, d2 := Shift1(c1), Shift1(d1);
    var c3, d3 := Shift1(c2), Shift1(d2);
    var c4, d4 := Shift1(c3), Shift1(d3);
    var c5, d5 := Shift1(c4), Shift1(d4);
    var c6, d6 := Shift1(c5), Shift1(d5);
    var c7, d7 := Shift1(c6), Shift1(d6);
    Shift1OfXor(c, d);
    Shift1OfXor(c1, d1);
    Shift1OfXor(c2, d2);
    Shift1OfXor(c3, d3);
    Shift1OfXor(c4, d4);
    Shift1OfXor(c5, d5);
    Shift1OfXor(c6, d6);
    Shift1OfXor(c7, d7);
  }

  /** No nonzero register shifts to zero: the polynomial's constant term puts back the bit. */
  lemma Shift1Kernel(c: bv16)
    ensures Shift1(c) == 0 ==> c == 0
  {
  }

  lemma Shift8Kernel(c: bv16)
    ensures Shift8(c) == 0 ==> c == 0
  {
    hide Shift1;
    var c1 := Shift1(c);
    var c2 := Shift1(c1);
    var c3 := Shift1(c2);
    var c4 := Shift1(c3);
    var c5 := Shift1(c4);
    var c6 := Shift1(c5);
    var c7 := Shift1(c6);
    Shift1Kernel(c);
    Shift1Kernel(c1);
    Shift1Kernel(c2);
    Shift1Kernel(c3);
    Shift1Kernel(c4);
    Shift1Kernel(c5);
    Shift1Kernel(c6);
    Shift1Kernel(c7);
  }

  lemma Shift8Injective(c: bv16, d: bv16)
    ensures Shift8(c) == Shift8(d) ==> c == d
  {
    hide Shift8, Xor;
    Shift8Linear(c, d);
    Shift8Kernel(Xor(c, d));
    XorZero(c, d);
    XorZero(Shift8(c), Shift8(d));
  }

  /** Bits in the low byte reach the top without a reduction. */
  lemma LowByteRises(b: bv8)
    ensures Shift8(Low(b)) == High(b)
  {
  }

  lemma XorCancel(c: bv16, d: bv16, e: bv16)
    ensures Xor(c, e) == Xor(d, e) ==> c == d
    ensures Xor(e, c) == Xor(e, d) ==> c == d
  {
  }

  lemma FeedShifts(c: bv16, b: bv8)
    ensures Feed(c, b) == Shift8(Xor(c, High(b)))
  {
    hide Shift8, High;
  }

  lemma ShiftedStateInjective(c: bv16, d: bv16, h: bv16)
    requires Shift8(Xor(c, h)) == Shift8(Xor(d, h))
    ensures c == d
  {
    hide Shift8, Xor;
    Shift8Injective(Xor(c, h), Xor(d, h));
    XorCancel(c, d, h);
  }

  /** The register before a byte is determined by the register after it. */
  lemma FeedInjectiveInState(c: bv16, d: bv16, b: bv8)
    requires Feed(c, b) == Feed(d, b)
    ensures c == d
  {
    hide Shift8, High, Feed, Xor;
    FeedShifts(c, b);
    FeedShifts(d, b);
    ShiftedStateInjective(c, d, High(b));
  }

  function Pack(a0: bv8, a1: bv8): bv16 {
    Xor(High(a0), Low(a1))
  }

  /** Feeding two bytes is shifting their 16 bits through: no two pairs agree. */
  lemma FeedPairInjective(c: bv16, a0: bv8, a1: bv8, b0: bv8, b1: bv8)
    requires Feed(Feed(c, a0), a1) == Feed(Feed(c, b0), b1)
    ensures a0 == b0 && a1 == b1
  {
    hide Shift8, High, Feed, Pack, Xor;
    FeedPair(c, a0, a1);
    FeedPair(c, b0, b1);
    ShiftedInputInjective(c, Pack(a0, a1), Pack(b0, b1));
    PackInjective(a0, a1, b0, b1);
  }

  lemma ShiftedInputInjective(c: bv16, x: bv16, y: bv16)
    requires Shift8(Shift8(Xor(c, x))) == Shift8(Shift8(Xor(c, y)))
    ensures x == y
  {
    hide Shift8, Xor;
    Shift8Injective(Shift8(Xor(c, x)), Shift8(Xor(c, y)));
    Shift8Injective(Xor(c, x), Xor(c, y));
    XorCancel(x, y, c);
  }

  lemma FeedPair(c: bv16, a0: bv8, a1: bv8)
    ensures Feed(Feed(c, a0), a1) == Shift8(Shift8(Xor(c, Pack(a0, a1))))
  {
    hide Shift8, High, Low, Feed, Pack, Xor;
    FeedShifts(c, a0);
    FeedShifts(Feed(c, a0), a1);
    LowByteRises(a1);
    Shift8Linear(Xor(c, High(a0)), Low(a1));
    PackAssociates(c, a0, a1);
  }

  lemma PackAssociates(c: bv16, a0: bv8, a1: bv8)
    ensures Xor(Xor(c, High(a0)), Low(a1)) == Xor(c, Pack(a0, a1))
  {
    hide High, Low, Xor;
    XorAssociates(c, High(a0), Low(a1));
  }

  lemma PackInjective(a0: bv8, a1: bv8, b0: bv8, b1: bv8)
    ensures Pack(a0, a1) == Pack(b0, b1) ==> a0 == b0 && a1 == b1
  {
  }

  /** Equal tails carry a difference through: CRCs that agree at the end agreed before. */
  lemma {:induction false} TailInjective(a: seq<bv8>, b: seq<bv8>, tail: seq<bv8>)
    requires Crc(a + tail) == Crc(b + tail)
    ensures Crc(a) == Crc(b)
    decreases |tail|
  {
    hide Feed;
    if tail == [] {
      assert a + tail == a && b + tail == b;
    } else {
      var front, last := tail[..|tail| - 1], tail[|tail| - 1];
      assert (a + tail)[..|a + tail| - 1] == a + front;
      assert (b + tail)[..|b + tail| - 1] == b + front;
      FeedInjectiveInState(Crc(a + front), Crc(b + front), last);
      TailInjective(a, b, front);
    }
  }

  lemma CrcAppend(p: seq<bv8>, x: bv8)
    ensures Crc(p + [x]) == Feed(Crc(p), x)
  {
    hide Feed;
    assert (p + [x])[..|p|] == p;
  }

  lemma CrcAppendPair(p: seq<bv8>, x: bv8, y: bv8)
    ensures Crc(p + [x, y]) == Feed(Feed(Crc(p), x), y)
  {
    hide Feed, Crc;
    CrcAppend(p, x);
    CrcAppend(p + [x], y);
    assert (p + [x]) + [y] == p + [x, y];
  }

  /** No change confined to two adjacent bytes preserves the CRC: every burst of at most 9
      bits, wherever it falls, and every burst of at most 16 that is byte-aligned. */
  lemma PairChangeDetected(p: seq<bv8>, a0: bv8, a1: bv8, b0: bv8, b1: bv8, tail: seq<bv8>)
    requires a0 != b0 || a1 != b1
    ensures Crc(p + [a0, a1] + tail) != Crc(p + [b0, b1] + tail)
  {
    hide Feed;
    if Crc(p + [a0, a1] + tail) == Crc(p + [b0, b1] + tail) {
      TailInjective(p + [a0, a1], p + [b0, b1], tail);
      CrcAppendPair(p, a0, a1);
      CrcAppendPair(p, b0, b1);
      FeedPairInjective(Crc(p), a0, a1, b0, b1);
      assert false;
    }
  }

  // ------------------------------------------------------------ differences

  /** The bits in which two bytes differ. */
  function Difference(a: bv8, b: bv8): bv8 {
    a ^ b
  }

  lemma NoDifference(a: bv8, b: bv8)
    ensures Difference(a, b) == 0 <==> a == b
  {
  }

  lemma HighDifference(a: bv8, b: bv8)
    ensures High(Difference(a, b)) == Xor(High(a), High(b))
  {
  }

  lemma LowDifference(a: bv8, b: bv8)
    ensures Low(Difference(a, b)) == Xor(Low(a), Low(b))
  {
  }

  lemma PackDifference(a0: bv8, a1: bv8, b0: bv8, b1: bv8)
    ensures Xor(Pack(a0, a1), Pack(b0, b1)) == Pack(Difference(a0, b0), Difference(a1, b1))
  {
    hide Xor, High, Low, Difference;
    HighDifference(a0, b0);
    LowDifference(a1, b1);
    XorOfSums(High(a0), Low(a1), High(b0), Low(b1));
  }

  lemma XorOfSums(a: bv16, b: bv16, c: bv16, d: bv16)
    ensures Xor(Xor(a, b), Xor(c, d)) == Xor(Xor(a, c), Xor(b, d))
  {
    hide Xor;
    XorAssociates(Xor(a, b), c, d);
    XorSwaps(a, c, b);
    XorAssociates(Xor(a, c), b, d);
  }

  /** How far apart two registers are after one different byte. */
  lemma FeedDifference(c: bv16, a: bv8, b: bv8)
    ensures Xor(Feed(c, a), Feed(c, b)) == Shift8(High(Difference(a, b)))
  {
    hide Shift8, High, Feed, Xor, Difference;
    FeedShifts(c, a);
    FeedShifts(c, b);
    Shift8Linear(Xor(c, High(a)), Xor(c, High(b)));
    HighDifference(a, b);
    XorDifference(c, High(a), High(b));
  }

  /** And after two. */
  lemma FeedPairDifference(c: bv16, a0: bv8, a1: bv8, b0: bv8, b1: bv8)
    ensures Xor(Feed(Feed(c, a0), a1), Feed(Feed(c, b0), b1)) ==
            Shift8(Shift8(Pack(Difference(a0, b0), Difference(a1, b1))))
  {
    hide Shift8, Feed, Xor, Difference, Pack;
    FeedPair(c, a0, a1);
    FeedPair(c, b0, b1);
    var x, y := Xor(c, Pack(a0, a1)), Xor(c, Pack(b0, b1));
    Shift8Linear(Shift8(x), Shift8(y));
    Shift8Linear(x, y);
    XorDifference(c, Pack(a0, a1), Pack(b0, b1));
    PackDifference(a0, a1, b0, b1);
  }

  predicate LowBitOnly(d: bv8) {
    d & 0xFE == 0
  }

  predicate TopBitOnly(d: bv8) {
    d & 0x7F == 0
  }

  predicate LowNibbleOnly(d: bv8) {
    d & 0xF0 == 0
  }

  lemma Shift8OfPack(d0: bv8, d1: bv8)
    ensures Shift8(Pack(d0, d1)) == Xor(Shift8(High(d0)), High(d1))
  {
    hide Shift8, High, Low, Xor;
    Shift8Linear(High(d0), Low(d1));
    LowByteRises(d1);
  }

  lemma LowBitImage(d: bv8)
    requires LowBitOnly(d)
    ensures Shift8(High(d)) == if d == 0 then 0 else 0x1021
  {
  }

  lemma LowBitKernel(d1: bv8, d2: bv8)
    requires TopBitOnly(d2)
    ensures Xor(0x1021, High(d1)) != Low(d2)
    ensures High(d1) == Low(d2) ==> d1 == 0 && d2 == 0
  {
  }

  /** A burst from the last bit of one byte to the first bit of the byte after next never lands on
      the register that the last bit alone would need. */
  lemma StraddleKernel(d0: bv8, d1: bv8, d2: bv8)
    requires LowBitOnly(d0) && TopBitOnly(d2) && Shift8(Pack(d0, d1)) == Low(d2)
    ensures d0 == 0 && d1 == 0 && d2 == 0
  {
    hide Shift8, High, Low, Pack, Xor, LowBitOnly, TopBitOnly;
    Shift8OfPack(d0, d1);
    LowBitImage(d0);
    LowBitKernel(d1, d2);
    XorSelf(High(d1));
  }

  /** Seen one byte later, the same burst never lands on one bit of the register's low byte: the
      only two bytes that would are 0x11 and 0x8A. */
  lemma LateKernel(d0: bv8, d1: bv8, d2: bv8)
    requires LowBitOnly(d0) && TopBitOnly(d2) && Shift8(Shift8(Pack(d0, d1))) == Low(d2)
    ensures d0 == 0 && d1 == 0 && d2 == 0
  {
    TopBitValues(d2);
    EscapingPair();
    PackZero();
    hide Shift8, Pack, Low;
    var e: bv16 := if d2 == 0 then 0 else Pack(0x11, 0x8A);
    Shift8Injective(Shift8(Pack(d0, d1)), Shift8(e));
    Shift8Injective(Pack(d0, d1), e);
    if d2 == 0 {
      PackInjective(d0, d1, 0, 0);
    } else {
      PackInjective(d0, d1, 0x11, 0x8A);
    }
  }

  lemma TopBitValues(d: bv8)
    requires TopBitOnly(d)
    ensures d == 0 || d == 0x80
  {
  }

  lemma EscapingPair()
    ensures Shift8(Shift8(Pack(0x11, 0x8A))) == Low(0x80)
  {
  }

  lemma PackZero()
    ensures Pack(0, 0) == 0 && Shift8(0) == 0 && Low(0) == 0
  {
  }

  /** Four low bits of a byte move the register's high byte. */
  lemma NibbleKernel(d: bv8, y: bv8)
    requires LowNibbleOnly(d) && Shift8(High(d)) == Low(y)
    ensures d == 0 && y == 0
  {
  }

  // ------------------------------------------------------------ bursts of ten bits

  lemma CrcAppendTriple(p: seq<bv8>, x: bv8, y: bv8, z: bv8)
    ensures Crc(p + [x, y, z]) == Feed(Feed(Feed(Crc(p), x), y), z)
  {
    hide Feed, Crc;
    CrcAppendPair(p, x, y);
    CrcAppend(p + [x, y], z);
    assert (p + [x, y]) + [z] == p + [x, y, z];
  }

  /** No change of one byte, the last bit before it and the first bit after it preserves the CRC. */
  lemma StraddleChangeDetected(p: seq<bv8>, a0: bv8, a1: bv8, a2: bv8, b0: bv8, b1: bv8, b2: bv8, tail: seq<bv8>)
    requires LowBitOnly(Difference(a0, b0)) && TopBitOnly(Difference(a2, b2))
    requires a0 != b0 || a1 != b1 || a2 != b2
    ensures Crc(p + [a0, a1, a2] + tail) != Crc(p + [b0, b1, b2] + tail)
  {
    hide Feed, LowBitOnly, TopBitOnly, Difference;
    if Crc(p + [a0, a1, a2] + tail) == Crc(p + [b0, b1, b2] + tail) {
      TailInjective(p + [a0, a1, a2], p + [b0, b1, b2], tail);
      CrcAppendTriple(p, a0, a1, a2);
      CrcAppendTriple(p, b0, b1, b2);
      StraddleSeparates(Crc(p), a0, a1, a2, b0, b1, b2);
      assert false;
    }
  }

  lemma StraddleSeparates(c: bv16, a0: bv8, a1: bv8, a2: bv8, b0: bv8, b1: bv8, b2: bv8)
    requires LowBitOnly(Difference(a0, b0)) && TopBitOnly(Difference(a2, b2))
    requires a0 != b0 || a1 != b1 || a2 != b2
    ensures Feed(Feed(Feed(c, a0), a1), a2) != Feed(Feed(Feed(c, b0), b1), b2)
  {
    hide Feed, Shift8, Pack, High, Low, Xor, LowBitOnly, TopBitOnly, Difference;
    var d0, d1, d2 := Difference(a0, b0), Difference(a1, b1), Difference(a2, b2);
    var u, v := Feed(Feed(c, a0), a1), Feed(Feed(c, b0), b1);
    FeedPairDifference(c, a0, a1, b0, b1);
    NoDifference(a0, b0);
    NoDifference(a1, b1);
    NoDifference(a2, b2);
    if Feed(u, a2) == Feed(v, b2) {
      EqualFeeds(u, v, a2, b2);
      LowByteRises(d2);
      Shift8Injective(Shift8(Pack(d0, d1)), Low(d2));
      StraddleKernel(d0, d1, d2);
    }
  }

  /** Registers that different bytes bring together were as far apart as those bytes. */
  lemma EqualFeeds(u: bv16, v: bv16, a: bv8, b: bv8)
    requires Feed(u, a) == Feed(v, b)
    ensures Xor(u, v) == High(Difference(a, b))
  {
    hide Feed, Shift8, High, Xor, Difference;
    FeedShifts(u, a);
    FeedShifts(v, b);
    Shift8Injective(Xor(u, High(a)), Xor(v, High(b)));
    XorZero(Xor(u, High(a)), Xor(v, High(b)));
    XorOfSums(u, High(a), v, High(b));
    XorZero(Xor(u, v), Xor(High(a), High(b)));
    HighDifference(a, b);
  }

  /** The same burst at the end of the data, with the bit after it in the stored low byte. */
  lemma LateSeparates(c: bv16, a0: bv8, a1: bv8, b0: bv8, b1: bv8, h: bv8, x: bv8, y: bv8)
    requires LowBitOnly(Difference(a0, b0)) && TopBitOnly(Difference(x, y))
    requires a0 != b0 || a1 != b1 || x != y
    ensures Feed(Feed(c, a0), a1) != Pack(h, x) || Feed(Feed(c, b0), b1) != Pack(h, y)
  {
    hide Feed, Shift8, Pack, Low, Xor, LowBitOnly, TopBitOnly, Difference;
    FeedPairDifference(c, a0, a1, b0, b1);
    StoredDifference(h, x, y);
    NoDifference(a0, b0);
    NoDifference(a1, b1);
    NoDifference(x, y);
    if Shift8(Shift8(Pack(Difference(a0, b0), Difference(a1, b1)))) == Low(Difference(x, y)) {
      LateKernel(Difference(a0, b0), Difference(a1, b1), Difference(x, y));
    }
  }

  /** Four low bits of the last data byte and any bits of the stored low byte. */
  lemma NibbleSeparates(c: bv16, a: bv8, b: bv8, h: bv8, x: bv8, y: bv8)
    requires LowNibbleOnly(Difference(a, b)) && (a != b || x != y)
    ensures Feed(c, a) != Pack(h, x) || Feed(c, b) != Pack(h, y)
  {
    hide Feed, Shift8, Pack, High, Low, Xor, LowNibbleOnly, Difference;
    FeedDifference(c, a, b);
    StoredDifference(h, x, y);
    NoDifference(a, b);
    NoDifference(x, y);
    if Shift8(High(Difference(a, b))) == Low(Difference(x, y)) {
      NibbleKernel(Difference(a, b), Difference(x, y));
    }
  }

  lemma StoredDifference(h: bv8, x: bv8, y: bv8)
    ensures Xor(Pack(h, x), Pack(h, y)) == Low(Difference(x, y))
  {
    hide Xor, High, Low, Difference;
    XorDifference(High(h), Low(x), Low(y));
    LowDifference(x, y);
  }

  /** Three bytes of difference that the CRC does not see: 0x11 and 0x8A in the last two data bytes
      move the register by the top bit of its low byte. */
  lemma EscapingDifference(c: bv16, a0: bv8, a1: bv8, b0: bv8, b1: bv8, h: bv8, x: bv8, y: bv8)
    requires Difference(a0, b0) == 0x11 && Difference(a1, b1) == 0x8A && Difference(x, y) == 0x80
    requires Feed(Feed(c, a0), a1) == Pack(h, x)
    ensures Feed(Feed(c, b0), b1) == Pack(h, y)
  {
    EscapingPair();
    hide Feed, Shift8, Pack, Low, Xor, Difference;
    FeedPairDifference(c, a0, a1, b0, b1);
    StoredDifference(h, x, y);
    XorCancel(Feed(Feed(c, b0), b1), Pack(h, y), Pack(h, x));
  }

  /** The published check value: the digits 1 to 9. */
  lemma CheckValue()
    ensures Crc([0x31, 0x32, 0x33, 0x34, 0x35, 0x36, 0x37, 0x38, 0x39]) == 0x31C3
  {
    KnownRegisters();
    hide Feed;
    var bs: seq<bv8> := [0x31, 0x32, 0x33, 0x34, 0x35, 0x36, 0x37, 0x38, 0x39];
    assert Crc([]) == 0 && bs[..0] == [];
    CrcStep(bs, 0);
    CrcStep(bs, 1);
    CrcStep(bs, 2);
    CrcStep(bs, 3);
    CrcStep(bs, 4);
    CrcStep(bs, 5);
    CrcStep(bs, 6);
    CrcStep(bs, 7);
    CrcStep(bs, 8);
    assert bs[..9] == bs;
  }

  lemma CrcStep(bs: seq<bv8>, k: nat)
    requires k < |bs|
    ensures Crc(bs[..k + 1]) == Feed(Crc(bs[..k]), bs[k])
  {
    assert bs[..k + 1][..k] == bs[..k];
  }

  lemma KnownRegisters()
    ensures Feed(0x0, 0x31) == 0x2672
    ensures Feed(0x2672, 0x32) == 0x20B5
    ensures Feed(0x20B5, 0x33) == 0x9752
    ensures Feed(0x9752, 0x34) == 0xD789
    ensures Feed(0xD789, 0x35) == 0x546C
    ensures Feed(0x546C, 0x36) == 0x20E4
    ensures Feed(0x20E4, 0x37) == 0x86D6
    ensures Feed(0x86D6, 0x38) == 0x9015
    ensures Feed(0x9015, 0x39) == 0x31C3
  {
  }
}
