/** Unpadded base32 (RFC 4648 section 6), read in either letter case. */
module Base32 {
  import opened Text

  /** `is_base32_char` */
  predicate IsBase32Char(c: char) {
    'A' <= c <= 'Z' || 'a' <= c <= 'z' || '2' <= c <= '7'
  }

  predicate IsBase32(s: string) {
    forall i :: 0 <= i < |s| ==> IsBase32Char(s[i])
  }

  function UpperValue(c: char): (q: bv8)
    ensures q < 32
  {
    match c
    case 'A' => 0
    case 'B' => 1
    case 'C' => 2
    case 'D' => 3
    case 'E' => 4
    case 'F' => 5
    case 'G' => 6
    case 'H' => 7
    case 'I' => 8
    case 'J' => 9
    case 'K' => 10
    case 'L' => 11
    case 'M' => 12
    case 'N' => 13
    case 'O' => 14
    case 'P' => 15
    case 'Q' => 16
    case 'R' => 17
    case 'S' => 18
    case 'T' => 19
    case 'U' => 20
    case 'V' => 21
    case 'W' => 22
    case 'X' => 23
    case 'Y' => 24
    case 'Z' => 25
    case '2' => 26
    case '3' => 27
    case '4' => 28
    case '5' => 29
    case '6' => 30
    case '7' => 31
    case _ => 0
  }

  /** The five bits of a character. */
  function Quintet(c: char): (q: bv8)
    ensures q < 32
  {
    UpperValue(UpperChar(c))
  }

  /** The character for five bits, found eight at a time. */
  function CharOf(q: bv8): (c: char)
    requires q < 32
  {
    if q < 8 then CharOf0(q) else if q < 16 then CharOf8(q) else if q < 24 then CharOf16(q) else CharOf24(q)
  }

  function CharOf0(q: bv8): char {
    if q == 0 then 'A'
    else if q == 1 then 'B'
    else if q == 2 then 'C'
    else if q == 3 then 'D'
    else if q == 4 then 'E'
    else if q == 5 then 'F'
    else if q == 6 then 'G' else 'H'
  }

  function CharOf8(q: bv8): char {
    if q == 8 then 'I'
    else if q == 9 then 'J'
    else if q == 10 then 'K'
    else if q == 11 then 'L'
    else if q == 12 then 'M'
    else if q == 13 then 'N'
    else if q == 14 then 'O' else 'P'
  }

  function CharOf16(q: bv8): char {
    if q == 16 then 'Q'
    else if q == 17 then 'R'
    else if q == 18 then 'S'
    else if q == 19 then 'T'
    else if q == 20 then 'U'
    else if q == 21 then 'V'
    else if q == 22 then 'W' else 'X'
  }

  function CharOf24(q: bv8): char {
    if q == 24 then 'Y'
    else if q == 25 then 'Z'
    else if q == 26 then '2'
    else if q == 27 then '3'
    else if q == 28 then '4'
    else if q == 29 then '5'
    else if q == 30 then '6' else '7'
  }

  lemma CharOfUpperValue(c: char)
    requires 'A' <= c <= 'Z' || '2' <= c <= '7'
    ensures CharOf(UpperValue(c)) == c
  {
  }

  lemma UpperIsUpper(c: char)
    requires IsBase32Char(c)
    ensures 'A' <= UpperChar(c) <= 'Z' || '2' <= UpperChar(c) <= '7'
  {
  }

  lemma CharOfQuintet(c: char)
    requires IsBase32Char(c)
    ensures CharOf(Quintet(c)) == UpperChar(c)
  {
    hide CharOf, UpperValue, UpperChar;
    UpperIsUpper(c);
    CharOfUpperValue(UpperChar(c));
  }

  predicate Inverts(q: bv8)
    requires q < 32
  {
    var c := CharOf(q);
    ('A' <= c <= 'Z' || '2' <= c <= '7') && UpperValue(c) == q
  }

  lemma Inverts0(q: bv8)
    requires 0 <= q < 8
    ensures Inverts(q)
  {
  }

  lemma Inverts8(q: bv8)
    requires 8 <= q < 16
    ensures Inverts(q)
  {
  }

  lemma Inverts16(q: bv8)
    requires 16 <= q < 24
    ensures Inverts(q)
  {
  }

  lemma Inverts24(q: bv8)
    requires 24 <= q < 32
    ensures Inverts(q)
  {
  }

  lemma UpperValueOfChar(q: bv8)
    requires q < 32
    ensures Inverts(q)
  {
    hide Inverts;
    if q < 8 {
      Inverts0(q);
    } else if q < 16 {
      Inverts8(q);
    } else if q < 24 {
      Inverts16(q);
    } else {
      Inverts24(q);
    }
  }

  lemma QuintetOfChar(q: bv8)
    requires q < 32
    ensures IsBase32Char(CharOf(q)) && Quintet(CharOf(q)) == q && UpperChar(CharOf(q)) == CharOf(q)
  {
    UpperValueOfChar(q);
    hide CharOf, UpperValue;
  }

  /** Two characters carry the same bits only if they are the same letter in some case. */
  lemma SameQuintet(c: char, d: char)
    requires IsBase32Char(c) && IsBase32Char(d) && Quintet(c) == Quintet(d)
    ensures UpperChar(c) == UpperChar(d)
  {
    CharOfQuintet(c);
    CharOfQuintet(d);
  }

  lemma QuintetIgnoresCase(c: char, d: char)
    ensures UpperChar(c) == UpperChar(d) ==> Quintet(c) == Quintet(d)
  {
    hide UpperValue, UpperChar;
  }

  // ------------------------------------------------------------ five bits to eight and back

  function Byte0(a: bv8, b: bv8): bv8 { (a * 8) | (b / 4) }
  function Byte1(b: bv8, c: bv8, d: bv8): bv8 { (b * 64) | (c * 2) | (d / 16) }
  function Byte2(d: bv8, e: bv8): bv8 { (d * 16) | (e / 2) }
  function Byte3(e: bv8, f: bv8, g: bv8): bv8 { (e * 128) | (f * 4) | (g / 8) }
  function Byte4(g: bv8, h: bv8): bv8 { (g * 32) | h }

  predicate IsQuintets(qs: seq<bv8>) {
    forall i :: 0 <= i < |qs| ==> qs[i] < 32
  }

  function ByteCount(chars: nat): nat {
    chars * 5 / 8
  }

  /** Byte `j` of a run of quintets: eight quintets make five bytes. */
  function ByteAt(qs: seq<bv8>, j: nat): bv8
    requires j < ByteCount(|qs|)
  {
    var at, r := j / 5 * 8, j % 5;
    if r == 0 then Byte0(qs[at], qs[at + 1])
    else if r == 1 then Byte1(qs[at + 1], qs[at + 2], qs[at + 3])
    else if r == 2 then Byte2(qs[at + 3], qs[at + 4])
    else if r == 3 then Byte3(qs[at + 4], qs[at + 5], qs[at + 6])
    else Byte4(qs[at + 6], qs[at + 7])
  }

  /** Whole bytes of a run of quintets; left-over bits are dropped. */
  function Pack(qs: seq<bv8>): (bs: seq<bv8>)
    ensures |bs| == ByteCount(|qs|)
  {
    seq(ByteCount(|qs|), j requires 0 <= j < ByteCount(|qs|) => ByteAt(qs, j))
  }

  function Quintets(s: string): (qs: seq<bv8>)
    ensures |qs| == |s| && IsQuintets(qs)
  {
    seq(|s|, i requires 0 <= i < |s| => Quintet(s[i]))
  }

  /** The bytes a text spells. */
  function Decode(s: string): (bs: seq<bv8>)
    ensures |bs| == ByteCount(|s|)
  {
    Pack(Quintets(s))
  }

  function Quint0(b0: bv8): bv8 { b0 / 8 }
  function Quint1(b0: bv8, b1: bv8): bv8 { ((b0 & 7) * 4) | (b1 / 64) }
  function Quint2(b1: bv8): bv8 { (b1 / 2) & 31 }
  function Quint3(b1: bv8, b2: bv8): bv8 { ((b1 & 1) * 16) | (b2 / 16) }
  function Quint4(b2: bv8, b3: bv8): bv8 { ((b2 & 15) * 2) | (b3 / 128) }
  function Quint5(b3: bv8): bv8 { (b3 / 4) & 31 }
  function Quint6(b3: bv8, b4: bv8): bv8 { ((b3 & 3) * 8) | (b4 / 32) }
  function Quint7(b4: bv8): bv8 { b4 & 31 }

  /** Quintet `i` of whole five-byte groups. */
  function QuintetAt(bs: seq<bv8>, i: nat): (q: bv8)
    requires |bs| % 5 == 0 && i < |bs| / 5 * 8
    ensures q < 32
  {
    var at, r := i / 8 * 5, i % 8;
    if r == 0 then Quint0(bs[at])
    else if r == 1 then Quint1(bs[at], bs[at + 1])
    else if r == 2 then Quint2(bs[at + 1])
    else if r == 3 then Quint3(bs[at + 1], bs[at + 2])
    else if r == 4 then Quint4(bs[at + 2], bs[at + 3])
    else if r == 5 then Quint5(bs[at + 3])
    else if r == 6 then Quint6(bs[at + 3], bs[at + 4])
    else Quint7(bs[at + 4])
  }

  /** Uppercase text of whole five-byte groups. */
  function Encode(bs: seq<bv8>): (s: string)
    requires |bs| % 5 == 0
    ensures |s| == |bs| / 5 * 8
  {
    seq(|bs| / 5 * 8, i requires 0 <= i < |bs| / 5 * 8 => CharOf(QuintetAt(bs, i)))
  }

  function Upper(s: string): (t: string)
    ensures |t| == |s|
  {
    seq(|s|, i requires 0 <= i < |s| => UpperChar(s[i]))
  }

  lemma GroupPacks(b0: bv8, b1: bv8, b2: bv8, b3: bv8, b4: bv8)
    ensures Byte0(Quint0(b0), Quint1(b0, b1)) == b0
    ensures Byte1(Quint1(b0, b1), Quint2(b1), Quint3(b1, b2)) == b1
    ensures Byte2(Quint3(b1, b2), Quint4(b2, b3)) == b2
    ensures Byte3(Quint4(b2, b3), Quint5(b3), Quint6(b3, b4)) == b3
    ensures Byte4(Quint6(b3, b4), Quint7(b4)) == b4
  {
  }

  lemma GroupUnpacks(a: bv8, b: bv8, c: bv8, d: bv8, e: bv8, f: bv8, g: bv8, h: bv8)
    requires a < 32 && b < 32 && c < 32 && d < 32 && e < 32 && f < 32 && g < 32 && h < 32
    ensures var b0, b1, b2, b3, b4 := Byte0(a, b), Byte1(b, c, d), Byte2(d, e), Byte3(e, f, g), Byte4(g, h);
            && Quint0(b0) == a && Quint1(b0, b1) == b && Quint2(b1) == c && Quint3(b1, b2) == d
            && Quint4(b2, b3) == e && Quint5(b3) == f && Quint6(b3, b4) == g && Quint7(b4) == h
  {
  }

  lemma QuintetsOfEncode(bs: seq<bv8>)
    requires |bs| % 5 == 0
    ensures IsBase32(Encode(bs)) && Upper(Encode(bs)) == Encode(bs)
    ensures forall i :: 0 <= i < |bs| / 5 * 8 ==> Quintets(Encode(bs))[i] == QuintetAt(bs, i)
  {
    hide CharOf, QuintetAt, UpperValue, UpperChar, Quintet, IsBase32Char;
    forall i | 0 <= i < |bs| / 5 * 8
      ensures Quintet(Encode(bs)[i]) == QuintetAt(bs, i)
      ensures IsBase32Char(Encode(bs)[i]) && UpperChar(Encode(bs)[i]) == Encode(bs)[i]
    {
      QuintetOfChar(QuintetAt(bs, i));
    }
  }

  lemma GroupOfFive(m: nat, r: nat)
    requires r < 5
    ensures (m * 5 + r) / 5 == m && (m * 5 + r) % 5 == r
  {
  }

  lemma GroupOfEight(m: nat, r: nat)
    requires r < 8
    ensures (m * 8 + r) / 8 == m && (m * 8 + r) % 8 == r
  {
  }

  /** The five bytes of one group of eight quintets. */
  lemma BytesOfGroup(qs: seq<bv8>, m: nat)
    requires m * 8 + 8 <= |qs|
    ensures m * 5 + 5 <= ByteCount(|qs|)
    ensures ByteAt(qs, m * 5 + 0) == Byte0(qs[m * 8], qs[m * 8 + 1])
    ensures ByteAt(qs, m * 5 + 1) == Byte1(qs[m * 8 + 1], qs[m * 8 + 2], qs[m * 8 + 3])
    ensures ByteAt(qs, m * 5 + 2) == Byte2(qs[m * 8 + 3], qs[m * 8 + 4])
    ensures ByteAt(qs, m * 5 + 3) == Byte3(qs[m * 8 + 4], qs[m * 8 + 5], qs[m * 8 + 6])
    ensures ByteAt(qs, m * 5 + 4) == Byte4(qs[m * 8 + 6], qs[m * 8 + 7])
  {
    hide Byte0, Byte1, Byte2, Byte3, Byte4;
    GroupOfFive(m, 0);
    GroupOfFive(m, 1);
    GroupOfFive(m, 2);
    GroupOfFive(m, 3);
    GroupOfFive(m, 4);
  }

  /** The eight quintets of one group of five bytes. */
  lemma QuintetsOfGroup(bs: seq<bv8>, m: nat)
    requires |bs| % 5 == 0 && m * 5 + 5 <= |bs|
    ensures m * 8 + 8 <= |bs| / 5 * 8
    ensures QuintetAt(bs, m * 8 + 0) == Quint0(bs[m * 5])
    ensures QuintetAt(bs, m * 8 + 1) == Quint1(bs[m * 5], bs[m * 5 + 1])
    ensures QuintetAt(bs, m * 8 + 2) == Quint2(bs[m * 5 + 1])
    ensures QuintetAt(bs, m * 8 + 3) == Quint3(bs[m * 5 + 1], bs[m * 5 + 2])
    ensures QuintetAt(bs, m * 8 + 4) == Quint4(bs[m * 5 + 2], bs[m * 5 + 3])
    ensures QuintetAt(bs, m * 8 + 5) == Quint5(bs[m * 5 + 3])
    ensures QuintetAt(bs, m * 8 + 6) == Quint6(bs[m * 5 + 3], bs[m * 5 + 4])
    ensures QuintetAt(bs, m * 8 + 7) == Quint7(bs[m * 5 + 4])
  {
    hide Quint0, Quint1, Quint2, Quint3, Quint4, Quint5, Quint6, Quint7;
    GroupOfEight(m, 0);
    GroupOfEight(m, 1);
    GroupOfEight(m, 2);
    GroupOfEight(m, 3);
    GroupOfEight(m, 4);
    GroupOfEight(m, 5);
    GroupOfEight(m, 6);
    GroupOfEight(m, 7);
  }

  lemma EncodedChar(bs: seq<bv8>, i: nat)
    requires |bs| % 5 == 0 && i < |bs| / 5 * 8
    ensures Encode(bs)[i] == CharOf(QuintetAt(bs, i))
  {
    hide CharOf, QuintetAt;
  }

  /** The bytes that a prefix of the quintets completes are those of the whole. */
  lemma PackPrefix(qs: seq<bv8>, n: nat, j: nat)
    requires n <= |qs| && j < ByteCount(n)
    ensures j < ByteCount(|qs|) && Pack(qs[..n])[j] == Pack(qs)[j]
  {
    hide Byte0, Byte1, Byte2, Byte3, Byte4;
  }

  /** Whole groups of bytes survive encoding and decoding. */
  lemma DecodeEncode(bs: seq<bv8>)
    requires |bs| % 5 == 0
    ensures Decode(Encode(bs)) == bs
  {
    hide ByteAt, QuintetAt, Quintets, Encode, Byte0, Byte1, Byte2, Byte3, Byte4,
         Quint0, Quint1, Quint2, Quint3, Quint4, Quint5, Quint6, Quint7;
    var qs := Quintets(Encode(bs));
    QuintetsOfEncode(bs);
    forall j | 0 <= j < |bs|
      ensures ByteAt(qs, j) == bs[j]
    {
      var m, r := j / 5, j % 5;
      assert j == m * 5 + r;
      QuintetsOfGroup(bs, m);
      BytesOfGroup(qs, m);
      GroupPacks(bs[m * 5], bs[m * 5 + 1], bs[m * 5 + 2], bs[m * 5 + 3], bs[m * 5 + 4]);
      assert r == 0 || r == 1 || r == 2 || r == 3 || r == 4;
    }
  }

  lemma WholeGroups(chars: nat)
    requires chars % 8 == 0
    ensures ByteCount(chars) % 5 == 0 && ByteCount(chars) / 5 * 8 == chars
  {
  }

  /** Text of whole groups survives decoding and encoding, up to letter case. */
  lemma EncodeDecode(s: string)
    requires IsBase32(s) && |s| % 8 == 0
    ensures |Decode(s)| % 5 == 0
    ensures Encode(Decode(s)) == Upper(s)
  {
    hide ByteAt, QuintetAt, Byte0, Byte1, Byte2, Byte3, Byte4, CharOf, Quintet, UpperChar,
         Quint0, Quint1, Quint2, Quint3, Quint4, Quint5, Quint6, Quint7;
    WholeGroups(|s|);
    var qs, bs := Quintets(s), Decode(s);
    forall i | 0 <= i < |s|
      ensures CharOf(QuintetAt(bs, i)) == UpperChar(s[i])
    {
      var m, r := i / 8, i % 8;
      assert i == m * 8 + r;
      BytesOfGroup(qs, m);
      QuintetsOfGroup(bs, m);
      GroupUnpacks(qs[m * 8], qs[m * 8 + 1], qs[m * 8 + 2], qs[m * 8 + 3], qs[m * 8 + 4], qs[m * 8 + 5], qs[m * 8 + 6], qs[m * 8 + 7]);
      assert r == 0 || r == 1 || r == 2 || r == 3 || r == 4 || r == 5 || r == 6 || r == 7;
      CharOfQuintet(s[i]);
    }
  }

  // ------------------------------------------------------------ wrong characters

  /** The first and the last byte that hold a bit of quintet `i`. */
  function FirstByteOf(i: nat): nat {
    5 * i / 8
  }

  function LastByteOf(i: nat): nat {
    (5 * i + 4) / 8
  }

  lemma GroupBytes(m: nat, x: nat)
    ensures (40 * m + x) / 8 == 5 * m + x / 8
  {
  }

  lemma GroupQuintets(m: nat, x: nat)
    ensures (40 * m + x) / 5 == 8 * m + x / 5
  {
  }

  /** The quintets that hold the bits of byte `k`, within its group of five. */
  lemma QuintetsOfByte(k: nat)
    ensures var at, r := k / 5 * 8, k % 5;
            && 8 * k / 5 == at + (if r == 0 then 0 else if r == 1 then 1 else if r == 2 then 3 else if r == 3 then 4 else 6)
            && (8 * k + 7) / 5 == at + (if r == 0 then 1 else if r == 1 then 3 else if r == 2 then 4 else if r == 3 then 6 else 7)
  {
    var m, r := k / 5, k % 5;
    assert k == m * 5 + r;
    GroupQuintets(m, 8 * r);
    GroupQuintets(m, 8 * r + 7);
    assert r == 0 || r == 1 || r == 2 || r == 3 || r == 4;
  }

  /** A byte is read from the quintets that hold its bits and from no other. */
  lemma ByteReads(qs: seq<bv8>, ps: seq<bv8>, k: nat)
    requires |qs| == |ps| && k < ByteCount(|qs|)
    requires forall j :: 8 * k / 5 <= j <= (8 * k + 7) / 5 && j < |qs| ==> qs[j] == ps[j]
    ensures ByteAt(qs, k) == ByteAt(ps, k)
  {
    hide Byte0, Byte1, Byte2, Byte3, Byte4;
    QuintetsOfByte(k);
    var at, r := k / 5 * 8, k % 5;
    assert r == 0 || r == 1 || r == 2 || r == 3 || r == 4;
  }

  /** Whole groups of quintets are determined by their bytes. */
  lemma PackInjective(qs: seq<bv8>, ps: seq<bv8>)
    requires IsQuintets(qs) && IsQuintets(ps) && |qs| == |ps| && |qs| % 8 == 0
    requires Pack(qs) == Pack(ps)
    ensures qs == ps
  {
    hide ByteAt, Byte0, Byte1, Byte2, Byte3, Byte4, Quint0, Quint1, Quint2, Quint3, Quint4, Quint5, Quint6, Quint7;
    forall i | 0 <= i < |qs|
      ensures qs[i] == ps[i]
    {
      var m, r := i / 8, i % 8;
      assert i == m * 8 + r;
      SameBytesSameGroup(qs, ps, m);
      assert r == 0 || r == 1 || r == 2 || r == 3 || r == 4 || r == 5 || r == 6 || r == 7;
    }
  }

  lemma SameByte(qs: seq<bv8>, ps: seq<bv8>, k: nat)
    requires |qs| == |ps| && k < ByteCount(|qs|) && Pack(qs) == Pack(ps)
    ensures ByteAt(qs, k) == ByteAt(ps, k)
  {
    hide ByteAt;
    assert Pack(qs)[k] == Pack(ps)[k];
  }

  lemma SameBytesSameGroup(qs: seq<bv8>, ps: seq<bv8>, m: nat)
    requires IsQuintets(qs) && IsQuintets(ps) && |qs| == |ps| && m * 8 + 8 <= |qs|
    requires Pack(qs) == Pack(ps)
    ensures qs[m * 8] == ps[m * 8] && qs[m * 8 + 1] == ps[m * 8 + 1] && qs[m * 8 + 2] == ps[m * 8 + 2]
    ensures qs[m * 8 + 3] == ps[m * 8 + 3] && qs[m * 8 + 4] == ps[m * 8 + 4] && qs[m * 8 + 5] == ps[m * 8 + 5]
    ensures qs[m * 8 + 6] == ps[m * 8 + 6] && qs[m * 8 + 7] == ps[m * 8 + 7]
  {
    hide ByteAt, Byte0, Byte1, Byte2, Byte3, Byte4, Quint0, Quint1, Quint2, Quint3, Quint4, Quint5, Quint6, Quint7;
    BytesOfGroup(qs, m);
    BytesOfGroup(ps, m);
    SameByte(qs, ps, m * 5 + 0);
    SameByte(qs, ps, m * 5 + 1);
    SameByte(qs, ps, m * 5 + 2);
    SameByte(qs, ps, m * 5 + 3);
    SameByte(qs, ps, m * 5 + 4);
    GroupUnpacks(qs[m * 8], qs[m * 8 + 1], qs[m * 8 + 2], qs[m * 8 + 3], qs[m * 8 + 4], qs[m * 8 + 5], qs[m * 8 + 6], qs[m * 8 + 7]);
    GroupUnpacks(ps[m * 8], ps[m * 8 + 1], ps[m * 8 + 2], ps[m * 8 + 3], ps[m * 8 + 4], ps[m * 8 + 5], ps[m * 8 + 6], ps[m * 8 + 7]);
  }

  /** Changing some of `n` consecutive quintets of whole groups changes the bytes, and only bytes that
      hold a bit of them. */
  lemma ChangeIsLocal(qs: seq<bv8>, ps: seq<bv8>, i: nat, n: nat)
    requires IsQuintets(qs) && IsQuintets(ps) && |qs| == |ps| && |qs| % 8 == 0
    requires 0 < n && i + n <= |qs| && qs != ps
    requires forall j :: 0 <= j < |qs| && (j < i || i + n <= j) ==> qs[j] == ps[j]
    ensures Pack(qs) != Pack(ps)
    ensures forall k :: 0 <= k < ByteCount(|qs|) && (k < FirstByteOf(i) || LastByteOf(i + n - 1) < k) ==> Pack(qs)[k] == Pack(ps)[k]
  {
    hide ByteAt;
    if Pack(qs) == Pack(ps) {
      PackInjective(qs, ps);
    }
    forall k | 0 <= k < ByteCount(|qs|) && (k < FirstByteOf(i) || LastByteOf(i + n - 1) < k)
      ensures ByteAt(qs, k) == ByteAt(ps, k)
    {
      assert (8 * k + 7) / 5 < i || i + n <= 8 * k / 5;
      ByteReads(qs, ps, k);
    }
  }

  /** The quintets are the alphabet of RFC 4648 section 6, in order. */
  lemma Alphabet(q: bv8)
    requires q < 32
    ensures CharOf(q) == "ABCDEFGHIJKLMNOPQRSTUVWXYZ234567"[q as nat]
  {
  }
}
