/** Stellar StrKeys (SEP-0023): a version byte, a payload and a CRC16-XMODEM checksum stored
    low byte first, in unpadded base32 of canonical length, read in either letter case. */
module StrKey {
  import opened Prelude
  import opened Text
  import opened Crc16
  import Base32

  datatype Kind = Account | SecretSeed | PreAuthTx | HashX | Contract | Muxed | SignedPayload

  function KindOf(version: bv8): Option<Kind> {
    if version == 48 then Some(Account)
    else if version == 144 then Some(SecretSeed)
    else if version == 152 then Some(PreAuthTx)
    else if version == 184 then Some(HashX)
    else if version == 16 then Some(Contract)
    else if version == 96 then Some(Muxed)
    else if version == 120 then Some(SignedPayload)
    else None
  }

  function PaddedSize(n: nat): nat {
    (n + 3) / 4 * 4
  }

  /** The payload each kind carries: 32 bytes, 40 for a muxed account, and for a signed payload
      32 bytes, a big-endian length of 1 to 64, and that many bytes zero-padded to a multiple of 4. */
  predicate PayloadOk(kind: Kind, payload: seq<bv8>) {
    match kind
    case Muxed => |payload| == 40
    case SignedPayload =>
      && |payload| >= 36
      && payload[32] == 0 && payload[33] == 0 && payload[34] == 0
      && 1 <= payload[35] as int <= 64
      && |payload| == 36 + PaddedSize(payload[35] as int)
      && forall i :: 36 + payload[35] as int <= i < |payload| ==> payload[i] == 0
    case _ => |payload| == 32
  }

  /** The checksum, low byte first. */
  predicate ChecksumOk(bs: seq<bv8>)
    requires |bs| >= 3
  {
    Crc(bs[..|bs| - 2]) == Pack(bs[|bs| - 1], bs[|bs| - 2])
  }

  /** Exactly as many characters as the bytes need, with the unused bits of the last one zero. */
  predicate IsCanonicalText(s: string) {
    var unused := |s| * 5 - Base32.ByteCount(|s|) * 8;
    && unused < 5
    && (s != "" ==>
          var last := Base32.Quintet(s[|s| - 1]);
          (unused == 1 ==> last & 1 == 0) && (unused == 2 ==> last & 3 == 0)
          && (unused == 3 ==> last & 7 == 0) && (unused == 4 ==> last & 15 == 0))
  }

  /** The right amount of payload for the kind, canonically spelled. */
  predicate LengthOk(s: string, kind: Kind)
  {
    var bs := Base32.Decode(s);
    |bs| >= 3 && PayloadOk(kind, bs[1..|bs| - 2]) && IsCanonicalText(s)
  }

  /** `Strkey::from_string`: a text is refused for its alphabet, its version byte, its length
      or its checksum, and for nothing else. */
  function Parse(s: string): Option<(Kind, seq<bv8>)> {
    if !Base32.IsBase32(s) then None else
    var bs := Base32.Decode(s);
    if |bs| < 3 then None else
    var kind :- KindOf(bs[0]);
    if !LengthOk(s, kind) || !ChecksumOk(bs) then None else Some((kind, bs[1..|bs| - 2]))
  }

  /** A version byte, a payload and their checksum. */
  function CheckedBytes(version: bv8, payload: seq<bv8>): (bs: seq<bv8>)
    ensures |bs| == |payload| + 3
  {
    var body := [version] + payload;
    body + [LowByte(Crc(body)), HighByte(Crc(body))]
  }

  function AccountBytes(key: seq<bv8>): (bs: seq<bv8>)
    requires |key| == 32
    ensures |bs| == 35
  {
    CheckedBytes(48, key)
  }

  function LowByte(c: bv16): bv8 {
    (c & 0xFF) as bv8
  }

  function HighByte(c: bv16): bv8 {
    (c / 0x100) as bv8
  }

  /** Account addresses in uppercase. */
  function EncodeAccount(key: seq<bv8>): (s: string)
    requires |key| == 32
    ensures |s| == 56
  {
    Base32.Encode(AccountBytes(key))
  }

  lemma PackBytes(c: bv16)
    ensures Pack(HighByte(c), LowByte(c)) == c
  {
  }

  lemma UnpackBytes(h: bv8, l: bv8)
    ensures HighByte(Pack(h, l)) == h && LowByte(Pack(h, l)) == l
  {
  }

  lemma CheckedBytesCheck(version: bv8, payload: seq<bv8>)
    ensures ChecksumOk(CheckedBytes(version, payload))
    ensures CheckedBytes(version, payload)[0] == version
    ensures CheckedBytes(version, payload)[1..|payload| + 1] == payload
  {
    hide Pack, LowByte, HighByte, Crc;
    var body := [version] + payload;
    assert CheckedBytes(version, payload)[..|body|] == body;
    PackBytes(Crc(body));
  }

  /** A 56-character text carries 35 bytes and no unused bits. */
  lemma FullGroups(s: string)
    requires |s| == 56
    ensures |Base32.Decode(s)| == 35 && IsCanonicalText(s)
  {
  }

  /** The version bytes of SEP-0023. */
  function VersionOf(kind: Kind): bv8 {
    match kind
    case Account => 48
    case SecretSeed => 144
    case PreAuthTx => 152
    case HashX => 184
    case Contract => 16
    case Muxed => 96
    case SignedPayload => 120
  }

  /** The kinds whose payload is 32 bytes. */
  predicate HoldsKey(kind: Kind) {
    !kind.Muxed? && !kind.SignedPayload?
  }

  function EncodeKey(kind: Kind, key: seq<bv8>): (s: string)
    requires |key| == 32
    ensures |s| == 56
  {
    Base32.Encode(CheckedBytes(VersionOf(kind), key))
  }

  lemma KindIff(version: bv8, kind: Kind)
    ensures KindOf(version) == Some(kind) <==> version == VersionOf(kind)
  {
  }

  /** Every StrKey of a 32-byte kind parses back to that kind and its payload. */
  lemma ParseEncodeKey(kind: Kind, key: seq<bv8>)
    requires |key| == 32 && HoldsKey(kind)
    ensures Parse(EncodeKey(kind, key)) == Some((kind, key))
  {
    hide Base32.Encode, Base32.Decode, CheckedBytes, ChecksumOk, IsCanonicalText, KindOf, VersionOf;
    var bs := CheckedBytes(VersionOf(kind), key);
    Base32.QuintetsOfEncode(bs);
    Base32.DecodeEncode(bs);
    CheckedBytesCheck(VersionOf(kind), key);
    FullGroups(EncodeKey(kind, key));
    KindIff(bs[0], kind);
    assert bs[1..35 - 2] == bs[1..33];
  }

  /** A text parses as one of the 32-byte kinds exactly when it is the StrKey of that kind and
      payload in some letter case. */
  lemma ParseKeyIff(s: string, kind: Kind, key: seq<bv8>)
    requires |key| == 32 && HoldsKey(kind)
    ensures Parse(s) == Some((kind, key)) <==> Base32.IsBase32(s) && Base32.Upper(s) == EncodeKey(kind, key)
  {
    hide Base32.IsBase32, CheckedBytes, Crc, Pack, KindOf, VersionOf;
    if Parse(s) == Some((kind, key)) {
      KeyTextSize(s, kind);
      ParsedKeyBytes(s, kind, key);
      Base32.EncodeDecode(s);
    }
    if Base32.IsBase32(s) && Base32.Upper(s) == EncodeKey(kind, key) {
      ParseIgnoresCase(s);
      ParseEncodeKey(kind, key);
    }
  }

  lemma KeyTextSize(s: string, kind: Kind)
    requires HoldsKey(kind) && Parse(s).Some? && Parse(s).value.0 == kind
    ensures |s| == 56 && Base32.Decode(s)[0] == VersionOf(kind)
  {
    hide Base32.Decode, ChecksumOk, Base32.IsBase32, Base32.Quintet, KindOf, VersionOf;
    var bs := Base32.Decode(s);
    KindIff(bs[0], kind);
    assert |bs| == 35;
    assert |s| * 5 - |bs| * 8 < 5;
  }

  lemma ParsedKeyBytes(s: string, kind: Kind, key: seq<bv8>)
    requires |key| == 32 && Parse(s) == Some((kind, key)) && |s| == 56
    requires Base32.Decode(s)[0] == VersionOf(kind)
    ensures Base32.Decode(s) == CheckedBytes(VersionOf(kind), key)
  {
    hide Base32.Decode, LengthOk, Base32.IsBase32, Crc, Pack, LowByte, HighByte, KindOf, VersionOf;
    var bs := Base32.Decode(s);
    assert bs[..33] == [VersionOf(kind)] + key;
    UnpackBytes(bs[34], bs[33]);
    assert bs == bs[..33] + [bs[33], bs[34]];
  }

  /** Every key's address parses back to that key. */
  lemma ParseEncodeAccount(key: seq<bv8>)
    requires |key| == 32
    ensures Parse(EncodeAccount(key)) == Some((Account, key))
  {
    hide Parse, CheckedBytes, Base32.Encode;
    ParseEncodeKey(Account, key);
  }

  /** A text parses as an account exactly when it is some key's address in some letter case. */
  lemma ParseAccountIff(s: string, key: seq<bv8>)
    requires |key| == 32
    ensures Parse(s) == Some((Account, key)) <==> Base32.IsBase32(s) && Base32.Upper(s) == EncodeAccount(key)
  {
    hide Parse, CheckedBytes, Base32.Encode, Base32.IsBase32;
    ParseKeyIff(s, Account, key);
  }

  lemma AccountTextSize(s: string)
    requires Parse(s).Some? && Parse(s).value.0 == Account
    ensures |s| == 56 && Base32.Decode(s)[0] == 48
  {
    hide Parse;
    KeyTextSize(s, Account);
  }

  /** Parsing looks only at the uppercase form. */
  lemma ParseIgnoresCase(s: string)
    requires Base32.IsBase32(s)
    ensures Base32.IsBase32(Base32.Upper(s)) && Parse(Base32.Upper(s)) == Parse(s)
  {
    hide PayloadOk, ChecksumOk, KindOf, Base32.Pack, Base32.UpperValue;
    var t := Base32.Upper(s);
    forall i | 0 <= i < |s|
      ensures Base32.Quintet(t[i]) == Base32.Quintet(s[i]) && Base32.IsBase32Char(t[i])
    {
      Base32.UpperIsUpper(s[i]);
    }
    assert Base32.Quintets(t) == Base32.Quintets(s);
  }

  // ------------------------------------------------------------ muxed accounts

  /** Muxed addresses in uppercase: 43 bytes in 69 characters, with the one unused bit zero. */
  function EncodeMuxed(payload: seq<bv8>): (s: string)
    requires |payload| == 40
    ensures |s| == 69
  {
    Base32.Encode(CheckedBytes(96, payload) + [0, 0])[..69]
  }

  lemma MuxedText(payload: seq<bv8>)
    requires |payload| == 40
    ensures var s := EncodeMuxed(payload);
            && Base32.IsBase32(s) && Base32.Decode(s) == CheckedBytes(96, payload)
            && s[0] == 'M' && 'A' <= s[1] <= 'D' && Base32.Quintet(s[68]) & 1 == 0
  {
    hide Base32.Encode, Base32.Quintet, Base32.ByteAt, Base32.QuintetAt, Base32.CharOf, CheckedBytes, ChecksumOk,
         Base32.Quint0, Base32.Quint1, Base32.Quint2, Base32.Quint3, Base32.Quint4, Base32.Quint5, Base32.Quint6, Base32.Quint7;
    var bs := CheckedBytes(96, payload);
    var full := bs + [0, 0];
    var text, s := Base32.Encode(full), EncodeMuxed(payload);
    Base32.QuintetsOfEncode(full);
    Base32.DecodeEncode(full);
    assert Base32.Quintets(s) == Base32.Quintets(text)[..69];
    forall j | 0 <= j < 43
      ensures Base32.Decode(s)[j] == bs[j]
    {
      Base32.PackPrefix(Base32.Quintets(text), 69, j);
    }
    CheckedBytesCheck(96, payload);
    Base32.QuintetsOfGroup(full, 0);
    Base32.QuintetsOfGroup(full, 8);
    MuxedQuintets(full[1], full[42]);
    Base32.EncodedChar(full, 0);
    Base32.EncodedChar(full, 1);
  }

  /** The first, second and last characters of a muxed address. */
  lemma MuxedQuintets(first: bv8, last: bv8)
    ensures Base32.CharOf(Base32.Quint0(96)) == 'M'
    ensures 'A' <= Base32.CharOf(Base32.Quint1(96, first)) <= 'D'
    ensures Base32.Quint4(last, 0) & 1 == 0
  {
  }

  /** Every muxed account's address parses back to its payload. */
  lemma ParseEncodeMuxed(payload: seq<bv8>)
    requires |payload| == 40
    ensures Parse(EncodeMuxed(payload)) == Some((Muxed, payload))
  {
    hide Base32.Decode, EncodeMuxed, CheckedBytes, ChecksumOk, Base32.Quintet, Base32.IsBase32;
    MuxedText(payload);
    CheckedBytesCheck(96, payload);
  }

  /** Of a 69-character text the bytes do not depend on the last bit. */
  lemma UnusedBitInvisible(s: string, c: char)
    requires |s| == 69 && Base32.Quintet(c) / 2 == Base32.Quintet(s[68]) / 2
    ensures Base32.Decode(s[68 := c]) == Base32.Decode(s)
  {
    hide Base32.Quintet, Base32.ByteAt;
    var qs, x := Base32.Quintets(s), Base32.Quintet(c);
    assert Base32.Quintets(s[68 := c]) == qs[68 := x];
    forall j | 0 <= j < 43
      ensures Base32.ByteAt(qs[68 := x], j) == Base32.ByteAt(qs, j)
    {
      LastQuintetHalf(qs, x, j);
    }
  }

  lemma LastQuintetHalf(qs: seq<bv8>, x: bv8, j: nat)
    requires |qs| == 69 && x / 2 == qs[68] / 2 && j < 43
    ensures Base32.ByteAt(qs[68 := x], j) == Base32.ByteAt(qs, j)
  {
    SameHalf(qs[67], qs[68], x);
    hide Base32.Byte0, Base32.Byte1, Base32.Byte2, Base32.Byte3, Base32.Byte4;
    var ps := qs[68 := x];
    var m, r := j / 5, j % 5;
    if m < 8 {
      SameGroupSameByte(qs, ps, m, r);
    } else {
      assert m == 8 && r <= 2;
    }
  }

  lemma SameGroupSameByte(qs: seq<bv8>, ps: seq<bv8>, m: nat, r: nat)
    requires |qs| == |ps| && m * 8 + 8 <= |qs| && r < 5
    requires forall i :: m * 8 <= i < m * 8 + 8 ==> ps[i] == qs[i]
    ensures m * 5 + r < Base32.ByteCount(|qs|) && Base32.ByteAt(ps, m * 5 + r) == Base32.ByteAt(qs, m * 5 + r)
  {
    hide Base32.ByteAt, Base32.Byte0, Base32.Byte1, Base32.Byte2, Base32.Byte3, Base32.Byte4;
    Base32.BytesOfGroup(qs, m);
    Base32.BytesOfGroup(ps, m);
    assert r == 0 || r == 1 || r == 2 || r == 3 || r == 4;
  }

  lemma SameHalf(d: bv8, e: bv8, x: bv8)
    requires e / 2 == x / 2
    ensures Base32.Byte2(d, e) == Base32.Byte2(d, x)
  {
  }

  // ------------------------------------------------------------ wrong characters

  /** A change inside the data. */
  lemma DataChangeDetected(bs: seq<bv8>, cs: seq<bv8>, j: nat)
    requires |bs| == |cs| == 35 && j <= 31 && ChecksumOk(bs)
    requires forall k :: 0 <= k < 35 && k != j && k != j + 1 ==> bs[k] == cs[k]
    requires bs[j] != cs[j] || bs[j + 1] != cs[j + 1]
    ensures !ChecksumOk(cs)
  {
    hide Crc, Pack;
    var p, tail := bs[..j], bs[j + 2..33];
    assert bs[..33] == p + [bs[j], bs[j + 1]] + tail;
    assert cs[..33] == p + [cs[j], cs[j + 1]] + tail;
    PairChangeDetected(p, bs[j], bs[j + 1], cs[j], cs[j + 1], tail);
  }

  /** A change inside the data of one byte and the bits on either side of it. */
  lemma StraddlingChangeDetected(bs: seq<bv8>, cs: seq<bv8>, j: nat)
    requires |bs| == |cs| == 35 && j <= 30 && ChecksumOk(bs) && bs != cs
    requires forall k :: 0 <= k < 35 && (k < j || j + 2 < k) ==> bs[k] == cs[k]
    requires LowBitOnly(Difference(bs[j], cs[j])) && TopBitOnly(Difference(bs[j + 2], cs[j + 2]))
    ensures !ChecksumOk(cs)
  {
    hide Crc, Pack, LowBitOnly, TopBitOnly, Difference;
    var p, tail := bs[..j], bs[j + 3..33];
    assert bs[..33] == p + [bs[j], bs[j + 1], bs[j + 2]] + tail;
    assert cs[..33] == p + [cs[j], cs[j + 1], cs[j + 2]] + tail;
    StraddleChangeDetected(p, bs[j], bs[j + 1], bs[j + 2], cs[j], cs[j + 1], cs[j + 2], tail);
  }

  /** A change inside the stored checksum. */
  lemma StoredChangeDetected(bs: seq<bv8>, cs: seq<bv8>)
    requires |bs| == |cs| == 35 && ChecksumOk(bs) && bs != cs
    requires forall k :: 0 <= k < 33 ==> bs[k] == cs[k]
    ensures !ChecksumOk(cs)
  {
    hide Crc, Pack;
    assert bs[..33] == cs[..33];
    PackInjective(bs[34], bs[33], cs[34], cs[33]);
  }

  /** A change of the last nibble of the data and of the stored low byte. */
  lemma NibbleChangeDetected(bs: seq<bv8>, cs: seq<bv8>)
    requires |bs| == |cs| == 35 && ChecksumOk(bs) && bs != cs
    requires forall k :: 0 <= k < 35 && k != 32 && k != 33 ==> bs[k] == cs[k]
    requires LowNibbleOnly(Difference(bs[32], cs[32]))
    ensures !ChecksumOk(cs)
  {
    hide Crc, Pack, Feed, LowNibbleOnly, Difference;
    assert bs[..32] == cs[..32];
    LastByte(bs[..33]);
    LastByte(cs[..33]);
    assert bs[..33][..32] == bs[..32] && cs[..33][..32] == cs[..32];
    NibbleSeparates(Crc(bs[..32]), bs[32], cs[32], bs[34], bs[33], cs[33]);
  }

  /** A change of the last nine bits of the data and the first bit of the stored checksum. */
  lemma LateChangeDetected(bs: seq<bv8>, cs: seq<bv8>)
    requires |bs| == |cs| == 35 && ChecksumOk(bs) && bs != cs
    requires forall k :: 0 <= k < 35 && (k < 31 || 33 < k) ==> bs[k] == cs[k]
    requires LowBitOnly(Difference(bs[31], cs[31])) && TopBitOnly(Difference(bs[33], cs[33]))
    ensures !ChecksumOk(cs)
  {
    hide Crc, Pack, Feed, LowBitOnly, TopBitOnly, Difference;
    assert bs[..31] == cs[..31];
    LastPair(bs);
    LastPair(cs);
    LateSeparates(Crc(bs[..31]), bs[31], bs[32], cs[31], cs[32], bs[34], bs[33], cs[33]);
  }

  lemma LastByte(bs: seq<bv8>)
    requires bs != []
    ensures Crc(bs) == Feed(Crc(bs[..|bs| - 1]), bs[|bs| - 1])
  {
    hide Feed;
  }

  lemma LastPair(bs: seq<bv8>)
    requires |bs| == 35
    ensures Crc(bs[..33]) == Feed(Feed(Crc(bs[..31]), bs[31]), bs[32])
  {
    hide Feed, Crc;
    CrcAppendPair(bs[..31], bs[31], bs[32]);
    assert bs[..31] + [bs[31], bs[32]] == bs[..33];
  }

  /** What two neighbouring quintets can do to the outer bytes they share. */
  lemma OuterBits(b: bv8, c: bv8, d: bv8, e: bv8, f: bv8, g: bv8, x: bv8)
    requires b < 32 && c < 32 && d < 32 && e < 32 && f < 32 && g < 32 && x < 32
    ensures LowBitOnly(Difference(Base32.Byte1(b, c, d), Base32.Byte1(b, c, x)))
    ensures LowNibbleOnly(Difference(Base32.Byte2(d, e), Base32.Byte2(d, x)))
    ensures TopBitOnly(Difference(Base32.Byte3(e, f, g), Base32.Byte3(x, f, g)))
  {
  }

  /** The fourth and fifth quintet of a group reach from the last bit of its second byte to the first
      bit of its fourth. */
  lemma MiddleBits(qs: seq<bv8>, ps: seq<bv8>, m: nat)
    requires Base32.IsQuintets(qs) && Base32.IsQuintets(ps) && |qs| == |ps| && m * 8 + 8 <= |qs|
    requires forall j :: 0 <= j < |qs| && j != m * 8 + 3 && j != m * 8 + 4 ==> qs[j] == ps[j]
    ensures m * 5 + 5 <= |Base32.Pack(qs)| == |Base32.Pack(ps)|
    ensures LowBitOnly(Difference(Base32.Pack(qs)[m * 5 + 1], Base32.Pack(ps)[m * 5 + 1]))
    ensures TopBitOnly(Difference(Base32.Pack(qs)[m * 5 + 3], Base32.Pack(ps)[m * 5 + 3]))
  {
    hide Base32.ByteAt, Base32.Byte0, Base32.Byte1, Base32.Byte2, Base32.Byte3, Base32.Byte4,
         LowBitOnly, TopBitOnly, Difference;
    Base32.BytesOfGroup(qs, m);
    Base32.BytesOfGroup(ps, m);
    OuterBits(qs[m * 8 + 1], qs[m * 8 + 2], qs[m * 8 + 3], qs[m * 8 + 4], qs[m * 8 + 5], qs[m * 8 + 6], ps[m * 8 + 3]);
    OuterBits(qs[m * 8 + 1], qs[m * 8 + 2], qs[m * 8 + 3], qs[m * 8 + 4], qs[m * 8 + 5], qs[m * 8 + 6], ps[m * 8 + 4]);
  }

  /** Quintets 52 and 53 reach the last nibble of the data. */
  lemma BoundaryBits(qs: seq<bv8>, ps: seq<bv8>)
    requires Base32.IsQuintets(qs) && Base32.IsQuintets(ps) && |qs| == |ps| == 56
    requires forall j :: 0 <= j < 56 && j != 52 && j != 53 ==> qs[j] == ps[j]
    ensures |Base32.Pack(qs)| == |Base32.Pack(ps)| == 35
    ensures LowNibbleOnly(Difference(Base32.Pack(qs)[32], Base32.Pack(ps)[32]))
  {
    hide Base32.ByteAt, Base32.Byte0, Base32.Byte1, Base32.Byte2, Base32.Byte3, Base32.Byte4, LowNibbleOnly, Difference;
    Base32.BytesOfGroup(qs, 6);
    Base32.BytesOfGroup(ps, 6);
    OuterBits(qs[49], qs[50], qs[51], qs[52], qs[53], qs[54], ps[52]);
  }

  /** Which bytes two neighbouring quintets hold: two adjacent ones, or three around the middle. */
  lemma NeighbourBytes(i: nat)
    ensures i % 8 != 3 ==> Base32.LastByteOf(i + 1) == Base32.FirstByteOf(i) + 1
    ensures i % 8 == 3 ==> var m := i / 8; Base32.FirstByteOf(i) == m * 5 + 1 && Base32.LastByteOf(i + 1) == m * 5 + 3
    ensures i % 8 == 3 ==> i == i / 8 * 8 + 3
  {
    var m, r := i / 8, i % 8;
    assert i == m * 8 + r;
    Base32.GroupBytes(m, 5 * r);
    Base32.GroupBytes(m, 5 * r + 9);
    assert Base32.FirstByteOf(i) == 5 * m + 5 * r / 8;
    assert Base32.LastByteOf(i + 1) == 5 * m + (5 * r + 9) / 8;
    hide Base32.FirstByteOf, Base32.LastByteOf;
    assert r == 0 || r == 1 || r == 2 || r == 3 || r == 4 || r == 5 || r == 6 || r == 7;
  }

  /** No change of two neighbouring quintets of a 56-character StrKey preserves the checksum. */
  lemma NeighboursBreakChecksum(qs: seq<bv8>, ps: seq<bv8>, i: nat)
    requires Base32.IsQuintets(qs) && Base32.IsQuintets(ps) && |qs| == |ps| == 56 && i <= 54 && qs != ps
    requires forall j :: 0 <= j < 56 && j != i && j != i + 1 ==> qs[j] == ps[j]
    requires ChecksumOk(Base32.Pack(qs))
    ensures !ChecksumOk(Base32.Pack(ps))
  {
    hide ChecksumOk, Base32.Pack, LowBitOnly, TopBitOnly, LowNibbleOnly, Difference;
    var bs, cs := Base32.Pack(qs), Base32.Pack(ps);
    Base32.ChangeIsLocal(qs, ps, i, 2);
    NeighbourBytes(i);
    var first := Base32.FirstByteOf(i);
    if i == 52 {
      BoundaryBits(qs, ps);
      NibbleChangeDetected(bs, cs);
    } else if i > 52 {
      StoredChangeDetected(bs, cs);
    } else if i % 8 == 3 {
      MiddleBits(qs, ps, i / 8);
      if i == 51 {
        LateChangeDetected(bs, cs);
      } else {
        StraddlingChangeDetected(bs, cs, first);
      }
    } else {
      assert bs[first] != cs[first] || bs[first + 1] != cs[first + 1];
      DataChangeDetected(bs, cs, first);
    }
  }

  /** Two texts that differ at most in two neighbouring characters, and there by more than letter case,
      never both carry their checksum: neither a wrong character nor two swapped ones go unnoticed,
      also where a character straddles the payload and the stored checksum. */
  lemma NeighbouringTypoDetected(s: string, t: string, i: nat)
    requires |s| == |t| == 56 && i <= 54 && Base32.IsBase32(s) && Base32.IsBase32(t)
    requires forall j :: 0 <= j < 56 && j != i && j != i + 1 ==> s[j] == t[j]
    requires UpperChar(s[i]) != UpperChar(t[i]) || UpperChar(s[i + 1]) != UpperChar(t[i + 1])
    requires |Base32.Decode(s)| == 35 && ChecksumOk(Base32.Decode(s))
    ensures |Base32.Decode(t)| == 35 && !ChecksumOk(Base32.Decode(t))
  {
    hide ChecksumOk, Base32.Quintet, Base32.Pack, UpperChar, Base32.IsBase32Char;
    var qs, ps := Base32.Quintets(s), Base32.Quintets(t);
    if qs == ps {
      assert qs[i] == ps[i] && qs[i + 1] == ps[i + 1];
      Base32.SameQuintet(s[i], t[i]);
      Base32.SameQuintet(s[i + 1], t[i + 1]);
      assert false;
    } else {
      NeighboursBreakChecksum(qs, ps, i);
    }
  }

  /** Two neighbouring wrong characters never turn an account address into another. */
  lemma NeighbouringTypoNeverAccount(s: string, i: nat, c: char, d: char)
    requires Parse(s).Some? && Parse(s).value.0 == Account && i + 1 < |s|
    requires UpperChar(c) != UpperChar(s[i]) || UpperChar(d) != UpperChar(s[i + 1])
    ensures var t := s[i := c][i + 1 := d]; !(Parse(t).Some? && Parse(t).value.0 == Account)
  {
    hide ChecksumOk, Base32.Decode, LengthOk, UpperChar, Base32.IsBase32Char;
    AccountTextSize(s);
    var t := s[i := c][i + 1 := d];
    if Base32.IsBase32(t) {
      NeighbouringTypoDetected(s, t, i);
    }
  }

  /** One wrong character never turns an account address into another account address. */
  lemma SingleTypoNeverAccount(s: string, i: nat, c: char)
    requires Parse(s).Some? && Parse(s).value.0 == Account
    requires i < |s| && UpperChar(c) != UpperChar(s[i])
    ensures !(Parse(s[i := c]).Some? && Parse(s[i := c]).value.0 == Account)
  {
    hide Parse, UpperChar;
    AccountTextSize(s);
    if i < 55 {
      assert s[i := c][i + 1 := s[i + 1]] == s[i := c];
      NeighbouringTypoNeverAccount(s, i, c, s[i + 1]);
    } else {
      assert s[54 := s[54]][55 := c] == s[55 := c];
      NeighbouringTypoNeverAccount(s, 54, s[54], c);
    }
  }

  // ------------------------------------------------------------ three wrong characters

  function Flip(q: bv8, x: bv8): bv8 {
    q ^ x
  }

  /** A character whose five bits differ from those of `c` in `x`. */
  function FlippedChar(c: char, x: bv8): char
    requires x < 32
  {
    FlippedBits(Base32.Quintet(c), x);
    Base32.CharOf(Flip(Base32.Quintet(c), x))
  }

  lemma FlippedBits(q: bv8, x: bv8)
    requires q < 32 && x < 32
    ensures Flip(q, x) < 32 && (x != 0 ==> Flip(q, x) != q)
  {
  }

  lemma FlippedQuintet(c: char, x: bv8)
    requires Base32.IsBase32Char(c) && 0 < x < 32
    ensures var d := FlippedChar(c, x);
            Base32.IsBase32Char(d) && Base32.Quintet(d) == Flip(Base32.Quintet(c), x) && UpperChar(d) != UpperChar(c)
  {
    hide Base32.Quintet, Base32.CharOf, UpperChar, Flip, Base32.IsBase32Char;
    var q := Base32.Quintet(c);
    FlippedBits(q, x);
    Base32.QuintetOfChar(Flip(q, x));
    Base32.QuintetIgnoresCase(c, FlippedChar(c, x));
  }

  /** Characters 50, 51 and 52 replaced so that their bits change by 01000, 11000 and 10101. */
  function EscapingText(s: string): (t: string)
    requires |s| == 56
    ensures |t| == 56
  {
    s[50 := FlippedChar(s[50], 8)][51 := FlippedChar(s[51], 24)][52 := FlippedChar(s[52], 21)]
  }

  predicate IsEscape(qs: seq<bv8>, ps: seq<bv8>)
    requires |qs| == |ps| == 56
  {
    && (forall j :: 0 <= j < 56 && (j < 50 || 52 < j) ==> qs[j] == ps[j])
    && ps[50] == Flip(qs[50], 8) && ps[51] == Flip(qs[51], 24) && ps[52] == Flip(qs[52], 21)
  }

  lemma EscapingTextFlips(s: string)
    requires |s| == 56 && Base32.IsBase32(s)
    ensures var t := EscapingText(s);
            && Base32.IsBase32(t) && IsEscape(Base32.Quintets(s), Base32.Quintets(t))
            && (forall j :: 0 <= j < 56 && (j < 50 || 52 < j) ==> t[j] == s[j])
            && UpperChar(t[50]) != UpperChar(s[50]) && UpperChar(t[51]) != UpperChar(s[51]) && UpperChar(t[52]) != UpperChar(s[52])
  {
    hide FlippedChar, Flip, Base32.Quintet, Base32.IsBase32Char, UpperChar;
    FlippedQuintet(s[50], 8);
    FlippedQuintet(s[51], 24);
    FlippedQuintet(s[52], 21);
  }

  lemma EscapingQuintets(qs: seq<bv8>, ps: seq<bv8>)
    requires Base32.IsQuintets(qs) && Base32.IsQuintets(ps) && |qs| == |ps| == 56 && IsEscape(qs, ps)
    ensures var bs, cs := Base32.Pack(qs), Base32.Pack(ps);
            && |bs| == |cs| == 35
            && (forall k :: 0 <= k < 35 && (k < 31 || 33 < k) ==> bs[k] == cs[k])
            && Difference(bs[31], cs[31]) == 0x11 && Difference(bs[32], cs[32]) == 0x8A && Difference(bs[33], cs[33]) == 0x80
  {
    hide Base32.ByteAt, Base32.Byte0, Base32.Byte1, Base32.Byte2, Base32.Byte3, Base32.Byte4, Difference, Flip;
    EscapingBytes(qs[49], qs[50], qs[51], qs[52], qs[53], qs[54]);
    FlippedBits(qs[50], 8);
    Base32.ChangeIsLocal(qs, ps, 50, 3);
    Base32.BytesOfGroup(qs, 6);
    Base32.BytesOfGroup(ps, 6);
  }

  lemma EscapingBytes(b: bv8, c: bv8, d: bv8, e: bv8, f: bv8, g: bv8)
    requires b < 32 && c < 32 && d < 32 && e < 32 && f < 32 && g < 32
    ensures Difference(Base32.Byte1(b, c, d), Base32.Byte1(b, Flip(c, 8), Flip(d, 24))) == 0x11
    ensures Difference(Base32.Byte2(d, e), Base32.Byte2(Flip(d, 24), Flip(e, 21))) == 0x8A
    ensures Difference(Base32.Byte3(e, f, g), Base32.Byte3(Flip(e, 21), f, g)) == 0x80
  {
  }

  /** Two is the most: every account address has another one that differs from it in three adjacent
      characters. */
  lemma ThreeCharactersCanEscape(s: string)
    requires Parse(s).Some? && Parse(s).value.0 == Account
    ensures |s| == 56
    ensures var t := EscapingText(s);
            && Parse(t).Some? && Parse(t).value.0 == Account && Parse(t).value.1 != Parse(s).value.1
            && (forall j :: 0 <= j < 56 && (j < 50 || 52 < j) ==> t[j] == s[j])
            && UpperChar(t[50]) != UpperChar(s[50]) && UpperChar(t[51]) != UpperChar(s[51]) && UpperChar(t[52]) != UpperChar(s[52])
  {
    AccountTextSize(s);
    EscapingTextFlips(s);
    hide EscapingText, UpperChar, Base32.Pack, Base32.IsBase32, Base32.Quintets, ChecksumOk, IsEscape, IsCanonicalText;
    var t := EscapingText(s);
    var bs, cs := Base32.Decode(s), Base32.Decode(t);
    EscapingQuintets(Base32.Quintets(s), Base32.Quintets(t));
    EscapingChecksum(bs, cs);
    FullGroups(t);
    assert bs[1..33][30] != cs[1..33][30];
  }

  lemma EscapingChecksum(bs: seq<bv8>, cs: seq<bv8>)
    requires |bs| == |cs| == 35 && ChecksumOk(bs)
    requires forall k :: 0 <= k < 35 && (k < 31 || 33 < k) ==> bs[k] == cs[k]
    requires Difference(bs[31], cs[31]) == 0x11 && Difference(bs[32], cs[32]) == 0x8A && Difference(bs[33], cs[33]) == 0x80
    ensures ChecksumOk(cs) && bs[31] != cs[31] && bs[0] == cs[0]
  {
    hide Crc, Pack, Feed, Difference;
    assert bs[..31] == cs[..31];
    LastPair(bs);
    LastPair(cs);
    NoDifference(bs[31], cs[31]);
    EscapingDifference(Crc(bs[..31]), bs[31], bs[32], cs[31], cs[32], bs[34], bs[33], cs[33]);
  }
}
