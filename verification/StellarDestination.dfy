/** Offline validation of a Stellar address (`patala-stellar/src/destination.rs`): one wrong
    character is never accepted, no foreign shape shadows a StrKey, and exactly which of the
    explanations given for a rejection are true. */
module StellarDestination {
  import opened Prelude
  import opened Text
  import opened Destination
  import opened ChainShapes
  import opened StrKey
  import Base32
  import Base58

  datatype OtherChain = Solana | LegacyBitcoin | Bech32Bitcoin | HexAddress(chain: HexChain)

  /** `foreign_format`: shape only, no decoding. */
  function ForeignFormat(dest: string): Option<OtherChain> {
    var len := ByteLen(dest);
    if (len == 43 || len == 44) && Base58.IsBase58(dest) then Some(Solana)
    else if 26 <= len <= 35 && Base58.IsBase58(dest) && dest != "" && (dest[0] == '1' || dest[0] == '3') then Some(LegacyBitcoin)
    else if IsBech32Shape(dest) then Some(Bech32Bitcoin)
    else match HexShape(dest)
      case None => None
      case Some(chain) => Some(HexAddress(chain))
  }

  /** The sentence chosen for a text the decoder refused. */
  datatype Explanation = NotBase32(bad: char) | WrongLength | ChecksumFailed | NotAVersionByte

  function FirstNonBase32(s: string): (r: Option<char>)
    ensures r.None? <==> Base32.IsBase32(s)
  {
    if s == "" then None
    else if !Base32.IsBase32Char(s[0]) then Some(s[0])
    else FirstNonBase32(s[1..])
  }

  /** `explain_rejection` */
  function Explain(dest: string, expectedLen: nat): Explanation {
    var bad := FirstNonBase32(dest);
    if bad.Some? then NotBase32(bad.value)
    else if ByteLen(dest) != expectedLen then WrongLength
    else if |dest| > 1 && 'A' <= dest[1] <= 'D' then ChecksumFailed
    else NotAVersionByte
  }

  /** The length expected of a text that starts like a StrKey; uppercase only. */
  function ExpectedLength(dest: string): Option<nat> {
    if dest == "" then None
    else if dest[0] in {'G', 'C', 'S', 'T', 'X'} then Some(56)
    else if dest[0] == 'M' then Some(69)
    else None
  }

  datatype Cause =
    | Empty | Whitespace | Disclosed | Elsewhere(what: OtherChain) | NotStellar | Rejected(why: Explanation)
    | NotAPoint | Wallet | MuxedAccount | ContractAddress | SignerKey

  function StatusOf(c: Cause): Status {
    match c
    case Empty => Malformed
    case Whitespace => Malformed
    case Disclosed => Malformed
    case Elsewhere(_) => WrongNetwork
    case NotStellar => Malformed
    case Rejected(_) => Malformed
    case NotAPoint => NotAWallet
    case Wallet => StructurallyValid
    case MuxedAccount => NotAWallet
    case ContractAddress => NotAWallet
    case SignerKey => NotAWallet
  }

  /** `validate`, guard by guard; `onPoint` says whether a key is a curve point. */
  function Diagnose(dest: string, onPoint: seq<bv8> -> bool): Cause {
    if Trim(dest) == "" then Empty
    else if Trim(dest) != dest then Whitespace
    else if (dest[0] == 'S' || dest[0] == 's') && ByteLen(dest) == 56 && Base32.IsBase32(dest) then Disclosed
    else if ForeignFormat(dest).Some? then Elsewhere(ForeignFormat(dest).value)
    else match Parse(dest)
      case None =>
        var expected := ExpectedLength(dest);
        if expected.None? then NotStellar else Rejected(Explain(dest, expected.value))
      case Some((kind, payload)) =>
        match kind
        case Account => if !onPoint(payload) then NotAPoint else Wallet
        case Muxed => MuxedAccount
        case Contract => ContractAddress
        case SecretSeed => Disclosed
        case _ => SignerKey
  }

  function Validate(dest: string, onPoint: seq<bv8> -> bool): Status {
    StatusOf(Diagnose(dest, onPoint))
  }

  // ------------------------------------------------------------ acceptance

  lemma Base32IsPlain(s: string)
    requires Base32.IsBase32(s)
    ensures ByteLen(s) == |s| && Trim(s) == s
  {
    AsciiByteLen(s);
    TrimFixed(s);
  }

  /** No foreign shape claims a text that parses as a StrKey. */
  lemma NoForeignShape(s: string)
    requires Parse(s).Some?
    ensures ForeignFormat(s).None?
  {
    hide Base32.Decode, ChecksumOk, Base32.Quintet;
    Base32IsPlain(s);
    ParsedLength(s);
    NoForeignPrefix(s);
    hide Parse, ByteLen, Base32.IsBase32, StripAny;
  }

  /** Every foreign prefix contains a 0 or a 1, which base32 does not have. */
  lemma NoForeignPrefix(s: string)
    requires Base32.IsBase32(s)
    ensures StripAny(s, ["0x", "0X"]).None?
    ensures StripAny(s, ["bc1", "tb1", "bcrt1"]).None?
  {
    assert !Base32.IsBase32Char("0x"[0]) && !Base32.IsBase32Char("0X"[0]);
    assert !Base32.IsBase32Char("bc1"[2]) && !Base32.IsBase32Char("tb1"[2]) && !Base32.IsBase32Char("bcrt1"[4]);
    NoPrefix(s, ["0x", "0X"]);
    NoPrefix(s, ["bc1", "tb1", "bcrt1"]);
  }

  lemma NoPrefix(s: string, prefixes: seq<string>)
    requires Base32.IsBase32(s)
    requires forall i :: 0 <= i < |prefixes| ==> !Base32.IsBase32(prefixes[i])
    ensures StripAny(s, prefixes).None?
  {
    if prefixes != [] {
      NotAPrefix(s, prefixes[0]);
      NoPrefix(s, prefixes[1..]);
    }
  }

  lemma NotAPrefix(s: string, p: string)
    requires Base32.IsBase32(s) && !Base32.IsBase32(p)
    ensures !(p <= s)
  {
    if |p| <= |s| {
      assert Base32.IsBase32(s[..|p|]);
    }
  }

  lemma ParsedLength(s: string)
    requires Parse(s).Some?
    ensures |s| >= 56
  {
    hide ChecksumOk, Base32.Quintet;
  }

  /** A text is structurally valid exactly when it is, in some letter case, the address of a
      key that is a curve point; in particular every such key's own address is accepted. */
  lemma StructurallyValidIff(s: string, onPoint: seq<bv8> -> bool)
    ensures Validate(s, onPoint) == StructurallyValid <==>
            exists key: seq<bv8> :: |key| == 32 && onPoint(key)
              && Base32.IsBase32(s) && Base32.Upper(s) == EncodeAccount(key)
  {
    hide EncodeAccount, ForeignFormat, Trim, ByteLen;
    if Validate(s, onPoint) == StructurallyValid {
      var key := Parse(s).value.1;
      AccountPayload(s);
      ParseAccountIff(s, key);
    }
    forall key: seq<bv8> | |key| == 32 && onPoint(key) && Base32.IsBase32(s) && Base32.Upper(s) == EncodeAccount(key)
      ensures Validate(s, onPoint) == StructurallyValid
    {
      ParseAccountIff(s, key);
      Accepted(s, onPoint);
    }
  }

  lemma AccountPayload(s: string)
    requires Parse(s).Some? && Parse(s).value.0 == Account
    ensures |Parse(s).value.1| == 32
  {
    hide Base32.Decode, ChecksumOk, Base32.IsBase32;
  }

  lemma Accepted(s: string, onPoint: seq<bv8> -> bool)
    requires Parse(s).Some? && Parse(s).value.0 == Account && onPoint(Parse(s).value.1)
    ensures Validate(s, onPoint) == StructurallyValid
  {
    hide ForeignFormat, ByteLen, ChecksumOk, LengthOk;
    AccountTextSize(s);
    NoForeignShape(s);
    Base32IsPlain(s);
    AccountStart(s);
  }

  /** An account text starts with G, in some letter case: the top five bits of version 48. */
  lemma AccountStart(s: string)
    requires |s| == 56 && Base32.IsBase32(s) && Base32.Decode(s)[0] == 48
    ensures UpperChar(s[0]) == 'G'
  {
    hide UpperChar, Base32.CharOf, Base32.UpperValue;
    var a, b := Base32.Quintet(s[0]), Base32.Quintet(s[1]);
    assert Base32.Byte0(a, b) == 48;
    TopBits(a, b);
    Base32.CharOfQuintet(s[0]);
    SixIsG();
  }

  lemma SixIsG()
    ensures Base32.CharOf(6) == 'G'
  {
  }

  lemma TopBits(a: bv8, b: bv8)
    requires a < 32 && b < 32
    ensures Base32.Byte0(a, b) == 48 ==> a == 6
  {
  }

  /** Take any accepted address and replace two neighbouring characters, at least one of them by
      anything but the same letter in the other case; the result is always refused. */
  lemma NeighbouringTypoRefused(s: string, i: nat, c: char, d: char, onPoint: seq<bv8> -> bool)
    requires Validate(s, onPoint) == StructurallyValid && i + 1 < |s|
    requires UpperChar(c) != UpperChar(s[i]) || UpperChar(d) != UpperChar(s[i + 1])
    ensures IsRefusal(Validate(s[i := c][i + 1 := d], onPoint))
  {
    hide ForeignFormat, Trim, ByteLen, Parse, UpperChar;
    NeighbouringTypoNeverAccount(s, i, c, d);
  }

  /** In particular two different neighbours swapped by mistake. */
  lemma SwapRefused(s: string, i: nat, onPoint: seq<bv8> -> bool)
    requires Validate(s, onPoint) == StructurallyValid && i + 1 < |s|
    requires UpperChar(s[i]) != UpperChar(s[i + 1])
    ensures IsRefusal(Validate(s[i := s[i + 1]][i + 1 := s[i]], onPoint))
  {
    hide Validate, UpperChar;
    NeighbouringTypoRefused(s, i, s[i + 1], s[i], onPoint);
  }

  /** Three neighbours are too many: every accepted address has a variant, different in characters 50,
      51 and 52, that is accepted too if its key is a curve point. */
  lemma ThreeNeighboursCanPass(s: string, onPoint: seq<bv8> -> bool)
    requires Validate(s, onPoint) == StructurallyValid
    ensures |s| == 56
    ensures var t := EscapingText(s);
            && UpperChar(t[50]) != UpperChar(s[50]) && UpperChar(t[51]) != UpperChar(s[51]) && UpperChar(t[52]) != UpperChar(s[52])
            && (forall j :: 0 <= j < 56 && (j < 50 || 52 < j) ==> t[j] == s[j])
            && Parse(t).Some? && (Validate(t, onPoint) == StructurallyValid <==> onPoint(Parse(t).value.1))
  {
    hide ForeignFormat, Trim, ByteLen, Parse, UpperChar, EscapingText;
    ThreeCharactersCanEscape(s);
    if onPoint(Parse(EscapingText(s)).value.1) {
      Accepted(EscapingText(s), onPoint);
    }
  }

  /** Single-typo safety: take any accepted address and replace one character by anything but
      the same letter in the other case; the result is always refused. */
  lemma SingleTypoRefused(s: string, i: nat, c: char, onPoint: seq<bv8> -> bool)
    requires Validate(s, onPoint) == StructurallyValid
    requires i < |s| && UpperChar(c) != UpperChar(s[i])
    ensures IsRefusal(Validate(s[i := c], onPoint))
  {
    hide ForeignFormat, Trim, ByteLen, Parse, UpperChar;
    SingleTypoNeverAccount(s, i, c);
  }

  /** A secret seed is reported as a disclosure whether or not its checksum survived: exactly
      the 56-character base32 texts that start with S. The later arm for a seed that parsed
      is unreachable, because the earlier test already caught it. */
  lemma DisclosedIff(s: string, onPoint: seq<bv8> -> bool)
    ensures Diagnose(s, onPoint) == Disclosed <==>
            Base32.IsBase32(s) && |s| == 56 && (s[0] == 'S' || s[0] == 's')
  {
    hide ForeignFormat, Base32.Decode, ChecksumOk, Base32.Quintet;
    if Base32.IsBase32(s) && s != "" {
      Base32IsPlain(s);
    }
    if Parse(s).Some? && Parse(s).value.0 == SecretSeed {
      SeedStart(s);
    }
    if (s != "" && (s[0] == 'S' || s[0] == 's')) && ByteLen(s) == 56 && Base32.IsBase32(s) {
      Base32IsPlain(s);
    }
  }

  lemma SeedStart(s: string)
    requires Parse(s).Some? && Parse(s).value.0 == SecretSeed
    ensures |s| == 56 && Base32.IsBase32(s) && (s[0] == 'S' || s[0] == 's')
  {
    hide UpperChar, Base32.CharOf, Base32.UpperValue, ChecksumOk, Base32.IsBase32Char, IsCanonicalText;
    SeedSize(s);
    var a, b := Base32.Quintet(s[0]), Base32.Quintet(s[1]);
    assert Base32.Byte0(a, b) == 144;
    SeedBits(a, b);
    Base32.CharOfQuintet(s[0]);
    EighteenIsS(s[0]);
  }

  lemma SeedSize(s: string)
    requires Parse(s).Some? && Parse(s).value.0 == SecretSeed
    ensures |s| == 56 && Base32.IsBase32(s) && Base32.Decode(s)[0] == 144
  {
    hide Base32.Decode, ChecksumOk, Base32.IsBase32, Base32.Quintet;
  }

  lemma SeedBits(a: bv8, b: bv8)
    requires a < 32 && b < 32
    ensures Base32.Byte0(a, b) == 144 ==> a == 18
  {
  }

  lemma EighteenIsS(c: char)
    ensures Base32.CharOf(18) == 'S'
    ensures UpperChar(c) == 'S' ==> c == 'S' || c == 's'
  {
  }

  // ------------------------------------------------------------ diagnosis

  predicate VersionKnown(s: string)
    requires |Base32.Decode(s)| >= 1
  {
    KindOf(Base32.Decode(s)[0]).Some?
  }

  /** The first two characters of a 56-character text determine its version byte. */
  lemma VersionOfText(s: string)
    requires |s| >= 2 && Base32.IsBase32(s)
    ensures |Base32.Decode(s)| >= 1
    ensures Base32.Decode(s)[0] == Base32.Byte0(Base32.Quintet(s[0]), Base32.Quintet(s[1]))
  {
  }

  /** After G, C, T, X or M the version byte is a known one exactly when the second character
      is A to D in some letter case, and it is then the one of that kind. */
  lemma SecondCharacterPinsVersion(s: string)
    requires |s| >= 2 && Base32.IsBase32(s) && s[0] in {'G', 'C', 'T', 'X', 'M'}
    ensures |Base32.Decode(s)| >= 1
    ensures VersionKnown(s) <==> 'A' <= UpperChar(s[1]) <= 'D'
    ensures VersionKnown(s) ==>
              KindOf(Base32.Decode(s)[0]).value ==
              match s[0] case 'G' => Account case 'C' => Contract case 'T' => PreAuthTx case 'X' => HashX case _ => Muxed
  {
    hide UpperChar, Base32.Decode;
    VersionOfText(s);
    LowQuintets(s[1]);
    FirstQuintets();
    VersionByte(Base32.Quintet(s[0]), Base32.Quintet(s[1]));
    hide Base32.Quintet, Base32.Byte0;
  }

  lemma FirstQuintets()
    ensures Base32.Quintet('G') == 6 && Base32.Quintet('C') == 2 && Base32.Quintet('T') == 19
    ensures Base32.Quintet('X') == 23 && Base32.Quintet('M') == 12
  {
  }

  lemma VersionByte(a: bv8, b: bv8)
    requires a < 32 && b < 32
    ensures b >= 4 ==> KindOf(Base32.Byte0(a, b)).None?
    ensures b < 4 ==> Base32.Byte0(a, b) == a * 8
  {
  }

  lemma LowQuintets(c: char)
    requires Base32.IsBase32Char(c)
    ensures Base32.Quintet(c) < 4 <==> 'A' <= UpperChar(c) <= 'D'
  {
  }

  /** When the checksum is blamed on a 56-character text, it is to blame: the alphabet, the
      length and the version byte are right and the CRC really differs. */
  lemma ChecksumBlameIsSound(s: string, onPoint: seq<bv8> -> bool)
    requires Diagnose(s, onPoint) == Rejected(ChecksumFailed) && s[0] != 'M'
    ensures Base32.IsBase32(s) && |s| == 56 && s[0] in {'G', 'C', 'T', 'X'}
    ensures VersionKnown(s) && LengthOk(s, KindOf(Base32.Decode(s)[0]).value)
    ensures !ChecksumOk(Base32.Decode(s))
  {
    hide Base32.Decode, ForeignFormat, Trim, ByteLen, KindOf, ChecksumOk, Base32.Quintet, UpperChar;
    assert Base32.IsBase32(s);
    Base32IsPlain(s);
    UpperOfUpper(s[1]);
    SecondCharacterPinsVersion(s);
    FullGroups(s);
  }

  lemma UpperOfUpper(c: char)
    requires 'A' <= c <= 'Z'
    ensures UpperChar(c) == c
  {
  }

  /** A muxed text with the one bit that no byte uses cleared, or set. */
  function ClearUnusedBit(s: string): (t: string)
    requires |s| == 69
    ensures |t| == 69
  {
    s[68 := Base32.CharOf(Base32.Quintet(s[68]) & 30)]
  }

  function SetUnusedBit(s: string): (t: string)
    requires |s| == 69
    ensures |t| == 69
  {
    s[68 := Base32.CharOf(Base32.Quintet(s[68]) | 1)]
  }

  lemma UnusedBit(s: string)
    requires |s| == 69 && Base32.IsBase32(s)
    ensures Base32.IsBase32(ClearUnusedBit(s)) && Base32.Decode(ClearUnusedBit(s)) == Base32.Decode(s)
    ensures Base32.IsBase32(SetUnusedBit(s)) && Base32.Decode(SetUnusedBit(s)) == Base32.Decode(s)
    ensures Base32.Quintet(ClearUnusedBit(s)[68]) & 1 == 0 && Base32.Quintet(SetUnusedBit(s)[68]) & 1 == 1
  {
    var q := Base32.Quintet(s[68]);
    HalvesAgree(q);
    hide Base32.Quintet, Base32.Decode, Base32.CharOf, Base32.IsBase32Char;
    Base32.QuintetOfChar(q & 30);
    Base32.QuintetOfChar(q | 1);
    UnusedBitInvisible(s, Base32.CharOf(q & 30));
    UnusedBitInvisible(s, Base32.CharOf(q | 1));
  }

  lemma HalvesAgree(q: bv8)
    requires q < 32
    ensures (q & 30) / 2 == q / 2 && (q | 1) / 2 == q / 2 && q & 30 < 32 && q | 1 < 32
    ensures (q & 30) & 1 == 0 && (q | 1) & 1 == 1
  {
  }

  /** On a 69-character muxed text the checksum is blamed only if the checksum is wrong or the
      unused bit is set, and it is to blame if and only if clearing that bit would not help. */
  lemma MuxedChecksumBlame(s: string, onPoint: seq<bv8> -> bool)
    requires Diagnose(s, onPoint) == Rejected(ChecksumFailed) && s[0] == 'M'
    ensures Base32.IsBase32(s) && |s| == 69 && |Base32.Decode(s)| == 43
    ensures VersionKnown(s)
    ensures !ChecksumOk(Base32.Decode(s)) || Base32.Quintet(s[68]) & 1 != 0
    ensures !ChecksumOk(Base32.Decode(s)) <==> Parse(ClearUnusedBit(s)).None?
  {
    hide Base32.Decode, ForeignFormat, Trim, ByteLen, KindOf, ChecksumOk, Base32.Quintet, UpperChar, ClearUnusedBit;
    assert Base32.IsBase32(s);
    Base32IsPlain(s);
    UpperOfUpper(s[1]);
    SecondCharacterPinsVersion(s);
    UnusedBit(s);
  }

  /** The false blame happens to every muxed address: set its unused bit, and a text whose checksum
      is right is told that its checksum is wrong. */
  lemma MuxedBlameCanBeWrong(payload: seq<bv8>, onPoint: seq<bv8> -> bool)
    requires |payload| == 40
    ensures var s := EncodeMuxed(payload);
            && Parse(s) == Some((Muxed, payload))
            && Diagnose(SetUnusedBit(s), onPoint) == Rejected(ChecksumFailed)
            && ChecksumOk(Base32.Decode(SetUnusedBit(s)))
  {
    var s := EncodeMuxed(payload);
    ParseEncodeMuxed(payload);
    MuxedText(payload);
    CheckedBytesCheck(96, payload);
    UnusedBit(s);
    var t := SetUnusedBit(s);
    assert t[0] == 'M' && 'A' <= t[1] <= 'D' && |t| == 69;
    hide SetUnusedBit, EncodeMuxed;
    SpoiledMuxed(t, onPoint);
  }

  lemma SpoiledMuxed(t: string, onPoint: seq<bv8> -> bool)
    requires Base32.IsBase32(t) && |t| == 69 && t[0] == 'M' && 'A' <= t[1] <= 'D' && Base32.Quintet(t[68]) & 1 == 1
    ensures Diagnose(t, onPoint) == Rejected(ChecksumFailed)
  {
    hide Base32.Decode, Base32.Quintet, ChecksumOk, KindOf, UpperChar;
    Base32IsPlain(t);
    NoForeignPrefix(t);
    hide ByteLen, Trim, Base32.IsBase32, StripAny;
    assert ForeignFormat(t).None?;
    assert Parse(t).None?;
    assert Explain(t, 69) == ChecksumFailed;
  }

  /** When the version byte is blamed instead, it is to blame if and only if the second
      character is not a lowercase a to d: the test on that character is case-sensitive while
      the decoder is not. */
  lemma VersionBlameIff(s: string, onPoint: seq<bv8> -> bool)
    requires Diagnose(s, onPoint) == Rejected(NotAVersionByte)
    ensures Base32.IsBase32(s) && |s| >= 2 && |Base32.Decode(s)| >= 1
    ensures !VersionKnown(s) <==> !('a' <= s[1] <= 'd')
  {
    hide Base32.Decode, ForeignFormat, Trim, ByteLen, KindOf, Parse, Base32.Quintet;
    assert Base32.IsBase32(s);
    Base32IsPlain(s);
    VersionOfText(s);
    SecondCharacterPinsVersion(s);
  }

  function Repeat(c: char, n: nat): (s: string)
    ensures |s| == n && forall i :: 0 <= i < n ==> s[i] == c
  {
    seq(n, i => c)
  }

  /** Every text of the right length and alphabet that starts with G and a lowercase a to d is so
      misjudged when its checksum is wrong. */
  lemma LowercaseSecondIsBlamed(t: string, onPoint: seq<bv8> -> bool)
    requires Base32.IsBase32(t) && |t| == 56 && t[0] == 'G' && 'a' <= t[1] <= 'd'
    requires |Base32.Decode(t)| == 35 && !ChecksumOk(Base32.Decode(t))
    ensures Diagnose(t, onPoint) == Rejected(NotAVersionByte) && VersionKnown(t)
  {
    hide Base32.Decode, Base32.Quintet, ChecksumOk, LengthOk, KindOf;
    Base32IsPlain(t);
    NoForeignPrefix(t);
    SecondCharacterPinsVersion(t);
    hide ByteLen, Trim, Base32.IsBase32, StripAny, UpperChar;
    assert ForeignFormat(t).None?;
    assert Parse(t).None?;
    assert Explain(t, 56) == NotAVersionByte;
  }

  /** Such a text: right alphabet, length and version byte, and a wrong checksum. */
  lemma VersionBlameCanBeWrong(onPoint: seq<bv8> -> bool)
    ensures var s := "Ga" + Repeat('A', 54);
            Diagnose(s, onPoint) == Rejected(NotAVersionByte) && VersionKnown(s) && !ChecksumOk(Base32.Decode(s))
  {
    var s := "Ga" + Repeat('A', 54);
    SampleIsBase32(s);
    ZeroAccountChecksum(s);
    hide Diagnose, VersionKnown, ChecksumOk, Base32.Decode;
    LowercaseSecondIsBlamed(s, onPoint);
  }

  lemma SampleIsBase32(s: string)
    requires s == "Ga" + Repeat('A', 54)
    ensures Base32.IsBase32(s) && s[0] == 'G' && s[1] == 'a'
  {
  }

  lemma ZeroAccountChecksum(s: string)
    requires s == "Ga" + Repeat('A', 54)
    ensures |Base32.Decode(s)| == 35 && !ChecksumOk(Base32.Decode(s))
  {
    var qs, bs := Base32.Quintets(s), Base32.Decode(s);
    QuintetsOfSample(s);
    SampleBytes(qs);
    hide Base32.Decode, Base32.Quintet, Crc16.Feed, Crc16.Crc;
    var zeros: seq<bv8> := seq(35, i => 0);
    ZerosCheck(zeros);
    DataChangeDetected(zeros, bs, 0);
  }

  lemma QuintetsOfSample(s: string)
    requires s == "Ga" + Repeat('A', 54)
    ensures |Base32.Quintets(s)| == 56
    ensures Base32.Quintets(s)[0] == 6 && forall i :: 0 < i < 56 ==> Base32.Quintets(s)[i] == 0
  {
    forall i | 0 < i < 56
      ensures s[i] == 'A' || s[i] == 'a'
    {
    }
    assert Base32.Quintet('A') == 0 && Base32.Quintet('a') == 0 && Base32.Quintet('G') == 6;
    hide Base32.Quintet;
  }

  lemma SampleBytes(qs: seq<bv8>)
    requires |qs| == 56 && qs[0] == 6 && forall i :: 0 < i < 56 ==> qs[i] == 0
    ensures |Base32.Pack(qs)| == 35 && Base32.Pack(qs)[0] == 48
    ensures forall j :: 0 < j < 35 ==> Base32.Pack(qs)[j] == 0
  {
    forall j | 0 < j < 35
      ensures Base32.Pack(qs)[j] == 0
    {
    }
  }

  lemma ZerosCheck(zeros: seq<bv8>)
    requires |zeros| == 35 && forall i :: 0 <= i < 35 ==> zeros[i] == 0
    ensures ChecksumOk(zeros)
  {
    ZerosCrc(zeros[..33]);
    assert Crc16.Pack(0, 0) == 0;
  }

  lemma {:induction false} ZerosCrc(zeros: seq<bv8>)
    requires forall i :: 0 <= i < |zeros| ==> zeros[i] == 0
    ensures Crc16.Crc(zeros) == 0
  {
    if zeros != [] {
      ZerosCrc(zeros[..|zeros| - 1]);
      assert Crc16.Feed(0, 0) == 0;
    }
  }
}
