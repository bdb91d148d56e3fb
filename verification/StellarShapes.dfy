/** What the address check of the Stellar rail says of every text (`patala-stellar/src/destination.rs`):
    each verdict, each cause and each explanation, stated by the shape of the text. */
module StellarShapes {
  import opened Prelude
  import opened Text
  import opened Destination
  import opened ChainShapes
  import opened StrKey
  import opened StellarDestination
  import Base32
  import Base58

  // ------------------------------------------------------------ the shapes

  ghost predicate IsBase58Text(s: string) {
    forall i: nat :: i < |s| ==> Base58.IsBase58Char(s[i])
  }

  /** The texts taken for an address of another chain. */
  ghost predicate HasShape(s: string, what: OtherChain) {
    match what
    case Solana => IsSolanaText(s)
    case LegacyBitcoin => IsBase58Text(s) && 26 <= |s| <= 35 && (s[0] == '1' || s[0] == '3')
    case Bech32Bitcoin => IsBech32Text(s) && !IsSolanaText(s)
    case HexAddress(Ethereum) => IsHexText(s, 40)
    case HexAddress(SuiOrAptos) => IsHexText(s, 64)
  }

  /** 43 or 44 characters of base58. */
  ghost predicate IsSolanaText(s: string) {
    IsBase58Text(s) && (|s| == 43 || |s| == 44)
  }

  /** Base32 in either letter case. */
  ghost predicate IsBase32Text(s: string) {
    forall i: nat :: i < |s| ==> 'A' <= s[i] <= 'Z' || 'a' <= s[i] <= 'z' || '2' <= s[i] <= '7'
  }

  /** A secret seed by its shape, in either letter case. */
  ghost predicate IsSeedText(s: string) {
    |s| == 56 && (s[0] == 'S' || s[0] == 's') && IsBase32Text(s)
  }

  lemma Base32TextIff(s: string)
    ensures IsBase32Text(s) <==> Base32.IsBase32(s)
  {
  }

  lemma SeedTextIff(s: string)
    ensures IsSeedText(s) <==> Base32.IsBase32(s) && |s| == 56 && (s[0] == 'S' || s[0] == 's')
  {
    Base32TextIff(s);
  }

  lemma Base58Plain(s: string)
    requires Base58.IsBase58(s)
    ensures ByteLen(s) == |s| && (s != "" ==> IsPlain(s))
  {
    hide IsPlain;
    AsciiByteLen(s);
    if s != "" {
      PlainEnds(s);
    }
  }

  lemma Bech32Facts(s: string)
    ensures IsBech32Shape(s) <==> IsBech32Text(s)
    ensures IsBech32Text(s) ==> IsPlain(s) && ByteLen(s) == |s| && (s[0] == 'b' || s[0] == 't')
  {
    hide IsBech32Text, IsBech32Shape, ByteLen, IsPlain;
    Bech32Iff(s);
    if IsBech32Text(s) {
      Bech32Plain(s);
      PlainEnds(s);
    }
  }

  lemma HexFacts(s: string, chain: HexChain)
    ensures HexShape(s) == Some(chain) <==> IsHexText(s, HexDigits(chain))
    ensures HexShape(s) == Some(chain) ==> IsPlain(s) && s[0] == '0'
  {
    hide HexShape, IsHexText, IsPlain;
    HexShapeIff(s, chain);
    if IsHexText(s, HexDigits(chain)) {
      HexPlain(s, HexDigits(chain));
      PlainEnds(s);
    }
  }

  /** A text is taken for another chain's address if and only if it has that shape. */
  lemma ForeignIff(s: string, what: OtherChain)
    ensures ForeignFormat(s) == Some(what) <==> HasShape(s, what)
    ensures ForeignFormat(s) == Some(what) ==> IsPlain(s) && (|s| == 56 ==> s[0] != 'S' && s[0] != 's')
  {
    hide ByteLen, IsBech32Shape, IsBech32Text, HexShape, IsHexText, IsPlain;
    assert IsBase58Text(s) <==> Base58.IsBase58(s);
    if Base58.IsBase58(s) {
      Base58Plain(s);
    }
    Bech32Facts(s);
    HexFacts(s, Ethereum);
    HexFacts(s, SuiOrAptos);
  }

  // ------------------------------------------------------------ causes and explanations

  /** The text is examined as a StrKey: nothing before the decoder spoke. */
  ghost predicate IsExamined(s: string) {
    IsPlain(s) && !IsSeedText(s) && forall what: OtherChain :: !HasShape(s, what)
  }

  /** The length a text is held to, by the letter it starts with. */
  ghost predicate Promises(s: string, length: nat) {
    s != "" && ((s[0] == 'M' && length == 69)
             || (length == 56 && (s[0] == 'G' || s[0] == 'C' || s[0] == 'S' || s[0] == 'T' || s[0] == 'X')))
  }

  /** The first character that is neither a letter nor a digit from 2 to 7. */
  ghost predicate IsFirstBad(s: string, c: char) {
    exists i: nat :: i < |s| && s[i] == c && !IsBase32Text([c]) && IsBase32Text(s[..i])
  }

  /** The second character is one of the first four letters, in upper case. */
  ghost predicate HasVersionLetter(s: string) {
    |s| > 1 && (s[1] == 'A' || s[1] == 'B' || s[1] == 'C' || s[1] == 'D')
  }

  /** Which explanation a refused text gets. */
  ghost predicate Explains(s: string, length: nat, why: Explanation) {
    match why
    case NotBase32(bad) => IsFirstBad(s, bad)
    case WrongLength => IsBase32Text(s) && |s| != length
    case ChecksumFailed => IsBase32Text(s) && |s| == length && HasVersionLetter(s)
    case NotAVersionByte => IsBase32Text(s) && |s| == length && !HasVersionLetter(s)
  }

  lemma {:induction false} FirstBadIff(s: string, c: char)
    ensures FirstNonBase32(s) == Some(c) <==> IsFirstBad(s, c)
  {
    if s != "" {
      FirstBadIff(s[1..], c);
      OneCharacter(s[0]);
      hide Base32.IsBase32Char;
      hide IsBase32Text;
      if Base32.IsBase32Char(s[0]) {
        if IsFirstBad(s, c) {
          var i: nat :| i < |s| && s[i] == c && !IsBase32Text([c]) && IsBase32Text(s[..i]);
          assert i > 0;
          TextTail(s[..i]);
          assert s[..i][1..] == s[1..][..i - 1] && s[1..][i - 1] == c;
        }
        if IsFirstBad(s[1..], c) {
          var i: nat :| i < |s[1..]| && s[1..][i] == c && !IsBase32Text([c]) && IsBase32Text(s[1..][..i]);
          TextTail(s[..i + 1]);
          assert s[..i + 1][1..] == s[1..][..i] && s[i + 1] == c;
        }
      } else {
        assert s[..0] == "" && IsBase32Text("") by { EmptyText(); }
        if IsFirstBad(s, c) {
          var i: nat :| i < |s| && s[i] == c && !IsBase32Text([c]) && IsBase32Text(s[..i]);
          if i > 0 {
            TextTail(s[..i]);
          }
        }
      }
    }
  }

  lemma OneCharacter(c: char)
    ensures IsBase32Text([c]) <==> Base32.IsBase32Char(c)
  {
    assert [c][0] == c;
  }

  lemma EmptyText()
    ensures IsBase32Text("")
  {
  }

  lemma TextTail(s: string)
    requires s != ""
    ensures IsBase32Text(s) <==> IsBase32Text([s[0]]) && IsBase32Text(s[1..])
  {
    assert s == [s[0]] + s[1..];
    Base32TextIff(s);
    Base32TextIff([s[0]]);
    Base32TextIff(s[1..]);
    hide IsBase32Text, Base32.IsBase32Char;
    if Base32.IsBase32([s[0]]) && Base32.IsBase32(s[1..]) {
      assert forall i :: 0 < i < |s| ==> s[i] == s[1..][i - 1];
      assert Base32.IsBase32Char([s[0]][0]);
    }
    if Base32.IsBase32(s) {
      assert Base32.IsBase32Char(s[0]);
    }
  }

  lemma ExplainIff(s: string, length: nat, why: Explanation)
    requires length > 1
    ensures Explain(s, length) == why <==> Explains(s, length, why)
  {
    hide IsFirstBad, FirstNonBase32, ByteLen;
    Base32TextIff(s);
    if Base32.IsBase32(s) {
      Base32IsPlain(s);
    }
    forall c: char
      ensures FirstNonBase32(s) == Some(c) <==> IsFirstBad(s, c)
    {
      FirstBadIff(s, c);
    }
  }

  /** Why a text is refused or accepted. */
  ghost predicate Warrants(s: string, onPoint: seq<bv8> -> bool, c: Cause) {
    match c
    case Empty => IsBlank(s)
    case Whitespace => !IsBlank(s) && !IsPlain(s)
    case Disclosed => IsSeedText(s)
    case Elsewhere(what) => HasShape(s, what)
    case NotStellar => IsExamined(s) && Parse(s).None? && forall length: nat :: !Promises(s, length)
    case Rejected(why) => IsExamined(s) && Parse(s).None? && exists length: nat :: Promises(s, length) && Explains(s, length, why)
    case NotAPoint => exists key: seq<bv8> :: |key| == 32 && !onPoint(key) && SpellsKey(s, Account, key)
    case Wallet => exists key: seq<bv8> :: |key| == 32 && onPoint(key) && SpellsKey(s, Account, key)
    case ContractAddress => exists key: seq<bv8> :: |key| == 32 && SpellsKey(s, Contract, key)
    case MuxedAccount => exists payload: seq<bv8> :: Parse(s) == Some((Muxed, payload))
    case SignerKey =>
      || (exists key: seq<bv8> :: |key| == 32 && (SpellsKey(s, PreAuthTx, key) || SpellsKey(s, HashX, key)))
      || (exists payload: seq<bv8> :: Parse(s) == Some((SignedPayload, payload)))
  }

  /** The text is the StrKey of this kind and payload in some letter case. */
  ghost predicate SpellsKey(s: string, kind: Kind, key: seq<bv8>)
    requires |key| == 32
  {
    Base32.IsBase32(s) && Base32.Upper(s) == EncodeKey(kind, key)
  }

  lemma PromisesIff(s: string, length: nat)
    ensures ExpectedLength(s) == Some(length) <==> Promises(s, length)
  {
  }

  /** The guards before the decoder. */
  lemma Guards(s: string, onPoint: seq<bv8> -> bool)
    ensures Diagnose(s, onPoint) == Empty <==> IsBlank(s)
    ensures Diagnose(s, onPoint) == Whitespace <==> !IsBlank(s) && !IsPlain(s)
    ensures Diagnose(s, onPoint).Elsewhere? <==> IsPlain(s) && !IsSeedText(s) && ForeignFormat(s).Some?
    ensures Diagnose(s, onPoint).Elsewhere? ==> Diagnose(s, onPoint) == Elsewhere(ForeignFormat(s).value)
  {
    PlainIff(s);
    BlankIff(s);
    Base32TextIff(s);
    if Base32.IsBase32(s) {
      Base32IsPlain(s);
    }
    hide Trim, IsBlank, IsPlain, IsBase32Text, ByteLen, Base32.IsBase32, ForeignFormat, Parse, ExpectedLength, Explain;
  }

  lemma ExaminedIff(s: string)
    ensures IsExamined(s) <==> IsPlain(s) && !IsSeedText(s) && ForeignFormat(s).None?
  {
    hide IsPlain, IsSeedText, ForeignFormat, HasShape;
    forall what: OtherChain
      ensures ForeignFormat(s) == Some(what) <==> HasShape(s, what)
    {
      ForeignIff(s, what);
    }
    if ForeignFormat(s).Some? {
      assert HasShape(s, ForeignFormat(s).value);
    }
  }

  /** A StrKey that starts like a seed is a seed. */
  lemma SeedLetter(s: string)
    requires Parse(s).Some? && (s[0] == 'S' || s[0] == 's')
    ensures Parse(s).value.0 == SecretSeed
  {
    ParsedLength(s);
    FirstByte(s);
    LetterS(s[0]);
    SeedVersion(Base32.Quintet(s[1]));
    hide LengthOk, ChecksumOk, Base32.Quintet, Base32.IsBase32, KindOf, Base32.Byte0, Base32.Decode;
  }

  /** The first two characters hold the version byte. */
  lemma FirstByte(s: string)
    requires Base32.IsBase32(s) && |s| >= 56
    ensures |Base32.Decode(s)| > 0 && Base32.Decode(s)[0] == Base32.Byte0(Base32.Quintet(s[0]), Base32.Quintet(s[1]))
  {
    hide Base32.Quintet, Base32.Byte0;
  }

  lemma LetterS(c: char)
    requires c == 'S' || c == 's'
    ensures Base32.Quintet(c) == 18
  {
  }

  lemma SeedVersion(b: bv8)
    requires b < 32
    ensures var k := KindOf(Base32.Byte0(18, b)); k.None? || k == Some(SecretSeed)
  {
  }

  /** What parses is judged by its kind alone. */
  lemma ParsedDiagnosis(s: string, onPoint: seq<bv8> -> bool)
    requires Parse(s).Some?
    ensures var (kind, payload) := Parse(s).value;
            Diagnose(s, onPoint) == match kind
              case Account => if onPoint(payload) then Wallet else NotAPoint
              case Muxed => MuxedAccount
              case Contract => ContractAddress
              case SecretSeed => Disclosed
              case PreAuthTx => SignerKey
              case HashX => SignerKey
              case SignedPayload => SignerKey
  {
    ParsedLength(s);
    NoForeignShape(s);
    Base32IsPlain(s);
    if s[0] == 'S' || s[0] == 's' {
      SeedLetter(s);
    }
    hide Parse, Trim, ForeignFormat, ByteLen, Base32.IsBase32;
  }

  lemma UnparsedDiagnosis(s: string, onPoint: seq<bv8> -> bool)
    requires IsExamined(s) && Parse(s).None?
    ensures Diagnose(s, onPoint) == match ExpectedLength(s)
                                    case None => NotStellar
                                    case Some(length) => Rejected(Explain(s, length))
  {
    ExaminedIff(s);
    PlainIff(s);
    Base32TextIff(s);
    hide Parse, Trim, ForeignFormat, IsBase32Text, Base32.IsBase32, ExpectedLength, Explain, IsPlain;
    AsciiSeed(s);
  }

  lemma AsciiSeed(s: string)
    ensures Base32.IsBase32(s) ==> ByteLen(s) == |s|
  {
    if Base32.IsBase32(s) {
      Base32IsPlain(s);
    }
  }

  lemma KeyPayload(s: string)
    requires Parse(s).Some? && HoldsKey(Parse(s).value.0)
    ensures |Parse(s).value.1| == 32
  {
    hide Base32.Decode, ChecksumOk, Base32.IsBase32, IsCanonicalText;
  }

  lemma KeyIff(s: string, kind: Kind, key: seq<bv8>)
    requires |key| == 32 && HoldsKey(kind)
    ensures Parse(s) == Some((kind, key)) <==> SpellsKey(s, kind, key)
  {
    hide Parse, EncodeKey, Base32.IsBase32;
    ParseKeyIff(s, kind, key);
  }

  lemma ParsedWarrant(s: string, onPoint: seq<bv8> -> bool)
    requires Parse(s).Some?
    ensures Warrants(s, onPoint, Diagnose(s, onPoint))
  {
    hide Parse, Diagnose, SpellsKey, IsSeedText, Base32.IsBase32;
    ParsedDiagnosis(s, onPoint);
    var (kind, payload) := Parse(s).value;
    if kind == SecretSeed {
      SeedStart(s);
      SeedTextIff(s);
    } else if HoldsKey(kind) {
      KeyPayload(s);
      KeyIff(s, kind, payload);
    }
  }

  /** Every text is diagnosed with a cause it warrants. */
  lemma DiagnosisIsWarranted(s: string, onPoint: seq<bv8> -> bool)
    ensures Warrants(s, onPoint, Diagnose(s, onPoint))
  {
    hide Parse, Diagnose, IsSeedText, HasShape, ForeignFormat, IsPlain, IsBlank, Base32.IsBase32, IsExamined, Explains, Promises, Explain, ExpectedLength;
    if Parse(s).Some? {
      ParsedWarrant(s, onPoint);
    } else {
      Guards(s, onPoint);
      ExaminedIff(s);
      DisclosedIff(s, onPoint);
      SeedTextIff(s);
      if ForeignFormat(s).Some? {
        ForeignIff(s, ForeignFormat(s).value);
      }
      if IsExamined(s) {
        UnparsedWarrant(s, onPoint);
      }
    }
  }

  lemma UnparsedWarrant(s: string, onPoint: seq<bv8> -> bool)
    requires IsExamined(s) && Parse(s).None?
    ensures Warrants(s, onPoint, Diagnose(s, onPoint))
  {
    hide Parse, Diagnose, IsExamined, Promises, ExpectedLength, Explain, Explains;
    UnparsedDiagnosis(s, onPoint);
    forall length: nat
      ensures ExpectedLength(s) == Some(length) <==> Promises(s, length)
    {
      PromisesIff(s, length);
    }
    var expected := ExpectedLength(s);
    if expected.Some? {
      ExpectedIsLong(s);
      ExplainIff(s, expected.value, Explain(s, expected.value));
    }
  }

  lemma ExpectedIsLong(s: string)
    ensures ExpectedLength(s).Some? ==> ExpectedLength(s).value > 1
  {
  }

  lemma ShapeDecides(s: string, onPoint: seq<bv8> -> bool, what: OtherChain)
    requires HasShape(s, what)
    ensures Diagnose(s, onPoint) == Elsewhere(what)
  {
    hide Diagnose, HasShape, ForeignFormat, IsPlain, IsBase32Text;
    ForeignIff(s, what);
    Guards(s, onPoint);
  }

  lemma RejectionDecides(s: string, onPoint: seq<bv8> -> bool, why: Explanation, length: nat)
    requires IsExamined(s) && Parse(s).None? && Promises(s, length) && Explains(s, length, why)
    ensures Diagnose(s, onPoint) == Rejected(why)
  {
    hide Parse, Diagnose, IsExamined, Promises, ExpectedLength, Explain, Explains;
    UnparsedDiagnosis(s, onPoint);
    PromisesIff(s, length);
    ExpectedIsLong(s);
    ExplainIff(s, length, why);
  }

  lemma KeyDecides(s: string, onPoint: seq<bv8> -> bool, kind: Kind, key: seq<bv8>)
    requires |key| == 32 && HoldsKey(kind) && SpellsKey(s, kind, key)
    ensures Diagnose(s, onPoint) == match kind
              case Account => if onPoint(key) then Wallet else NotAPoint
              case Contract => ContractAddress
              case SecretSeed => Disclosed
              case _ => SignerKey
  {
    hide Parse, Diagnose, SpellsKey;
    KeyIff(s, kind, key);
    ParsedDiagnosis(s, onPoint);
  }

  /** No text warrants two causes. */
  lemma WarrantDecides(s: string, onPoint: seq<bv8> -> bool, c: Cause)
    requires Warrants(s, onPoint, c)
    ensures Diagnose(s, onPoint) == c
  {
    hide Parse, Diagnose, IsSeedText, HasShape, ForeignFormat, IsPlain, IsBlank, Base32.IsBase32, IsExamined, Explains, Promises, SpellsKey;
    match c
    case Empty => Guards(s, onPoint);
    case Whitespace => Guards(s, onPoint);
    case Disclosed =>
      SeedTextIff(s);
      DisclosedIff(s, onPoint);
    case Elsewhere(what) => ShapeDecides(s, onPoint, what);
    case NotStellar =>
      UnparsedDiagnosis(s, onPoint);
      if ExpectedLength(s).Some? {
        PromisesIff(s, ExpectedLength(s).value);
      }
    case Rejected(why) =>
      var length: nat :| Promises(s, length) && Explains(s, length, why);
      RejectionDecides(s, onPoint, why, length);
    case NotAPoint =>
      var key: seq<bv8> :| |key| == 32 && !onPoint(key) && SpellsKey(s, Account, key);
      KeyDecides(s, onPoint, Account, key);
    case Wallet =>
      var key: seq<bv8> :| |key| == 32 && onPoint(key) && SpellsKey(s, Account, key);
      KeyDecides(s, onPoint, Account, key);
    case ContractAddress =>
      var key: seq<bv8> :| |key| == 32 && SpellsKey(s, Contract, key);
      KeyDecides(s, onPoint, Contract, key);
    case MuxedAccount => ParsedDiagnosis(s, onPoint);
    case SignerKey => SignerDecides(s, onPoint);
  }

  lemma SignerDecides(s: string, onPoint: seq<bv8> -> bool)
    requires Warrants(s, onPoint, SignerKey)
    ensures Diagnose(s, onPoint) == SignerKey
  {
    hide Parse, Diagnose, SpellsKey;
    if exists payload: seq<bv8> :: Parse(s) == Some((SignedPayload, payload)) {
      ParsedDiagnosis(s, onPoint);
    } else {
      var key: seq<bv8> :| |key| == 32 && (SpellsKey(s, PreAuthTx, key) || SpellsKey(s, HashX, key));
      KeyDecides(s, onPoint, if SpellsKey(s, PreAuthTx, key) then PreAuthTx else HashX, key);
    }
  }

  /** Every cause and every explanation, for every text: it is given if and only if the text warrants it. */
  lemma DiagnoseIff(s: string, onPoint: seq<bv8> -> bool, c: Cause)
    ensures Diagnose(s, onPoint) == c <==> Warrants(s, onPoint, c)
  {
    hide Diagnose, Warrants;
    DiagnosisIsWarranted(s, onPoint);
    if Warrants(s, onPoint, c) {
      WarrantDecides(s, onPoint, c);
    }
  }

  /** The verdict is WrongNetwork if and only if the text has the shape of another chain's address. */
  lemma WrongNetworkIff(s: string, onPoint: seq<bv8> -> bool)
    ensures Validate(s, onPoint) == WrongNetwork <==> exists what: OtherChain :: HasShape(s, what)
  {
    hide Diagnose, HasShape;
    forall what: OtherChain
      ensures Diagnose(s, onPoint) == Elsewhere(what) <==> HasShape(s, what)
    {
      DiagnoseIff(s, onPoint, Elsewhere(what));
    }
    var c := Diagnose(s, onPoint);
    if c.Elsewhere? {
      assert HasShape(s, c.what);
    }
  }
}
