/** What the address check of the Solana rail says of every text (`patala-solana/src/destination.rs`):
    each verdict and each cause, stated by the shape of the text alone. */
module SolanaShapes {
  import opened Prelude
  import opened Text
  import opened Destination
  import opened ChainShapes
  import opened SolanaDestination
  import Base58

  // ------------------------------------------------------------ the shapes

  /** Upper-case letters and the digits 2 to 7, starting with this letter. */
  ghost predicate IsStellarText(s: string, first: char) {
    s != "" && s[0] == first && forall i: nat :: i < |s| ==> 'A' <= s[i] <= 'Z' || '2' <= s[i] <= '7'
  }

  /** 26 to 35 characters of base58 for 25 bytes, starting with 1 or 3. */
  ghost predicate IsLegacyText(s: string) {
    26 <= |s| <= 35 && (s[0] == '1' || s[0] == '3') && exists bs: Bytes :: |bs| == 25 && s == Base58.Encode(bs)
  }

  /** The texts taken for an address of another chain. */
  ghost predicate HasShape(s: string, what: OtherChain) {
    match what
    case StellarAccount => IsStellarText(s, 'G') && |s| == 56
    case StellarContract => IsStellarText(s, 'C') && |s| == 56
    case StellarPreAuthTx => IsStellarText(s, 'T') && |s| == 56
    case StellarHashX => IsStellarText(s, 'X') && |s| == 56
    case StellarMuxed => IsStellarText(s, 'M') && |s| == 69
    case StellarSignedPayload => IsStellarText(s, 'P') && |s| >= 56
    case LegacyBitcoin => IsLegacyText(s)
    case Bech32Bitcoin => IsBech32Text(s) && |s| != 43 && |s| != 44
    case HexAddress(Ethereum) => IsHexText(s, 40)
    case HexAddress(SuiOrAptos) => IsHexText(s, 64)
  }

  /** A Stellar secret seed by its shape. */
  ghost predicate IsSeedText(s: string) {
    IsStellarText(s, 'S') && |s| == 56
  }

  ghost predicate HasForm(s: string, f: Foreign) {
    match f
    case StellarSecretSeed => IsSeedText(s)
    case OtherChain(what) => HasShape(s, what)
  }

  // ------------------------------------------------------------ the shapes are recognised

  lemma StellarIff(s: string, f: Foreign)
    ensures IsUpperBase32(s) && StellarShape(s, ByteLen(s)) == Some(f) <==>
            HasForm(s, f) && (f.OtherChain? ==> f.what !in {LegacyBitcoin, Bech32Bitcoin} && !f.what.HexAddress?)
  {
    hide ByteLen, IsLegacyText, IsBech32Text, IsHexText;
    if IsUpperBase32(s) {
      AsciiByteLen(s);
    }
  }

  lemma LegacyIff(s: string)
    ensures IsLegacyBitcoin(s, ByteLen(s)) <==> IsLegacyText(s)
    ensures IsLegacyText(s) ==> 26 <= ByteLen(s) == |s| <= 35
  {
    hide ByteLen, Base58.Encode;
    if Base58.IsBase58(s) {
      AsciiByteLen(s);
      Base58.EncodeDecode(s);
    }
    forall bs: Bytes
      ensures Base58.Decode(Base58.Encode(bs)) == Some(bs) && Base58.IsBase58(Base58.Encode(bs))
    {
      Base58.DecodeEncode(bs);
    }
  }

  lemma Bech32LengthIff(s: string)
    ensures IsBech32Shape(s) && ByteLen(s) != 43 && ByteLen(s) != 44 <==> HasShape(s, Bech32Bitcoin)
  {
    hide ByteLen, IsBech32Shape, IsBech32Text;
    Bech32Iff(s);
    if IsBech32Text(s) {
      Bech32Plain(s);
    }
  }

  /** The form decides the first character up to the chain, so no text has the forms of two chains. */
  lemma FirstCharacter(s: string, what: OtherChain)
    requires HasShape(s, what)
    ensures s != ""
    ensures what.LegacyBitcoin? ==> s[0] == '1' || s[0] == '3'
    ensures what.Bech32Bitcoin? ==> 'a' <= s[0] <= 'z'
    ensures what.HexAddress? ==> s[0] == '0'
    ensures !(what.LegacyBitcoin? || what.Bech32Bitcoin? || what.HexAddress?) ==> 'A' <= s[0] <= 'Z'
  {
    hide ByteLen, IsBech32Text, IsHexText;
    match what
    case Bech32Bitcoin => Bech32Plain(s);
    case HexAddress(chain) => HexPlain(s, HexDigits(chain));
    case _ =>
  }

  /** A text is taken for a foreign one if and only if it has that form. */
  lemma ForeignIff(s: string, f: Foreign)
    ensures ForeignFormat(s) == Some(f) <==> HasForm(s, f)
  {
    hide ByteLen, IsUpperBase32, StellarShape, IsLegacyBitcoin, IsBech32Shape, HexShape, HasShape, IsSeedText;
    if HasForm(s, f) {
      FormRecognised(s, f);
    }
    var found := ForeignFormat(s);
    if found.Some? {
      RecognisedHasForm(s, found.value);
    }
  }

  lemma RecognisedHasForm(s: string, f: Foreign)
    requires ForeignFormat(s) == Some(f)
    ensures HasForm(s, f)
  {
    hide ByteLen, IsUpperBase32, StellarShape, IsLegacyBitcoin, IsBech32Shape, HexShape, IsLegacyText, IsBech32Text, IsHexText, IsStellarText;
    StellarIff(s, f);
    LegacyIff(s);
    Bech32LengthIff(s);
    HexShapeIff(s, Ethereum);
    HexShapeIff(s, SuiOrAptos);
  }

  lemma FormRecognised(s: string, f: Foreign)
    requires HasForm(s, f)
    ensures ForeignFormat(s) == Some(f)
  {
    hide ByteLen, IsLegacyBitcoin, IsBech32Shape, HexShape, IsLegacyText, IsBech32Text, IsHexText;
    StellarIff(s, f);
    LegacyIff(s);
    Bech32LengthIff(s);
    OneForm(s);
    match f
    case StellarSecretSeed =>
    case OtherChain(what) =>
      FirstCharacter(s, what);
      match what
      case HexAddress(chain) => HexShapeIff(s, chain);
      case LegacyBitcoin =>
      case Bech32Bitcoin =>
      case _ =>
  }

  /** Texts recognised in two ways start with two different characters. */
  lemma OneForm(s: string)
    ensures IsUpperBase32(s) && StellarShape(s, ByteLen(s)).Some? ==> 'A' <= s[0] <= 'Z'
    ensures IsLegacyBitcoin(s, ByteLen(s)) ==> s[0] == '1' || s[0] == '3'
    ensures IsBech32Shape(s) ==> s != "" && 'a' <= s[0] <= 'z'
  {
    hide ByteLen, StripAny, IsBech32Text;
    Bech32Iff(s);
    if IsBech32Text(s) {
      Bech32Plain(s);
    }
  }

  // ------------------------------------------------------------ the guards before them

  /** A text in a foreign form has no surrounding whitespace. */
  lemma FormIsPlain(s: string, f: Foreign)
    requires HasForm(s, f)
    ensures IsPlain(s)
  {
    hide IsPlain, IsBech32Text, IsHexText, IsLegacyBitcoin;
    match f
    case StellarSecretSeed =>
      PlainEnds(s);
    case OtherChain(what) =>
      match what
      case LegacyBitcoin =>
        LegacyIff(s);
        assert Base58.IsBase58(s);
        PlainEnds(s);
      case Bech32Bitcoin =>
        Bech32Plain(s);
        PlainEnds(s);
      case HexAddress(chain) =>
        HexPlain(s, HexDigits(chain));
        PlainEnds(s);
      case _ =>
        PlainEnds(s);
  }

  /** The listed accounts are single words of at most 44 characters. */
  lemma ListedIsPlain(s: string)
    requires s in WELL_KNOWN_ACCOUNTS
    ensures IsPlain(s) && |s| <= 44
  {
    hide IsPlain;
    var i: nat :| i < |WELL_KNOWN_ACCOUNTS| && s == WELL_KNOWN_ACCOUNTS[i];
    assert s != "" && |s| <= 44;
    PlainEnds(s);
  }

  // ------------------------------------------------------------ causes and verdicts

  /** The text is examined as a Solana address: nothing before the alphabet check spoke. */
  ghost predicate IsExamined(s: string) {
    IsPlain(s) && s !in WELL_KNOWN_ACCOUNTS && forall f: Foreign :: !HasForm(s, f)
  }

  /** The first character outside the alphabet. */
  ghost predicate IsFirstBad(s: string, c: char) {
    exists i: nat :: i < |s| && s[i] == c && !Base58.IsBase58Char(c) && forall j: nat :: j < i ==> Base58.IsBase58Char(s[j])
  }

  /** Why a text is refused or accepted, by its shape. */
  ghost predicate Warrants(s: string, onCurve: PubKey -> bool, c: Cause) {
    match c
    case Empty => IsBlank(s)
    case Whitespace => !IsBlank(s) && !IsPlain(s)
    case WellKnown => s in WELL_KNOWN_ACCOUNTS
    case SecretSeed => IsSeedText(s)
    case Elsewhere(what) => HasShape(s, what) && s !in WELL_KNOWN_ACCOUNTS
    case NotBase58(bad) => IsExamined(s) && IsFirstBad(s, bad)
    case WrongSize(n) => IsExamined(s) && n != 32 && exists bs: Bytes :: |bs| == n && s == Base58.Encode(bs)
    case OffCurve => s !in WELL_KNOWN_ACCOUNTS && exists k: PubKey :: s == Base58.Encode(k) && !onCurve(k)
    case Wallet => s !in WELL_KNOWN_ACCOUNTS && exists k: PubKey :: s == Base58.Encode(k) && onCurve(k)
  }

  lemma {:induction false} FirstBadIff(s: string, c: char)
    ensures FirstNonBase58(s) == Some(c) <==> IsFirstBad(s, c)
  {
    hide Base58.IsBase58Char;
    if s != "" {
      FirstBadIff(s[1..], c);
      if Base58.IsBase58Char(s[0]) {
        if IsFirstBad(s, c) {
          var i: nat :| i < |s| && s[i] == c && !Base58.IsBase58Char(c) && forall j: nat :: j < i ==> Base58.IsBase58Char(s[j]);
          assert s[1..][i - 1] == c;
        }
        if IsFirstBad(s[1..], c) {
          var i: nat :| i < |s[1..]| && s[1..][i] == c && !Base58.IsBase58Char(c) && forall j: nat :: j < i ==> Base58.IsBase58Char(s[1..][j]);
          assert s[i + 1] == c;
          assert forall j: nat :: 0 < j < i + 1 ==> s[j] == s[1..][j - 1];
        }
      }
    }
  }

  /** The guards before the alphabet check, for a text that is nothing but one word. */
  lemma Guards(s: string, onCurve: PubKey -> bool)
    ensures Diagnose(s, onCurve) == Empty <==> IsBlank(s)
    ensures Diagnose(s, onCurve) == Whitespace <==> !IsBlank(s) && !IsPlain(s)
    ensures IsPlain(s) && s in WELL_KNOWN_ACCOUNTS ==> Diagnose(s, onCurve) == WellKnown
    ensures Diagnose(s, onCurve) == WellKnown ==> s in WELL_KNOWN_ACCOUNTS
    ensures IsPlain(s) && s !in WELL_KNOWN_ACCOUNTS ==>
              var f := ForeignFormat(s);
              && (f == Some(StellarSecretSeed) ==> Diagnose(s, onCurve) == SecretSeed)
              && (f.Some? && f.value.OtherChain? ==> Diagnose(s, onCurve) == Elsewhere(f.value.what))
  {
    PlainIff(s);
    BlankIff(s);
    hide Trim, IsBlank, IsPlain, ForeignFormat, FirstNonBase58, Base58.PubKeyOf, Base58.Decode, WELL_KNOWN_ACCOUNTS;
  }

  /** Past those guards only the alphabet, the size and the curve matter. */
  lemma Examined(s: string, onCurve: PubKey -> bool)
    requires IsPlain(s) && s !in WELL_KNOWN_ACCOUNTS && ForeignFormat(s).None?
    ensures var bad := FirstNonBase58(s);
            && (bad.Some? ==> Diagnose(s, onCurve) == NotBase58(bad.value))
            && (bad.None? ==> (var bs := Base58.Decode(s).value;
                               Diagnose(s, onCurve) == if |bs| != 32 then WrongSize(|bs|) else if onCurve(bs) then Wallet else OffCurve))
  {
    PlainIff(s);
    hide Trim, IsPlain, ForeignFormat, WELL_KNOWN_ACCOUNTS;
  }

  lemma ExaminedIff(s: string)
    ensures IsExamined(s) <==> IsPlain(s) && s !in WELL_KNOWN_ACCOUNTS && ForeignFormat(s).None?
  {
    hide IsPlain, ForeignFormat, HasForm, WELL_KNOWN_ACCOUNTS;
    forall f: Foreign
      ensures ForeignFormat(s) == Some(f) <==> HasForm(s, f)
    {
      ForeignIff(s, f);
    }
    if ForeignFormat(s).Some? {
      assert HasForm(s, ForeignFormat(s).value);
    }
  }

  /** A key's text gets past the guards unless it is a listed account. */
  lemma KeyIsExamined(k: PubKey)
    requires Base58.Encode(k) !in WELL_KNOWN_ACCOUNTS
    ensures IsExamined(Base58.Encode(k))
  {
    hide Base58.Encode, WELL_KNOWN_ACCOUNTS, ForeignFormat, IsPlain, Trim;
    var s := Base58.Encode(k);
    AddressNotEmpty(k);
    AddressIsAscii(s);
    NoForeignShape(k);
    PlainIff(s);
    ExaminedIff(s);
  }

  lemma ExaminedWarrant(s: string, onCurve: PubKey -> bool)
    requires IsExamined(s)
    ensures Warrants(s, onCurve, Diagnose(s, onCurve))
  {
    hide IsExamined, ForeignFormat, Diagnose, IsFirstBad, FirstNonBase58, Base58.Encode, Base58.IsBase58, WELL_KNOWN_ACCOUNTS, IsPlain;
    ExaminedIff(s);
    Examined(s, onCurve);
    var bad := FirstNonBase58(s);
    if bad.Some? {
      FirstBadIff(s, bad.value);
    } else {
      Base58.EncodeDecode(s);
    }
  }

  /** Every text is diagnosed with a cause it warrants. */
  lemma DiagnosisIsWarranted(s: string, onCurve: PubKey -> bool)
    ensures Warrants(s, onCurve, Diagnose(s, onCurve))
  {
    hide ForeignFormat, Diagnose, HasShape, IsSeedText, WELL_KNOWN_ACCOUNTS, IsPlain, IsBlank, IsExamined, IsFirstBad, Base58.Encode;
    Guards(s, onCurve);
    ExaminedIff(s);
    var f := ForeignFormat(s);
    if f.Some? {
      ForeignIff(s, f.value);
    }
    if IsExamined(s) {
      ExaminedWarrant(s, onCurve);
    }
  }

  lemma KeyWarrant(s: string, onCurve: PubKey -> bool, k: PubKey)
    requires s == Base58.Encode(k) && s !in WELL_KNOWN_ACCOUNTS
    ensures Diagnose(s, onCurve) == if onCurve(k) then Wallet else OffCurve
  {
    hide Diagnose, Base58.Encode, Base58.Decode, WELL_KNOWN_ACCOUNTS, ForeignFormat, IsPlain, IsExamined, FirstNonBase58;
    KeyIsExamined(k);
    ExaminedIff(s);
    Examined(s, onCurve);
    Base58.DecodeEncode(k);
    AddressIsAscii(s);
  }

  /** No text warrants two causes. */
  lemma WarrantDecides(s: string, onCurve: PubKey -> bool, c: Cause)
    requires Warrants(s, onCurve, c)
    ensures Diagnose(s, onCurve) == c
  {
    hide ForeignFormat, Diagnose, HasShape, IsSeedText, WELL_KNOWN_ACCOUNTS, IsPlain, IsBlank, IsExamined, IsFirstBad, Base58.Encode,
         FirstNonBase58;
    Guards(s, onCurve);
    match c
    case Empty =>
    case Whitespace =>
    case WellKnown => ListedIsPlain(s);
    case SecretSeed =>
      SeedIsNotListed(s);
      FormIsPlain(s, StellarSecretSeed);
      ForeignIff(s, StellarSecretSeed);
    case Elsewhere(what) =>
      FormIsPlain(s, OtherChain(what));
      ForeignIff(s, OtherChain(what));
    case NotBase58(bad) =>
      ExaminedIff(s);
      FirstBadIff(s, bad);
      Examined(s, onCurve);
    case WrongSize(n) =>
      SizeWarrant(s, onCurve, n);
    case OffCurve =>
      var k: PubKey :| s == Base58.Encode(k) && !onCurve(k);
      KeyWarrant(s, onCurve, k);
    case Wallet =>
      var k: PubKey :| s == Base58.Encode(k) && onCurve(k);
      KeyWarrant(s, onCurve, k);
  }

  lemma SizeWarrant(s: string, onCurve: PubKey -> bool, n: nat)
    requires Warrants(s, onCurve, WrongSize(n))
    ensures Diagnose(s, onCurve) == WrongSize(n)
  {
    hide ForeignFormat, Diagnose, WELL_KNOWN_ACCOUNTS, IsPlain, IsExamined, Base58.Encode, Base58.Decode, FirstNonBase58;
    var bs: Bytes :| |bs| == n && s == Base58.Encode(bs);
    Base58.DecodeEncode(bs);
    AddressIsAscii(s);
    ExaminedIff(s);
    Examined(s, onCurve);
  }

  lemma SeedIsNotListed(s: string)
    requires IsSeedText(s)
    ensures s !in WELL_KNOWN_ACCOUNTS
  {
    hide WELL_KNOWN_ACCOUNTS;
    if s in WELL_KNOWN_ACCOUNTS {
      ListedIsPlain(s);
      assert false;
    }
  }

  /** Every cause, for every text: it is given if and only if the text warrants it. */
  lemma DiagnoseIff(s: string, onCurve: PubKey -> bool, c: Cause)
    ensures Diagnose(s, onCurve) == c <==> Warrants(s, onCurve, c)
  {
    hide Diagnose, Warrants;
    DiagnosisIsWarranted(s, onCurve);
    if Warrants(s, onCurve, c) {
      WarrantDecides(s, onCurve, c);
    }
  }

  /** The verdict is WrongNetwork if and only if the text has the shape of another chain's address
      and is not one of the listed accounts. */
  lemma WrongNetworkIff(s: string, onCurve: PubKey -> bool)
    ensures Validate(s, onCurve) == WrongNetwork <==> s !in WELL_KNOWN_ACCOUNTS && exists what: OtherChain :: HasShape(s, what)
  {
    hide Diagnose, HasShape, WELL_KNOWN_ACCOUNTS;
    forall what: OtherChain
      ensures Diagnose(s, onCurve) == Elsewhere(what) <==> HasShape(s, what) && s !in WELL_KNOWN_ACCOUNTS
    {
      DiagnoseIff(s, onCurve, Elsewhere(what));
    }
    var c := Diagnose(s, onCurve);
    if c.Elsewhere? {
      assert HasShape(s, c.what);
    }
  }

  /** The verdict is NotAWallet if and only if the text is a listed account or the address of a key
      that is off the curve. */
  lemma NotAWalletIff(s: string, onCurve: PubKey -> bool)
    ensures Validate(s, onCurve) == NotAWallet <==>
            s in WELL_KNOWN_ACCOUNTS || exists k: PubKey :: s == Base58.Encode(k) && !onCurve(k)
  {
    hide Diagnose, Base58.Encode, WELL_KNOWN_ACCOUNTS;
    DiagnoseIff(s, onCurve, WellKnown);
    DiagnoseIff(s, onCurve, OffCurve);
  }

  /** A pasted Stellar secret seed is reported as a disclosure, whatever else is wrong with it. */
  lemma SeedIsDisclosed(s: string, onCurve: PubKey -> bool)
    ensures Diagnose(s, onCurve) == SecretSeed <==>
            |s| == 56 && s[0] == 'S' && forall i: nat :: i < |s| ==> 'A' <= s[i] <= 'Z' || '2' <= s[i] <= '7'
  {
    hide Diagnose;
    DiagnoseIff(s, onCurve, SecretSeed);
  }
}
