/** Offline validation of a Solana address (`patala-solana/src/destination.rs`): the ordered
    guards of `validate`, and why none of them shadows a real address. */
module SolanaDestination {
  import opened Prelude
  import opened Text
  import opened Radix
  import opened Destination
  import opened ChainShapes
  import Base58

  /** Well-known accounts nobody can be paid at. */
  const WELL_KNOWN_ACCOUNTS: seq<string> := [
    "11111111111111111111111111111111",
    "TokenkegQfeZyiNwAJbNbGKPFXCWuBvf9Ss623VQ5DA",
    "TokenzQdBNbLqP5VEhdkAS6EPFLC1PHnBqCXEpPxuEb",
    "ATokenGPvbdGVxr1b2hvZbsiqW5xWH25efTNsLJA8knL",
    "MemoSq4gqABAXKb96qnH8TysNcWxMyWCqXgDLGmfcHr",
    "ComputeBudget111111111111111111111111111111",
    "Stake11111111111111111111111111111111111111",
    "Vote111111111111111111111111111111111111111",
    "SysvarRent111111111111111111111111111111111",
    "SysvarC1ock11111111111111111111111111111111",
    "1nc1nerator11111111111111111111111111111111",
    "EPjFWdd5AufqSSqeM2qN1xzybapC8G4wEGGkZwyTDt1v",
    "4zMMC9srt5Ri5X14GAgXhaHii3GnPAEERYPJgZJDncDU",
    "So11111111111111111111111111111111111111112"
  ]

  datatype OtherChain =
    | StellarAccount | StellarContract | StellarPreAuthTx | StellarHashX | StellarMuxed | StellarSignedPayload
    | LegacyBitcoin | Bech32Bitcoin | HexAddress(chain: HexChain)

  datatype Foreign = OtherChain(what: OtherChain) | StellarSecretSeed

  /** Uppercase base32 text; a byte test in the source, and only ASCII text can pass it. */
  predicate IsUpperBase32(s: string) {
    s != "" && forall i :: 0 <= i < |s| ==> 'A' <= s[i] <= 'Z' || '2' <= s[i] <= '7'
  }

  function StellarShape(dest: string, len: nat): Option<Foreign>
    requires dest != ""
  {
    if dest[0] == 'S' && len == 56 then Some(StellarSecretSeed)
    else if dest[0] == 'G' && len == 56 then Some(OtherChain(StellarAccount))
    else if dest[0] == 'C' && len == 56 then Some(OtherChain(StellarContract))
    else if dest[0] == 'T' && len == 56 then Some(OtherChain(StellarPreAuthTx))
    else if dest[0] == 'X' && len == 56 then Some(OtherChain(StellarHashX))
    else if dest[0] == 'M' && len == 69 then Some(OtherChain(StellarMuxed))
    else if dest[0] == 'P' && len >= 56 then Some(OtherChain(StellarSignedPayload))
    else None
  }

  predicate IsLegacyBitcoin(dest: string, len: nat) {
    && 26 <= len <= 35 && dest != "" && (dest[0] == '1' || dest[0] == '3')
    && Base58.Decode(dest).Some? && |Base58.Decode(dest).value| == 25
  }

  /** `foreign_format` */
  function ForeignFormat(dest: string): Option<Foreign> {
    var len := ByteLen(dest);
    if IsUpperBase32(dest) && StellarShape(dest, len).Some? then StellarShape(dest, len)
    else if len != 43 && len != 44 && IsLegacyBitcoin(dest, len) then Some(OtherChain(LegacyBitcoin))
    else if len != 43 && len != 44 && IsBech32Shape(dest) then Some(OtherChain(Bech32Bitcoin))
    else match HexShape(dest)
      case None => None
      case Some(chain) => Some(OtherChain(HexAddress(chain)))
  }

  /** Which guard spoke. */
  datatype Cause =
    | Empty | Whitespace | WellKnown | SecretSeed | Elsewhere(what: OtherChain)
    | NotBase58(bad: char) | WrongSize(bytes: nat) | OffCurve | Wallet

  function StatusOf(c: Cause): Status {
    match c
    case Empty => Malformed
    case Whitespace => Malformed
    case WellKnown => NotAWallet
    case SecretSeed => Malformed
    case Elsewhere(_) => WrongNetwork
    case NotBase58(_) => Malformed
    case WrongSize(_) => Malformed
    case OffCurve => NotAWallet
    case Wallet => StructurallyValid
  }

  /** First character outside the alphabet. */
  function FirstNonBase58(s: string): (r: Option<char>)
    ensures r.None? <==> Base58.IsBase58(s)
  {
    if s == "" then None
    else if !Base58.IsBase58Char(s[0]) then Some(s[0])
    else FirstNonBase58(s[1..])
  }

  /** `validate`, guard by guard. */
  function Diagnose(dest: string, onCurve: PubKey -> bool): Cause {
    if Trim(dest) == "" then Empty
    else if Trim(dest) != dest then Whitespace
    else if dest in WELL_KNOWN_ACCOUNTS then WellKnown
    else
      var foreign := ForeignFormat(dest);
      if foreign == Some(StellarSecretSeed) then SecretSeed
      else if foreign.Some? then Elsewhere(foreign.value.what)
      else
        var bad := FirstNonBase58(dest);
        if bad.Some? then NotBase58(bad.value)
        else match Base58.PubKeyOf(dest)
          case None => WrongSize(|Base58.Decode(dest).value|)
          case Some(k) => if !onCurve(k) then OffCurve else Wallet
  }

  function Validate(dest: string, onCurve: PubKey -> bool): Status {
    StatusOf(Diagnose(dest, onCurve))
  }

  // ------------------------------------------------------------ lengths of addresses

  lemma DigitCount(n: nat)
    requires n > 0
    ensures var d := |Digits(n, 58)|; d > 0 && Power(58, d - 1) <= n < Power(58, d)
  {
    var ds := Digits(n, 58);
    DigitsHaveNoLeadingZero(n, 58);
    ValueOfDigits(n, 58);
    ValueBelowPower(ds, 58);
    ValueAtLeastPower(ds, 58);
  }

  lemma PowerStep(b: nat, e: nat)
    ensures Power(b, e + 1) == b * Power(b, e)
  {
  }

  lemma ProductAssociates(a: nat, b: nat, c: nat)
    ensures a * (b * c) == (a * b) * c
  {
  }

  lemma {:induction false} PowerAdd(b: nat, d: nat, e: nat)
    ensures Power(b, d + e) == Power(b, d) * Power(b, e)
  {
    if d == 0 {
      assert Power(b, 0) == 1;
    } else {
      PowerAdd(b, d - 1, e);
      PowerStep(b, d - 1 + e);
      PowerStep(b, d - 1);
      ProductAssociates(b, Power(b, d - 1), Power(b, e));
      hide Power;
      assert Power(b, d - 1 + e + 1) == Power(b, d + e);
    }
  }

  /** Trading bytes for base58 digits one for one only makes a number smaller. */
  lemma {:induction false} PowerTrade(total: nat, z: nat)
    requires z <= total
    ensures Power(256, total - z) * Power(58, z) <= Power(256, total)
    decreases z
  {
    if z > 0 {
      PowerTrade(total, z - 1);
      var p, q := Power(256, total - z), Power(58, z - 1);
      assert Power(256, total - (z - 1)) == 256 * p;
      assert Power(58, z) == 58 * q;
      TradeStep(p, q);
    }
  }

  lemma TradeStep(p: nat, q: nat)
    ensures p * (58 * q) <= (256 * p) * q
  {
    assert p * (58 * q) == 58 * (p * q);
    assert (256 * p) * q == 256 * (p * q);
    assert p * q >= 0;
  }

  /** The length of an address: one character for each leading zero byte and the base58 digits
      of the rest. */
  lemma AddressLength(k: PubKey)
    ensures |Base58.Encode(k)| == LeadingZeros(k) + |Digits(Value(k, 256), 58)|
  {
  }

  lemma ValueBelow(k: PubKey)
    ensures Value(k, 256) < Power(256, 32 - LeadingZeros(k))
    ensures k[0] != 0 ==> Power(256, 31) <= Value(k, 256)
  {
    var z := LeadingZeros(k);
    LeadingZerosSplit(k);
    ZerosAreWorthless(z, k[z..], 256);
    ValueBelowPower(k[z..], 256);
    if k[0] != 0 {
      ValueAtLeastPower(k, 256);
    }
  }

  /** No address is longer than 44 characters. */
  lemma AddressAtMost44(k: PubKey)
    ensures |Base58.Encode(k)| <= 44
  {
    hide Base58.Encode, Power, Digits, Value, LeadingZeros;
    var n, z := Value(k, 256), LeadingZeros(k);
    AddressLength(k);
    ValueBelow(k);
    if n > 0 {
      DigitCount(n);
      var d := |Digits(n, 58)|;
      PowerTrade(32, z);
      Base58.PowersOf58();
      PowerAdd(58, d - 1, z);
      StrictProduct(Power(58, d - 1), n, Power(256, 32 - z), Power(58, z));
      assert Power(58, d - 1 + z) < Power(58, 44);
      if d - 1 + z >= 44 {
        PowerMonotone(58, 44, d - 1 + z);
      }
    } else {
      NoDigits();
    }
  }

  lemma NoDigits()
    ensures Digits(0, 58) == []
  {
  }

  lemma StrictProduct(a: nat, n: nat, b: nat, c: nat)
    requires a <= n < b && c > 0
    ensures a * c < b * c
  {
    assert (b - a) * c > 0;
  }

  /** An address has 43 or 44 characters, as the source's comments take for granted, exactly
      when its number is at least 58^42 shifted by its leading zero bytes. */
  lemma AddressLengthIff(k: PubKey)
    ensures |Base58.Encode(k)| in {43, 44} <==> Value(k, 256) >= Power(58, 42 - LeadingZeros(k))
    ensures k[0] != 0 ==> |Base58.Encode(k)| in {43, 44}
  {
    hide Base58.Encode, Power, Digits, Value;
    var n, z := Value(k, 256), LeadingZeros(k);
    AddressLength(k);
    AddressAtMost44(k);
    ValueBelow(k);
    Base58.PowersOf58();
    assert k[0] != 0 ==> z == 0;
    if n > 0 {
      DigitCount(n);
      var d := |Digits(n, 58)|;
      if d <= 42 - z {
        PowerMonotone(58, d, 42 - z);
      } else {
        PowerMonotone(58, 42 - z, d - 1);
      }
    } else {
      NoDigits();
    }
  }

  /** The comment fails for the all-zero account id: 32 characters. */
  lemma SystemProgramIsShort()
    ensures |Base58.Encode(Radix.Zeros(32))| == 32
  {
    var k: PubKey := Radix.Zeros(32);
    AddressLength(k);
    LeadingZerosOf(32, []);
    assert Radix.Zeros(32) + [] == Radix.Zeros(32);
    ZerosAreWorthless(32, [], 256);
    assert Value([], 256) == 0;
    NoDigits();
  }

  // ------------------------------------------------------------ no shadowing

  /** A key with a leading zero byte prints with a leading `1`. */
  lemma LeadingOne(k: PubKey)
    requires k[0] == 0
    ensures var s := Base58.Encode(k); s != "" && s[0] == '1'
  {
    assert LeadingZeros(k) > 0;
    assert ChangeBase(k, 256, 58)[0] == 0;
  }

  lemma AddressIsAscii(s: string)
    requires Base58.IsBase58(s)
    ensures ByteLen(s) == |s|
    ensures s != "" ==> Trim(s) == s
    ensures FirstNonBase58(s).None?
  {
    AsciiByteLen(s);
    TrimFixed(s);
  }

  lemma PrefixHead(s: string, prefixes: seq<string>)
    requires forall i :: 0 <= i < |prefixes| ==> prefixes[i] != "" && (s == "" || prefixes[i][0] != s[0])
    ensures StripAny(s, prefixes).None?
  {
    if prefixes != [] {
      PrefixHead(s, prefixes[1..]);
    }
  }

  /** No foreign shape claims a real address. */
  lemma NoForeignShape(k: PubKey)
    ensures ForeignFormat(Base58.Encode(k)).None?
  {
    hide Base58.Encode, Base58.Decode, Value, Digits, ByteLen, StripAny;
    var s := Base58.Encode(k);
    AddressIsAscii(s);
    AddressAtMost44(k);
    AddressLengthIff(k);
    Base58.DecodeEncode(k);
    AddressNotEmpty(k);
    PrefixHead(s, ["0x", "0X"]);
    if k[0] == 0 {
      LeadingOne(k);
      PrefixHead(s, ["bc1", "tb1", "bcrt1"]);
      assert !IsUpperBase32(s);
    }
  }

  lemma AddressNotEmpty(k: PubKey)
    ensures Base58.Encode(k) != ""
  {
    Base58.DecodeEncode(k);
    if Base58.Encode(k) == "" {
      EmptyDecodes();
      assert false;
    }
  }

  lemma EmptyDecodes()
    ensures Base58.Decode("") == Some([])
  {
  }

  /** Every 32-byte key, printed, is judged on its own merits: a wallet if it is on the curve and
      not a well-known account, not a wallet otherwise; never malformed, never foreign. */
  lemma NoShadowing(k: PubKey, onCurve: PubKey -> bool)
    ensures Validate(Base58.Encode(k), onCurve) ==
            if onCurve(k) && Base58.Encode(k) !in WELL_KNOWN_ACCOUNTS then StructurallyValid else NotAWallet
  {
    hide Base58.Encode, Base58.Decode, ForeignFormat, Trim, FirstNonBase58;
    var s := Base58.Encode(k);
    AddressNotEmpty(k);
    AddressIsAscii(s);
    NoForeignShape(k);
    Base58.PubKeyTextRoundTrip(k);
  }

  /** Only such texts are ever structurally valid. */
  lemma StructurallyValidIff(s: string, onCurve: PubKey -> bool)
    ensures Validate(s, onCurve) == StructurallyValid <==>
            exists k: PubKey :: s == Base58.Encode(k) && onCurve(k) && s !in WELL_KNOWN_ACCOUNTS
  {
    hide Base58.Encode, ForeignFormat, Trim, FirstNonBase58;
    if Validate(s, onCurve) == StructurallyValid {
      var k := Base58.PubKeyOf(s).value;
      Base58.PubKeyOfIsEncode(s, k);
    }
    forall k: PubKey | s == Base58.Encode(k)
      ensures Validate(s, onCurve) ==
              if onCurve(k) && s !in WELL_KNOWN_ACCOUNTS then StructurallyValid else NotAWallet
    {
      NoShadowing(k, onCurve);
    }
  }
}
