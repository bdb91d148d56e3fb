/** Base58 text (draft-msporny-base58, sections 3 and 4): the alphabet, encoding, decoding
    and how the length of the text follows from the number of bytes. */
module Base58 {
  import opened Prelude
  import opened Radix

  /** The alphabet omits 0, O, I and l; within the rest, digits follow character order. */
  function CharOf(d: nat): (c: char)
    requires d < 58
    ensures IsBase58Char(c)
  {
    var code :=
      if d < 9 then 49 + d
      else if d < 17 then 56 + d
      else if d < 22 then 57 + d
      else if d < 33 then 58 + d
      else if d < 44 then 64 + d
      else 65 + d;
    code as char
  }

  predicate IsBase58Char(c: char) {
    || '1' <= c <= '9' || 'A' <= c <= 'H' || 'J' <= c <= 'N'
    || 'P' <= c <= 'Z' || 'a' <= c <= 'k' || 'm' <= c <= 'z'
  }

  function DigitOf(c: char): (d: nat)
    requires IsBase58Char(c)
    ensures d < 58 && CharOf(d) == c
  {
    var n := c as int;
    if c <= '9' then n - 49
    else if c <= 'H' then n - 56
    else if c <= 'N' then n - 57
    else if c <= 'Z' then n - 58
    else if c <= 'k' then n - 64
    else n - 65
  }

  predicate IsBase58(s: string) {
    forall i :: 0 <= i < |s| ==> IsBase58Char(s[i])
  }

  function ToText(ds: seq<nat>): (s: string)
    requires Digital(ds, 58)
    ensures |s| == |ds| && IsBase58(s)
    ensures forall i :: 0 <= i < |ds| ==> s[i] == CharOf(ds[i])
  {
    seq(|ds|, i requires 0 <= i < |ds| => CharOf(ds[i]))
  }

  function FromText(s: string): (ds: seq<nat>)
    requires IsBase58(s)
    ensures |ds| == |s| && Digital(ds, 58)
    ensures forall i :: 0 <= i < |s| ==> ds[i] == DigitOf(s[i])
  {
    seq(|s|, i requires 0 <= i < |s| => DigitOf(s[i]))
  }

  /** `bs58::encode(bytes).into_string()` */
  function Encode(bs: Bytes): (s: string)
    ensures IsBase58(s)
  {
    ToText(ChangeBase(bs, 256, 58))
  }

  /** `bs58::decode(s).into_vec()`; a character outside the alphabet is an error. */
  function Decode(s: string): Option<Bytes> {
    if IsBase58(s) then Some(ChangeBase(FromText(s), 58, 256)) else None
  }

  lemma DecodeEncode(bs: Bytes)
    ensures Decode(Encode(bs)) == Some(bs)
  {
    var ds := ChangeBase(bs, 256, 58);
    assert FromText(ToText(ds)) == ds;
    ChangeBaseRoundTrip(bs, 256, 58);
  }

  lemma EncodeDecode(s: string)
    requires Decode(s).Some?
    ensures Encode(Decode(s).value) == s
  {
    var ds := FromText(s);
    ChangeBaseRoundTrip(ds, 58, 256);
    assert ToText(ds) == s;
  }

  lemma EncodeInjective(a: Bytes, b: Bytes)
    requires Encode(a) == Encode(b)
    ensures a == b
  {
    DecodeEncode(a);
    DecodeEncode(b);
  }

  /** `tx::pubkey_from_base58`: base58 of exactly 32 bytes. */
  function PubKeyOf(s: string): Option<PubKey> {
    match Decode(s)
    case None => None
    case Some(bs) => if |bs| == 32 then Some(bs) else None
  }

  lemma PubKeyTextRoundTrip(k: PubKey)
    ensures PubKeyOf(Encode(k)) == Some(k)
  {
    DecodeEncode(k);
  }

  lemma PubKeyOfIsEncode(s: string, k: PubKey)
    ensures PubKeyOf(s) == Some(k) <==> s == Encode(k)
  {
    DecodeEncode(k);
    if PubKeyOf(s) == Some(k) {
      EncodeDecode(s);
    }
  }

  lemma PowersOf58()
    ensures Power(58, 42) < Power(256, 31)
    ensures Power(256, 32) <= Power(58, 44)
  {
    assert Power(58, 7) == 2207984167552;
    assert Power(58, 14) == 4875194084160298409672704;
    assert Power(58, 21) == 10764351351569111513009094806216900608;
    assert Power(58, 28) == 23767517358231570773047645414309870043308402671616;
    assert Power(58, 35) == 52478302028992644968172978478148648556151605660894866578604032;
    assert Power(58, 42) == 115871260020027757769182095419415455604368209753879122781949129969750769664;
    assert Power(256, 8) == 0x10000000000000000;
    assert Power(256, 16) == 0x100000000000000000000000000000000;
    assert Power(256, 24) == 0x1000000000000000000000000000000000000000000000000;
    assert Power(256, 31) == 0x100000000000000000000000000000000000000000000000000000000000000;
  }

  /** The digits are the base58 alphabet, in order. */
  lemma Alphabet(d: nat)
    requires d < 58
    ensures CharOf(d) == ("123456789ABCDEFGHJKLMNPQRSTUV" + "WXYZabcdefghijkmnopqrstuvwxyz")[d]
  {
    hide IsBase58Char;
    if d < 29 {
      LowerHalf(d);
    } else {
      UpperHalf(d - 29);
    }
  }

  lemma LowerHalf(d: nat)
    requires d < 29
    ensures CharOf(d) == "123456789ABCDEFGHJKLMNPQRSTUV"[d]
  {
    hide IsBase58Char;
  }

  lemma UpperHalf(d: nat)
    requires d < 29
    ensures CharOf(d + 29) == "WXYZabcdefghijkmnopqrstuvwxyz"[d]
  {
    hide IsBase58Char;
  }
}
