/** Hexadecimal text: `hex::encode` and the hand-written `decode_hex` of the C surface. */
module Hex {
  import opened Prelude
  import opened Text

  /** What `decode_hex` may say when it refuses: a length, or a position. Never a character. */
  datatype HexError = OddLength(len: nat) | BadDigit(at: nat)

  predicate IsHexDigit(c: Byte) {
    0x30 <= c <= 0x39 || 0x61 <= c <= 0x66 || 0x41 <= c <= 0x46
  }

  function NibbleOf(c: Byte): (n: nat)
    requires IsHexDigit(c)
    ensures n < 16
  {
    if c <= 0x39 then c - 0x30 else if c <= 0x46 then c - 0x41 + 10 else c - 0x61 + 10
  }

  function Nibble(c: Byte, at: nat): (r: Result<nat, HexError>)
    ensures r.Ok? ==> r.value < 16
  {
    if IsHexDigit(c) then Ok(NibbleOf(c)) else Err(BadDigit(at))
  }

  /** The chunks from pair `i` on, stopping at the first refusal as `collect` does. */
  function DecodePairs(bs: Bytes, i: nat): Result<Bytes, HexError>
    requires |bs| % 2 == 0
    decreases |bs|
  {
    if bs == [] then Ok([]) else
    var high, low := Nibble(bs[0], i * 2), Nibble(bs[1], i * 2 + 1);
    if high.Err? then Err(high.error)
    else if low.Err? then Err(low.error)
    else match DecodePairs(bs[2..], i + 1)
      case Err(e) => Err(e)
      case Ok(rest) => Ok([high.value * 16 + low.value] + rest)
  }

  /** `decode_hex`, on the UTF-8 bytes of its argument. */
  function DecodeBytes(bs: Bytes): Result<Bytes, HexError> {
    if |bs| % 2 != 0 then Err(OddLength(|bs|)) else DecodePairs(bs, 0)
  }

  function DecodeHex(s: string): Result<Bytes, HexError> {
    DecodeBytes(Utf8(s))
  }

  /** One printed digit, in the letter case asked for. */
  function DigitChar(n: nat, upper: bool): char
    requires n < 16
  {
    (if n < 10 then 0x30 + n else if upper then 0x41 + n - 10 else 0x61 + n - 10) as char
  }

  function PrintByte(x: Byte, u0: bool, u1: bool): string {
    [DigitChar(x / 16, u0), DigitChar(x % 16, u1)]
  }

  /** Hex printing with a letter case chosen freely for every digit. */
  function Print(bs: Bytes, upper: nat -> bool): string {
    if bs == [] then "" else
    Print(bs[..|bs| - 1], upper) + PrintByte(bs[|bs| - 1], upper(2 * |bs| - 2), upper(2 * |bs| - 1))
  }

  /** `hex::encode`: lower case throughout. */
  function Encode(bs: Bytes): string {
    Print(bs, i => false)
  }

  /** Position of the first byte that is not a hex digit; the length if there is none. */
  function FirstBad(bs: Bytes): (at: nat)
    ensures at <= |bs|
    ensures at < |bs| ==> !IsHexDigit(bs[at])
    ensures forall i :: 0 <= i < at ==> IsHexDigit(bs[i])
  {
    if bs == [] || !IsHexDigit(bs[0]) then 0 else 1 + FirstBad(bs[1..])
  }

  lemma {:induction false} PairsSucceedOrNameFirstBad(bs: Bytes, i: nat)
    requires |bs| % 2 == 0
    ensures FirstBad(bs) == |bs| ==> DecodePairs(bs, i).Ok?
    ensures FirstBad(bs) < |bs| ==> DecodePairs(bs, i) == Err(BadDigit(2 * i + FirstBad(bs)))
    decreases |bs|
  {
    if bs != [] {
      PairsSucceedOrNameFirstBad(bs[2..], i + 1);
      assert bs[1..][1..] == bs[2..];
      assert FirstBad(bs[1..]) == if IsHexDigit(bs[1]) then 1 + FirstBad(bs[2..]) else 0;
    }
  }

  /** The refusal is a function of the length, when odd, or else of the first bad position. */
  lemma RefusalIsPosition(bs: Bytes)
    ensures DecodeBytes(bs).Err? <==> |bs| % 2 != 0 || FirstBad(bs) < |bs|
    ensures DecodeBytes(bs).Err? ==>
              DecodeBytes(bs).error == if |bs| % 2 != 0 then OddLength(|bs|) else BadDigit(FirstBad(bs))
  {
    if |bs| % 2 == 0 {
      PairsSucceedOrNameFirstBad(bs, 0);
    }
  }

  /** Two refused inputs of one length with the same first bad position cannot be told
      apart, whatever their other characters are. */
  lemma RefusalHidesContent(a: Bytes, b: Bytes)
    requires |a| == |b| && (|a| % 2 == 1 || FirstBad(a) == FirstBad(b))
    requires DecodeBytes(a).Err?
    ensures DecodeBytes(a) == DecodeBytes(b)
  {
    RefusalIsPosition(a);
    RefusalIsPosition(b);
  }

  lemma PairsUnfold(bs: Bytes, i: nat, value: Bytes)
    requires |bs| >= 2 && |bs| % 2 == 0
    ensures DecodePairs(bs, i) == Ok(value) <==>
            && Nibble(bs[0], i * 2).Ok? && Nibble(bs[1], i * 2 + 1).Ok?
            && value != [] && DecodePairs(bs[2..], i + 1) == Ok(value[1..])
            && value[0] == Nibble(bs[0], i * 2).value * 16 + Nibble(bs[1], i * 2 + 1).value
  {
    hide Nibble;
    if DecodePairs(bs[2..], i + 1).Ok? {
      var rest := DecodePairs(bs[2..], i + 1).value;
      assert value != [] ==> value == [value[0]] + value[1..];
      assert forall x: Byte :: ([x] + rest)[1..] == rest;
    }
  }

  lemma {:induction false} PairsConcat(a: Bytes, b: Bytes, i: nat, x: Bytes, y: Bytes)
    requires |a| % 2 == 0 && |b| % 2 == 0
    requires DecodePairs(a, i) == Ok(x) && DecodePairs(b, i + |a| / 2) == Ok(y)
    ensures DecodePairs(a + b, i) == Ok(x + y)
    decreases |a|
  {
    if a == [] {
      assert a + b == b && x + y == y;
    } else {
      hide DecodePairs, Nibble;
      PairsUnfold(a, i, x);
      PairsConcat(a[2..], b, i + 1, x[1..], y);
      var ab := a + b;
      assert ab[2..] == a[2..] + b && ab[0] == a[0] && ab[1] == a[1];
      assert (x + y)[1..] == x[1..] + y;
      PairsUnfold(ab, i, x + y);
    }
  }

  /** The two characters printed for one byte read back as that byte. */
  lemma PairDecodes(x: Byte, u0: bool, u1: bool, i: nat)
    ensures var s := PrintByte(x, u0, u1);
            |Utf8(s)| == 2 && DecodePairs(Utf8(s), i) == Ok([x])
  {
    var c0, c1 := DigitChar(x / 16, u0), DigitChar(x % 16, u1);
    assert [c0, c1][1..] == [c1] && [c1][1..] == [];
    assert Utf8([c1]) == [c1 as int];
    var bs := Utf8([c0, c1]);
    assert bs == [c0 as int, c1 as int];
    assert NibbleOf(bs[0]) == x / 16 && NibbleOf(bs[1]) == x % 16;
    var done: Bytes := [];
    assert bs[2..] == done && [x] + done == [x];
  }

  lemma EmptyDecodes()
    ensures Utf8("") == [] && DecodePairs([], 0) == Ok([])
  {
  }

  lemma {:induction false} PrintDecodes(bs: Bytes, upper: nat -> bool)
    ensures |Utf8(Print(bs, upper))| == 2 * |bs|
    ensures DecodePairs(Utf8(Print(bs, upper)), 0) == Ok(bs)
  {
    hide PrintByte, DecodePairs, Utf8;
    if bs == [] {
      EmptyDecodes();
    } else {
      var front, last := bs[..|bs| - 1], bs[|bs| - 1];
      var u0, u1 := upper(2 * |bs| - 2), upper(2 * |bs| - 1);
      var pair := PrintByte(last, u0, u1);
      PrintDecodes(front, upper);
      PairDecodes(last, u0, u1, |front|);
      Utf8Concat(Print(front, upper), pair);
      PairsConcat(Utf8(Print(front, upper)), Utf8(pair), 0, front, [last]);
      assert front + [last] == bs;
    }
  }

  /** Decoding inverts printing in either letter case, even mixed digit by digit. */
  lemma DecodePrint(bs: Bytes, upper: nat -> bool)
    ensures DecodeHex(Print(bs, upper)) == Ok(bs)
  {
    hide Utf8, Print, DecodePairs;
    PrintDecodes(bs, upper);
  }

  lemma EncodeInjective(a: Bytes, b: Bytes)
    requires Encode(a) == Encode(b)
    ensures a == b
  {
    DecodePrint(a, i => false);
    DecodePrint(b, i => false);
  }

  /** Each byte is printed as two lower-case digits, the high one first. */
  lemma {:induction false} PrintedDigits(bs: Bytes, i: nat)
    requires i < |bs|
    ensures |Encode(bs)| == 2 * |bs|
    ensures Encode(bs)[2 * i] == "0123456789abcdef"[bs[i] / 16] && Encode(bs)[2 * i + 1] == "0123456789abcdef"[bs[i] % 16]
  {
    var front, last := bs[..|bs| - 1], bs[|bs| - 1];
    EncodeLength(front);
    LowerDigit(last / 16);
    LowerDigit(last % 16);
    assert Encode(bs) == Encode(front) + PrintByte(last, false, false);
    if i < |front| {
      PrintedDigits(front, i);
    }
  }

  lemma {:induction false} EncodeLength(bs: Bytes)
    ensures |Encode(bs)| == 2 * |bs|
  {
    if bs != [] {
      EncodeLength(bs[..|bs| - 1]);
    }
  }

  lemma LowerDigit(n: nat)
    requires n < 16
    ensures DigitChar(n, false) == "0123456789abcdef"[n]
  {
  }
}
