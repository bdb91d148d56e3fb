/** Padded standard base64 (RFC 4648 section 4): the encoder of `tx::b64` and a strict decoder. */
module Base64 {
  import opened Prelude

  function CharOf(d: nat): (c: char)
    requires d < 64
    ensures IsBase64Char(c) && c != '='
  {
    var code :=
      if d < 26 then 65 + d
      else if d < 52 then 71 + d
      else if d < 62 then d - 4
      else if d == 62 then 43
      else 47;
    code as char
  }

  predicate IsBase64Char(c: char) {
    'A' <= c <= 'Z' || 'a' <= c <= 'z' || '0' <= c <= '9' || c == '+' || c == '/'
  }

  function DigitOf(c: char): (d: nat)
    requires IsBase64Char(c)
    ensures d < 64 && CharOf(d) == c
  {
    var n := c as int;
    if 'A' <= c <= 'Z' then n - 65
    else if 'a' <= c <= 'z' then n - 71
    else if '0' <= c <= '9' then n + 4
    else if c == '+' then 62
    else 63
  }

  /** One to three bytes as four characters of six bits each; missing bytes read as zero. */
  function EncodeChunk(c: Bytes): (q: string)
    requires 1 <= |c| <= 3
    ensures |q| == 4
  {
    var b0: int := c[0];
    var b1: int := if |c| > 1 then c[1] else 0;
    var b2: int := if |c| > 2 then c[2] else 0;
    [ CharOf(b0 / 4),
      CharOf(b0 % 4 * 16 + b1 / 16),
      if |c| > 1 then CharOf(b1 % 16 * 4 + b2 / 64) else '=',
      if |c| > 2 then CharOf(b2 % 64) else '=' ]
  }

  function Encode(bs: Bytes): string {
    if bs == [] then ""
    else if |bs| <= 3 then EncodeChunk(bs)
    else EncodeChunk(bs[..3]) + Encode(bs[3..])
  }

  /** Four characters back to one, two or three bytes; only canonical padding is read. */
  function DecodeChunk(q: string): (r: Option<Bytes>)
    requires |q| == 4
    ensures r.Some? ==> 1 <= |r.value| <= 3
  {
    if !IsBase64Char(q[0]) || !IsBase64Char(q[1]) then None else
    var d0, d1 := DigitOf(q[0]), DigitOf(q[1]);
    var b0: Byte := d0 * 4 + d1 / 16;
    if q[2] == '=' then
      if q[3] == '=' && d1 % 16 == 0 then Some([b0]) else None
    else if !IsBase64Char(q[2]) then None else
    var d2 := DigitOf(q[2]);
    var b1: Byte := d1 % 16 * 16 + d2 / 4;
    if q[3] == '=' then
      if d2 % 4 == 0 then Some([b0, b1]) else None
    else if !IsBase64Char(q[3]) then None else
    var b2: Byte := d2 % 4 * 64 + DigitOf(q[3]);
    Some([b0, b1, b2])
  }

  function Decode(s: string): Option<Bytes> {
    if s == "" then Some([])
    else if |s| < 4 then None
    else match DecodeChunk(s[..4])
      case None => None
      case Some(c) =>
        if |s| == 4 then Some(c)
        else if |c| < 3 then None
        else match Decode(s[4..])
          case None => None
          case Some(rest) => Some(c + rest)
  }

  lemma CharDigit(d: nat)
    requires d < 64
    ensures DigitOf(CharOf(d)) == d
  {
  }

  lemma DecodeEncodeChunk(c: Bytes)
    requires 1 <= |c| <= 3
    ensures DecodeChunk(EncodeChunk(c)) == Some(c)
  {
    hide CharOf, DigitOf, IsBase64Char;
    var b0: int := c[0];
    var b1: int := if |c| > 1 then c[1] else 0;
    var b2: int := if |c| > 2 then c[2] else 0;
    SixBitsToByte(b0, b1);
    SixBitsToByte'(b1, b2);
    CharDigit(b0 / 4);
    CharDigit(b0 % 4 * 16 + b1 / 16);
    CharDigit(b1 % 16 * 4 + b2 / 64);
    CharDigit(b2 % 64);
    assert c == if |c| == 1 then [c[0]] else if |c| == 2 then [c[0], c[1]] else [c[0], c[1], c[2]];
  }

  lemma SixBitsToByte(b0: nat, b1: nat)
    requires b0 < 256 && b1 < 256
    ensures var d := b0 % 4 * 16 + b1 / 16;
            d < 64 && b0 / 4 * 4 + d / 16 == b0 && d % 16 == b1 / 16
  {
  }

  lemma SixBitsToByte'(b1: nat, b2: nat)
    requires b1 < 256 && b2 < 256
    ensures var d := b1 % 16 * 4 + b2 / 64;
            d < 64 && b1 / 16 * 16 + d / 4 == b1 && d % 4 * 64 + b2 % 64 == b2
            && (b2 == 0 ==> d % 4 == 0)
  {
  }

  /** The strict decoder accepts a chunk only in its one canonical spelling. */
  lemma EncodeDecodeChunk(q: string)
    requires |q| == 4 && DecodeChunk(q).Some?
    ensures EncodeChunk(DecodeChunk(q).value) == q
  {
    hide CharOf, DigitOf, IsBase64Char;
    assert q == [q[0], q[1], q[2], q[3]];
  }

  /** Any byte string is recovered from its base64 text. */
  lemma {:induction false} DecodeEncode(bs: Bytes)
    ensures Decode(Encode(bs)) == Some(bs)
  {
    if bs != [] {
      if |bs| <= 3 {
        DecodeEncodeChunk(bs);
        assert Encode(bs)[..4] == Encode(bs);
      } else {
        DecodeEncodeChunk(bs[..3]);
        DecodeEncode(bs[3..]);
        var s := Encode(bs);
        assert s[..4] == EncodeChunk(bs[..3]);
        assert s[4..] == Encode(bs[3..]);
        assert bs[..3] + bs[3..] == bs;
      }
    }
  }

  /** Text the decoder reads is exactly what the encoder prints. */
  lemma {:induction false} EncodeDecode(s: string)
    requires Decode(s).Some?
    ensures Encode(Decode(s).value) == s
  {
    if s != "" {
      EncodeDecodeChunk(s[..4]);
      var c := DecodeChunk(s[..4]).value;
      if |s| > 4 {
        EncodeDecode(s[4..]);
        var rest := Decode(s[4..]).value;
        assert (c + rest)[..3] == c && (c + rest)[3..] == rest;
        assert s[..4] + s[4..] == s;
      } else {
        assert s[..4] == s;
      }
    }
  }

  /** Shifting the 24-bit number of a chunk selects the same six bits. */
  lemma SixBitGroups(b0: nat, b1: nat, b2: nat)
    requires b0 < 256 && b1 < 256 && b2 < 256
    ensures var n := b0 * 0x1_0000 + b1 * 0x100 + b2;
            && n / 0x4_0000 == b0 / 4
            && n / 0x1000 % 64 == b0 % 4 * 16 + b1 / 16
            && n / 64 % 64 == b1 % 16 * 4 + b2 / 64
            && n % 64 == b2 % 64
  {
    var n := b0 * 0x1_0000 + b1 * 0x100 + b2;
    var h1, l1, h2, l2 := b1 / 16, b1 % 16, b2 / 64, b2 % 64;
    assert n == (b0 * 1024 + b1 * 4 + h2) * 64 + l2;
    assert n / 64 == b0 * 1024 + b1 * 4 + h2;
    assert n / 64 == (b0 * 16 + h1) * 64 + (l1 * 4 + h2);
    assert n / 0x1000 == n / 64 / 64 == b0 * 16 + h1;
    assert b0 * 16 + h1 == b0 / 4 * 64 + (b0 % 4 * 16 + h1);
  }

  /** The body of the loop of `b64`: one chunk, padded. */
  method EncodeGroup(chunk: Bytes) returns (q: string)
    requires 1 <= |chunk| <= 3
    ensures q == EncodeChunk(chunk)
  {
    var b0: int := chunk[0];
    var b1: int := if |chunk| > 1 then chunk[1] else 0;
    var b2: int := if |chunk| > 2 then chunk[2] else 0;
    var n := b0 * 0x1_0000 + b1 * 0x100 + b2;
    SixBitGroups(b0, b1, b2);
    q := [CharOf(n / 0x4_0000)];
    q := q + [CharOf(n / 0x1000 % 64)];
    q := q + [if |chunk| > 1 then CharOf(n / 64 % 64) else '='];
    q := q + [if |chunk| > 2 then CharOf(n % 64) else '='];
  }

  /** `b64`: one pass over the bytes in chunks of three. */
  method B64(bs: Bytes) returns (out: string)
    ensures out == Encode(bs)
  {
    hide EncodeChunk;
    out := "";
    var i := 0;
    while i < |bs|
      invariant 0 <= i <= |bs|
      invariant out + Encode(bs[i..]) == Encode(bs)
    {
      var next := if i + 3 <= |bs| then i + 3 else |bs|;
      var q := EncodeGroup(bs[i..next]);
      EncodeStep(bs[i..], next - i);
      assert bs[i..][..next - i] == bs[i..next] && bs[i..][next - i..] == bs[next..];
      out := out + q;
      i := next;
    }
    assert bs[i..] == [];
  }

  lemma EncodeStep(bs: Bytes, size: nat)
    requires bs != [] && size == if |bs| < 3 then |bs| else 3
    ensures Encode(bs) == EncodeChunk(bs[..size]) + Encode(bs[size..])
  {
    if |bs| <= 3 {
      assert bs[..size] == bs && bs[size..] == [];
    }
  }

  /** The digits are the standard alphabet, in order. */
  lemma Alphabet(d: nat)
    requires d < 64
    ensures CharOf(d) == ("ABCDEFGHIJKLMNOPQRSTUVWXYZabcdef" + "ghijklmnopqrstuvwxyz0123456789+/")[d]
  {
    hide IsBase64Char;
    if d < 32 {
      LowerHalf(d);
    } else {
      UpperHalf(d - 32);
    }
  }

  lemma LowerHalf(d: nat)
    requires d < 32
    ensures CharOf(d) == "ABCDEFGHIJKLMNOPQRSTUVWXYZabcdef"[d]
  {
    hide IsBase64Char;
  }

  lemma UpperHalf(d: nat)
    requires d < 32
    ensures CharOf(d + 32) == "ghijklmnopqrstuvwxyz0123456789+/"[d]
  {
    hide IsBase64Char;
  }

  /** The vectors of RFC 4648 section 10 up to one chunk: nothing, f, fo and foo. */
  lemma KnownTexts()
    ensures Encode([]) == ""
    ensures Encode([102]) == "Zg==" && Encode([102, 111]) == "Zm8=" && Encode([102, 111, 111]) == "Zm9v"
  {
  }
}
