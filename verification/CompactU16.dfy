/** The compact length prefix of the Solana wire format: base-128 digits, least significant
    first, high bit set on every byte but the last. */
module CompactU16 {
  import opened Prelude

  function Encode(v: nat): (bs: Bytes)
    ensures bs != []
    decreases v
  {
    if v < 128 then [v] else [v % 128 + 128] + Encode(v / 128)
  }

  /** One length off the front of a byte string, and what follows it. */
  function Decode(bs: Bytes): Option<(nat, Bytes)> {
    if bs == [] then None
    else if bs[0] < 128 then Some((bs[0], bs[1..]))
    else match Decode(bs[1..])
      case None => None
      case Some((high, rest)) => Some((bs[0] - 128 + 128 * high, rest))
  }

  /** Every length is recovered whatever follows it. */
  lemma {:induction false} DecodeEncode(v: nat, rest: Bytes)
    ensures Decode(Encode(v) + rest) == Some((v, rest))
    decreases v
  {
    var bs := Encode(v) + rest;
    if v < 128 {
      assert bs[1..] == rest;
    } else {
      DecodeEncode(v / 128, rest);
      assert bs[1..] == Encode(v / 128) + rest;
    }
  }

  /** The code is prefix-free: two encoded lengths that agree as far as both go are equal. */
  lemma PrefixFree(u: nat, v: nat)
    requires Encode(u) <= Encode(v)
    ensures u == v
  {
    var tail := Encode(v)[|Encode(u)|..];
    assert Encode(u) + tail == Encode(v) + [];
    DecodeEncode(u, tail);
    DecodeEncode(v, []);
  }

  /** `compact_u16`: push the digits of `v` onto `out`. */
  method Push(v: nat, out: Bytes) returns (out': Bytes)
    ensures out' == out + Encode(v)
  {
    out' := out;
    var rem := v;
    while true
      invariant out' + Encode(rem) == out + Encode(v)
      decreases rem
    {
      var byte := rem % 128;
      var high := rem / 128;
      if high == 0 {
        out' := out' + [byte];
        return;
      }
      assert Encode(rem) == [byte + 128] + Encode(high);
      out' := out' + [byte + 128];
      rem := high;
    }
  }

  /** Lengths on either side of each additional byte. */
  lemma KnownLengths()
    ensures Encode(0) == [0] && Encode(127) == [127]
    ensures Encode(128) == [128, 1] && Encode(129) == [129, 1] && Encode(16383) == [255, 127]
    ensures Encode(16384) == [128, 128, 1]
  {
  }
}
