/** Shared vocabulary: optional values, results, bytes and fixed machine bounds. */
module Prelude {

  datatype Option<+T> = None | Some(value: T) {
    predicate IsFailure() { None? }
    function PropagateFailure<U>(): Option<U>
      requires None?
    { None }
    function Extract(): T
      requires Some?
    { value }
  }

  datatype Result<+T, +E> = Ok(value: T) | Err(error: E) {
    predicate IsFailure() { Err? }
    function PropagateFailure<U>(): Result<U, E>
      requires Err?
    { Err(error) }
    function Extract(): T
      requires Ok?
    { value }
  }

  type Byte = b: int | 0 <= b < 256

  type Bytes = seq<Byte>

  const U64_BOUND: int := 0x1_0000_0000_0000_0000
  const I128_MAX: int := 0x7FFF_FFFF_FFFF_FFFF_FFFF_FFFF_FFFF_FFFF
  const I64_MAX: int := 0x7FFF_FFFF_FFFF_FFFF

  type U64 = n: int | 0 <= n < U64_BOUND

  /** An Ed25519 public key or any other 32-byte account id. */
  type PubKey = k: Bytes | |k| == 32 witness seq(32, i => 0)

  /** Unsigned little-endian bytes (`to_le_bytes`), `width` of them. */
  function LittleEndian(n: nat, width: nat): (bs: Bytes)
    ensures |bs| == width
    decreases width
  {
    if width == 0 then [] else [n % 256] + LittleEndian(n / 256, width - 1)
  }

  /** The number a little-endian byte string stands for. */
  function FromLittleEndian(bs: Bytes): nat {
    if bs == [] then 0 else bs[0] + 256 * FromLittleEndian(bs[1..])
  }

  function Power(base: nat, e: nat): (p: nat)
    ensures base > 0 ==> p > 0
  {
    if e == 0 then 1 else base * Power(base, e - 1)
  }

  lemma ConcatAssociates<T>(a: seq<T>, b: seq<T>, c: seq<T>)
    ensures a + b + c == a + (b + c)
  {
  }

  /** Reading the bytes back gives the number, as long as it fits the width. */
  lemma {:induction false} LittleEndianRoundTrip(n: nat, width: nat)
    requires n < Power(256, width)
    ensures FromLittleEndian(LittleEndian(n, width)) == n
    decreases width
  {
    if width > 0 {
      LittleEndianRoundTrip(n / 256, width - 1);
      assert LittleEndian(n, width)[1..] == LittleEndian(n / 256, width - 1);
    }
  }

  lemma PowerOf256To8()
    ensures Power(256, 8) == U64_BOUND
  {
    assert Power(256, 2) == 0x1_0000;
    assert Power(256, 4) == 0x1_0000_0000;
    assert Power(256, 6) == 0x1_0000_0000_0000;
  }

  /** Eight little-endian bytes determine a 64-bit number. */
  lemma LittleEndian64Injective(m: U64, n: U64)
    requires LittleEndian(m, 8) == LittleEndian(n, 8)
    ensures m == n
  {
    PowerOf256To8();
    LittleEndianRoundTrip(m, 8);
    LittleEndianRoundTrip(n, 8);
  }
}
