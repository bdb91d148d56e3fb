/** The offline default rail (`patala-core/src/mock.rs`): a keyed digest over a receipt's fields,
    what it certainly detects, and what it cannot. */
module MockRail {
  import opened Prelude
  import opened Text
  import opened Rail
  import opened Fnv

  // ------------------------------------------------------------ digest

  /** Four salted rounds, eight little-endian bytes each. */
  function DigestOf(key: Bytes, msg: Bytes): (d: Bytes)
    ensures |d| == 32
  {
    LittleEndian(RoundOf(0, key, msg), 8) + LittleEndian(RoundOf(1, key, msg), 8)
    + LittleEndian(RoundOf(2, key, msg), 8) + LittleEndian(RoundOf(3, key, msg), 8)
  }

  /** `keyed_digest`: fill the output chunk by chunk. */
  method KeyedDigest(key: Bytes, msg: Bytes) returns (out: Bytes)
    ensures out == DigestOf(key, msg)
  {
    hide RoundOf, LittleEndian;
    out := [];
    var round := 0;
    while round < 4
      invariant 0 <= round <= 4
      invariant out == DigestOf(key, msg)[..8 * round]
    {
      var h := Round(round, key, msg);
      out := out + LittleEndian(h, 8);
      round := round + 1;
    }
  }

  // ------------------------------------------------------------ the rail

  /** The digest stands in for a signature; a malformed proof is any other byte string. */
  type MockReceipt = Receipt<Bytes>

  datatype Mock = Mock(id: string, currencies: seq<string>, fails: bool)

  datatype MockError = InvalidRequest | ConfiguredToFail | UnsupportedCurrency

  const KEY_TAG := "patala-core/mock-rail-key/v1"

  /** The rail's key, derived from its id alone. */
  function KeyOf(id: string): (k: Bytes)
    ensures |k| == 16
  {
    DigestOf(Utf8(KEY_TAG), Utf8(id))[..16]
  }

  /** `signing_bytes`: the fields run together, with no lengths between them. */
  function SigningBytes(id: string, r: MockReceipt): Bytes {
    Utf8(id) + LittleEndian(r.amountMinor, 8) + Utf8(r.currency) + Utf8(r.reference) + LittleEndian(r.settledAt, 8)
  }

  function Sign(m: Mock, r: MockReceipt): Bytes {
    DigestOf(KeyOf(m.id), SigningBytes(m.id, r))
  }

  /** `MockRail::charge` */
  function Charge(m: Mock, req: PayRequest, now: U64): Result<MockReceipt, MockError> {
    if !IsValidRequest(req) then Err(InvalidRequest)
    else if m.fails then Err(ConfiguredToFail)
    else if req.currency !in m.currencies then Err(UnsupportedCurrency)
    else
      var r := Receipt(m.id, req.amountMinor, req.currency, req.reference, [], now);
      Ok(r.(proof := Sign(m, r)))
  }

  /** `MockRail::verify` */
  predicate Verify(m: Mock, r: MockReceipt) {
    r.railId == m.id && |r.proof| == 32 && Sign(m, r) == r.proof
  }

  /** A charged receipt verifies, also on any other rail built with the same id. */
  lemma ChargeVerifies(m: Mock, req: PayRequest, now: U64, twin: Mock)
    requires Charge(m, req, now).Ok? && twin.id == m.id
    ensures Verify(twin, Charge(m, req, now).value)
  {
    hide DigestOf;
  }

  // ------------------------------------------------------------ what is certainly detected

  /** The two byte strings have one length and differ at exactly one position. */
  ghost predicate DifferInOneByte(a: Bytes, b: Bytes, i: nat) {
    |a| == |b| && i < |a| && a[i] != b[i] && forall j :: 0 <= j < |a| && j != i ==> a[j] == b[j]
  }

  lemma RoundSeparates(salt: Byte, key: Bytes, a: Bytes, b: Bytes, i: nat)
    requires DifferInOneByte(a, b, i)
    ensures RoundOf(salt, key, a) != RoundOf(salt, key, b)
  {
    hide Fold, StartState;
    var p, tail := key + a[..i], a[i + 1..];
    assert key + a == p + [a[i]] + tail;
    assert key + b == p + [b[i]] + tail;
    OneByteChangesFold(StartState(salt), p, a[i], b[i], tail);
  }

  /** Every one of the four chunks of the digest changes. */
  lemma DigestSeparates(key: Bytes, a: Bytes, b: Bytes, i: nat)
    requires DifferInOneByte(a, b, i)
    ensures var d, e := DigestOf(key, a), DigestOf(key, b);
            d[..8] != e[..8] && d[8..16] != e[8..16] && d[16..24] != e[16..24] && d[24..] != e[24..]
  {
    hide RoundOf, LittleEndian, DifferInOneByte, DigestOf;
    DigestChunks(key, a);
    DigestChunks(key, b);
    ChunkSeparates(0, key, a, b, i);
    ChunkSeparates(1, key, a, b, i);
    ChunkSeparates(2, key, a, b, i);
    ChunkSeparates(3, key, a, b, i);
  }

  lemma DigestChunks(key: Bytes, msg: Bytes)
    ensures var d := DigestOf(key, msg);
            && d[..8] == LittleEndian(RoundOf(0, key, msg), 8) && d[8..16] == LittleEndian(RoundOf(1, key, msg), 8)
            && d[16..24] == LittleEndian(RoundOf(2, key, msg), 8) && d[24..] == LittleEndian(RoundOf(3, key, msg), 8)
  {
    hide RoundOf, LittleEndian;
  }

  /** Chunk by chunk: round n folds the key and then the message from the offset basis with n xored
      in, and prints its state low byte first. */
  lemma DigestInRounds(key: Bytes, msg: Bytes)
    ensures var d := DigestOf(key, msg);
            && d[..8] == LittleEndian(Fold(Fold(0xcbf2_9ce4_8422_2325, key), msg), 8)
            && d[8..16] == LittleEndian(Fold(Fold(0xcbf2_9ce4_8422_2324, key), msg), 8)
            && d[16..24] == LittleEndian(Fold(Fold(0xcbf2_9ce4_8422_2327, key), msg), 8)
            && d[24..] == LittleEndian(Fold(Fold(0xcbf2_9ce4_8422_2326, key), msg), 8)
  {
    DigestChunks(key, msg);
    StartStates();
    hide Fold, StartState, LittleEndian, DigestOf;
    FoldConcat(StartState(0), key, msg);
    FoldConcat(StartState(1), key, msg);
    FoldConcat(StartState(2), key, msg);
    FoldConcat(StartState(3), key, msg);
  }

  lemma ChunkSeparates(salt: Byte, key: Bytes, a: Bytes, b: Bytes, i: nat)
    requires DifferInOneByte(a, b, i)
    ensures LittleEndian(RoundOf(salt, key, a), 8) != LittleEndian(RoundOf(salt, key, b), 8)
  {
    hide RoundOf, LittleEndian, DifferInOneByte;
    RoundSeparates(salt, key, a, b, i);
    if LittleEndian(RoundOf(salt, key, a), 8) == LittleEndian(RoundOf(salt, key, b), 8) {
      LittleEndian64Injective(RoundOf(salt, key, a), RoundOf(salt, key, b));
      assert false;
    }
  }

  /** Nor is the key decoration: two keys that differ in one byte sign every message differently, in
      every chunk. */
  lemma KeysSeparate(a: Bytes, b: Bytes, i: nat, msg: Bytes)
    requires DifferInOneByte(a, b, i)
    ensures var d, e := DigestOf(a, msg), DigestOf(b, msg);
            d[..8] != e[..8] && d[8..16] != e[8..16] && d[16..24] != e[16..24] && d[24..] != e[24..]
  {
    hide RoundOf, LittleEndian, DifferInOneByte, DigestOf;
    DigestChunks(a, msg);
    DigestChunks(b, msg);
    KeyChunkSeparates(0, a, b, i, msg);
    KeyChunkSeparates(1, a, b, i, msg);
    KeyChunkSeparates(2, a, b, i, msg);
    KeyChunkSeparates(3, a, b, i, msg);
  }

  lemma KeyChunkSeparates(salt: Byte, a: Bytes, b: Bytes, i: nat, msg: Bytes)
    requires DifferInOneByte(a, b, i)
    ensures LittleEndian(RoundOf(salt, a, msg), 8) != LittleEndian(RoundOf(salt, b, msg), 8)
  {
    hide RoundOf, LittleEndian;
    assert a == a[..i] + [a[i]] + a[i + 1..] && b == a[..i] + [b[i]] + a[i + 1..];
    KeyByteChangesRound(salt, a[..i], a[i], b[i], a[i + 1..], msg);
    if LittleEndian(RoundOf(salt, a, msg), 8) == LittleEndian(RoundOf(salt, b, msg), 8) {
      LittleEndian64Injective(RoundOf(salt, a, msg), RoundOf(salt, b, msg));
      assert false;
    }
  }

  /** The four chunks of one digest are never equal: each round starts from its own state. */
  lemma ChunksDiffer(key: Bytes, msg: Bytes)
    ensures var d := DigestOf(key, msg);
            && d[..8] != d[8..16] && d[..8] != d[16..24] && d[..8] != d[24..]
            && d[8..16] != d[16..24] && d[8..16] != d[24..] && d[16..24] != d[24..]
  {
    hide RoundOf, LittleEndian, DigestOf;
    DigestChunks(key, msg);
    RoundsDiffer(0, 1, key, msg);
    RoundsDiffer(0, 2, key, msg);
    RoundsDiffer(0, 3, key, msg);
    RoundsDiffer(1, 2, key, msg);
    RoundsDiffer(1, 3, key, msg);
    RoundsDiffer(2, 3, key, msg);
  }

  lemma RoundsDiffer(r: Byte, s: Byte, key: Bytes, msg: Bytes)
    requires r < 4 && s < 4 && r != s
    ensures LittleEndian(RoundOf(r, key, msg), 8) != LittleEndian(RoundOf(s, key, msg), 8)
  {
    hide RoundOf, LittleEndian;
    SaltsSeparate(r, s, key, msg);
    if LittleEndian(RoundOf(r, key, msg), 8) == LittleEndian(RoundOf(s, key, msg), 8) {
      LittleEndian64Injective(RoundOf(r, key, msg), RoundOf(s, key, msg));
      assert false;
    }
  }

  /** Rails whose ids differ in one byte have different keys. */
  lemma IdsSeparateKeys(a: string, b: string, i: nat)
    requires DifferInOneByte(Utf8(a), Utf8(b), i)
    ensures KeyOf(a) != KeyOf(b)
  {
    hide DigestOf, DifferInOneByte, Utf8;
    DigestSeparates(Utf8(KEY_TAG), Utf8(a), Utf8(b), i);
    assert KeyOf(a)[..8] == DigestOf(Utf8(KEY_TAG), Utf8(a))[..8];
    assert KeyOf(b)[..8] == DigestOf(Utf8(KEY_TAG), Utf8(b))[..8];
  }

  /** What `verify` demands, in the receipt's own fields: this rail's id, and as proof the digest of id,
      amount, currency, reference and time under the first half of the digest of the id. */
  lemma VerifyInFields(m: Mock, r: MockReceipt)
    ensures Verify(m, r) <==>
            var id := Utf8(m.id);
            var key := DigestOf(Utf8("patala-core/mock-rail-key/v1"), id)[..16];
            && r.railId == m.id
            && r.proof == DigestOf(key, id + LittleEndian(r.amountMinor, 8) + Utf8(r.currency) + Utf8(r.reference)
                                        + LittleEndian(r.settledAt, 8))
  {
    hide DigestOf, Utf8, LittleEndian;
  }

  /** When `charge` succeeds, what its receipt says, and which refusal comes first otherwise. */
  lemma ChargeInFields(m: Mock, req: PayRequest, now: U64)
    ensures var asked := req.amountMinor != 0 && !IsBlank(req.currency) && !IsBlank(req.destination) && !IsBlank(req.reference);
            var offered := exists i :: 0 <= i < |m.currencies| && m.currencies[i] == req.currency;
            var r := Charge(m, req, now);
            && (r.Ok? <==> asked && !m.fails && offered)
            && (r == Err(InvalidRequest) <==> !asked)
            && (r == Err(ConfiguredToFail) <==> asked && m.fails)
            && (r.Ok? ==> Verify(m, r.value) && r.value.amountMinor == req.amountMinor && r.value.currency == req.currency
                          && r.value.reference == req.reference && r.value.settledAt == now && r.value.railId == m.id)
  {
    hide DigestOf, IsBlank, IsValidRequest, Sign;
    ValidIff(req);
    if Charge(m, req, now).Ok? {
      ChargeVerifies(m, req, now, m);
    }
  }

  /** Tampering is certainly detected when it changes exactly one of the signed bytes: no
      receipt with the genuine proof and such a change verifies. */
  lemma OneByteTamperDetected(m: Mock, genuine: MockReceipt, tampered: MockReceipt, i: nat)
    requires Verify(m, genuine)
    requires tampered.proof == genuine.proof
    requires DifferInOneByte(SigningBytes(m.id, genuine), SigningBytes(m.id, tampered), i)
    ensures !Verify(m, tampered)
  {
    hide DigestOf, SigningBytes, KeyOf, DifferInOneByte;
    DigestSeparates(KeyOf(m.id), SigningBytes(m.id, genuine), SigningBytes(m.id, tampered), i);
  }

  /** For instance, replacing one ASCII character of the reference by another. */
  lemma ReferenceTypoDetected(m: Mock, genuine: MockReceipt, front: string, c: char, d: char, back: string)
    requires Verify(m, genuine) && genuine.reference == front + [c] + back
    requires c != d && c as int < 0x80 && d as int < 0x80
    ensures !Verify(m, genuine.(reference := front + [d] + back))
  {
    hide Verify, SigningBytes, Utf8, DifferInOneByte;
    var tampered := genuine.(reference := front + [d] + back);
    var p := BytesBefore(m.id, genuine, front);
    var q := Utf8(back) + LittleEndian(genuine.settledAt, 8);
    SigningBytesAround(m.id, genuine, front, c, back);
    SigningBytesAround(m.id, tampered, front, d, back);
    OneByteApart(p, c as int, d as int, q);
    OneByteTamperDetected(m, genuine, tampered, |p|);
  }

  function BytesBefore(id: string, r: MockReceipt, front: string): Bytes {
    Utf8(id) + LittleEndian(r.amountMinor, 8) + Utf8(r.currency) + Utf8(front)
  }

  lemma OneByteApart(p: Bytes, a: Byte, b: Byte, q: Bytes)
    requires a != b
    ensures DifferInOneByte(p + [a] + q, p + [b] + q, |p|)
  {
  }

  lemma SigningBytesAround(id: string, r: MockReceipt, front: string, c: char, back: string)
    requires c as int < 0x80 && r.reference == front + [c] + back
    ensures SigningBytes(id, r) == BytesBefore(id, r, front) + [c as int] + (Utf8(back) + LittleEndian(r.settledAt, 8))
  {
    SingleCharBytes(front, c, back);
    hide Utf8, LittleEndian;
    var f, x, b: Bytes := Utf8(front), [c as int], Utf8(back);
    var h, t: Bytes := Utf8(id) + LittleEndian(r.amountMinor, 8) + Utf8(r.currency), LittleEndian(r.settledAt, 8);
    RegroupAround(h, f, x, b, t);
  }

  lemma RegroupAround(h: Bytes, f: Bytes, x: Bytes, b: Bytes, t: Bytes)
    ensures h + (f + x + b) + t == h + f + x + (b + t)
  {
    assert h + (f + x + b) == h + f + x + b;
    assert h + f + x + b + t == h + f + x + (b + t);
  }

  lemma SingleCharBytes(front: string, c: char, back: string)
    requires c as int < 0x80
    ensures Utf8(front + [c] + back) == Utf8(front) + [c as int] + Utf8(back)
  {
    Utf8Concat(front + [c], back);
    Utf8Concat(front, [c]);
    assert [c][1..] == [];
    assert Utf8([c]) == [c as int];
  }

  // ------------------------------------------------------------ what is not

  /** What the signed bytes determine, and all they determine: amount, time, and the currency and
      reference run together. */
  lemma SigningBytesEqualIff(id: string, r: MockReceipt, s: MockReceipt)
    ensures SigningBytes(id, r) == SigningBytes(id, s) <==>
            r.amountMinor == s.amountMinor && r.settledAt == s.settledAt
            && r.currency + r.reference == s.currency + s.reference
  {
    Utf8Concat(r.currency, r.reference);
    Utf8Concat(s.currency, s.reference);
    hide Utf8, LittleEndian;
    var x, y := SigningBytes(id, r), SigningBytes(id, s);
    var n, i := |Utf8(id)|, |x| - 8;
    var t, u := Utf8(r.currency + r.reference), Utf8(s.currency + s.reference);
    assert x == Utf8(id) + LittleEndian(r.amountMinor, 8) + t + LittleEndian(r.settledAt, 8);
    assert y == Utf8(id) + LittleEndian(s.amountMinor, 8) + u + LittleEndian(s.settledAt, 8);
    if x == y {
      assert LittleEndian(r.amountMinor, 8) == x[n..n + 8] && LittleEndian(s.amountMinor, 8) == y[n..n + 8];
      assert LittleEndian(r.settledAt, 8) == x[i..] && LittleEndian(s.settledAt, 8) == y[i..];
      assert t == x[n + 8..i] && u == y[n + 8..i];
      LittleEndian64Injective(r.amountMinor, s.amountMinor);
      LittleEndian64Injective(r.settledAt, s.settledAt);
      Utf8Injective(r.currency + r.reference, s.currency + s.reference);
    }
  }

  /** Since nothing marks where the currency ends, characters moved across that boundary go
      unnoticed: a verified receipt still verifies under any other split. */
  lemma BoundaryShiftUndetected(m: Mock, genuine: MockReceipt, currency: string, reference: string)
    requires Verify(m, genuine)
    requires currency + reference == genuine.currency + genuine.reference
    ensures Verify(m, genuine.(currency := currency, reference := reference))
  {
    hide DigestOf, KeyOf, SigningBytes;
    SigningBytesEqualIff(m.id, genuine, genuine.(currency := currency, reference := reference));
  }

  /** A concrete case: a USDC receipt for "1" passes as a USD receipt for "C1". */
  lemma UsdcPassesAsUsd(m: Mock, req: PayRequest, now: U64)
    requires Charge(m, req, now).Ok? && req.currency == "USDC" && req.reference == "1"
    ensures Verify(m, Charge(m, req, now).value.(currency := "USD", reference := "C1"))
  {
    hide DigestOf, KeyOf, SigningBytes;
    ChargeVerifies(m, req, now, m);
    assert "USD" + "C1" == "USDC" + "1";
    BoundaryShiftUndetected(m, Charge(m, req, now).value, "USD", "C1");
  }
}
