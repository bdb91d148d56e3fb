/** Legacy Solana messages and wire transactions (`patala-solana/src/tx.rs`): the byte layout,
    an independent decoder, and exactly when the decoder recovers what was encoded. */
module Message {
  import opened Prelude
  import opened AccountTable
  import CompactU16
  import Base64

  // ------------------------------------------------------------ encoding

  /** `index_of`: the first position of a key, cut to a byte. */
  function IndexByte(t: seq<AccountMeta>, k: PubKey): Byte {
    IndexOf(t, k) % 256
  }

  function KeyBytes(t: seq<AccountMeta>): Bytes {
    if t == [] then [] else t[0].key + KeyBytes(t[1..])
  }

  function AccountIndices(t: seq<AccountMeta>, accounts: seq<AccountMeta>): (bs: Bytes)
    ensures |bs| == |accounts|
  {
    seq(|accounts|, i requires 0 <= i < |accounts| => IndexByte(t, accounts[i].key))
  }

  function InstructionBytes(t: seq<AccountMeta>, ix: Instruction): Bytes {
    [IndexByte(t, ix.programId)]
    + (CompactU16.Encode(|ix.accounts|) + (AccountIndices(t, ix.accounts)
    + (CompactU16.Encode(|ix.data|) + ix.data)))
  }

  function InstructionsBytes(t: seq<AccountMeta>, ixs: seq<Instruction>): Bytes {
    if ixs == [] then [] else InstructionBytes(t, ixs[0]) + InstructionsBytes(t, ixs[1..])
  }

  function MessageBytes(payer: PubKey, ixs: seq<Instruction>, blockhash: PubKey): Bytes {
    var t := Table(payer, ixs);
    HeaderBytes(HeaderOf(t))
    + (CompactU16.Encode(|t|) + (KeyBytes(t) + (blockhash
    + (CompactU16.Encode(|ixs|) + InstructionsBytes(t, ixs)))))
  }

  type Signature = s: Bytes | |s| == 64 witness seq(64, i => 0)

  function WireBytes(sig: Signature, message: Bytes): Bytes {
    CompactU16.Encode(1) + (sig + message)
  }

  // ------------------------------------------------------------ decoding

  /** An instruction as the wire carries it: positions instead of keys. */
  datatype CompiledIx = CompiledIx(program: Byte, accounts: Bytes, data: Bytes)

  datatype Compiled = Compiled(header: Header, keys: seq<PubKey>, blockhash: PubKey, ixs: seq<CompiledIx>)

  function Take(n: nat, bs: Bytes): (r: Option<(Bytes, Bytes)>)
    ensures r.Some? ==> |r.value.0| == n
  {
    if n <= |bs| then Some((bs[..n], bs[n..])) else None
  }

  function ParseKeys(n: nat, bs: Bytes): Option<(seq<PubKey>, Bytes)> {
    if n == 0 then Some(([], bs)) else
    var (k, rest) :- Take(32, bs);
    var (ks, rest) :- ParseKeys(n - 1, rest);
    Some(([k] + ks, rest))
  }

  function ParseIx(bs: Bytes): Option<(CompiledIx, Bytes)> {
    var (p, rest) :- Take(1, bs);
    var (n, rest) :- CompactU16.Decode(rest);
    var (accounts, rest) :- Take(n, rest);
    var (m, rest) :- CompactU16.Decode(rest);
    var (data, rest) :- Take(m, rest);
    Some((CompiledIx(p[0], accounts, data), rest))
  }

  function ParseIxs(n: nat, bs: Bytes): Option<(seq<CompiledIx>, Bytes)> {
    if n == 0 then Some(([], bs)) else
    var (ix, rest) :- ParseIx(bs);
    var (ixs, rest) :- ParseIxs(n - 1, rest);
    Some(([ix] + ixs, rest))
  }

  /** A whole message with nothing left over. */
  function ParseMessage(bs: Bytes): Option<Compiled> {
    var (h, rest) :- Take(3, bs);
    var (n, rest) :- CompactU16.Decode(rest);
    var (keys, rest) :- ParseKeys(n, rest);
    var (blockhash, rest) :- Take(32, rest);
    var (m, rest) :- CompactU16.Decode(rest);
    var (ixs, rest) :- ParseIxs(m, rest);
    if rest == [] then Some(Compiled(HeaderFromBytes(h), keys, blockhash, ixs)) else None
  }

  /** A wire transaction with exactly one signature. */
  function ParseWire(bs: Bytes): Option<(Signature, Bytes)> {
    var (n, rest) :- CompactU16.Decode(bs);
    if n != 1 then None else
    var (sig, message) :- Take(64, rest);
    Some((sig, message))
  }

  /** The key and flags at a position, as the header implies them. */
  function MetaAt(c: Compiled, i: nat): Option<AccountMeta> {
    if i < |c.keys| then
      Some(AccountMeta(c.keys[i], HeaderSigner(c.header, i), HeaderWritable(c.header, i, |c.keys|)))
    else None
  }

  function ResolveAccounts(c: Compiled, indices: Bytes): Option<seq<AccountMeta>> {
    if indices == [] then Some([]) else
    var m :- MetaAt(c, indices[0]);
    var rest :- ResolveAccounts(c, indices[1..]);
    Some([m] + rest)
  }

  function ResolveIx(c: Compiled, ix: CompiledIx): Option<Instruction> {
    var p :- MetaAt(c, ix.program);
    var accounts :- ResolveAccounts(c, ix.accounts);
    Some(Instruction(p.key, accounts, ix.data))
  }

  function ResolveIxs(c: Compiled, ixs: seq<CompiledIx>): Option<seq<Instruction>> {
    if ixs == [] then Some([]) else
    var ix :- ResolveIx(c, ixs[0]);
    var rest :- ResolveIxs(c, ixs[1..]);
    Some([ix] + rest)
  }

  datatype Transaction = Transaction(signature: Signature, message: Bytes, compiled: Compiled, ixs: seq<Instruction>)

  /** From base64 text to the instructions a runtime would execute. */
  function DecodeTransaction(wire: string): Option<Transaction> {
    var bs :- Base64.Decode(wire);
    var (sig, message) :- ParseWire(bs);
    var c :- ParseMessage(message);
    var ixs :- ResolveIxs(c, c.ixs);
    Some(Transaction(sig, message, c, ixs))
  }

  // ------------------------------------------------------------ layout round trip

  function CompileIx(t: seq<AccountMeta>, ix: Instruction): CompiledIx {
    CompiledIx(IndexByte(t, ix.programId), AccountIndices(t, ix.accounts), ix.data)
  }

  function CompileIxs(t: seq<AccountMeta>, ixs: seq<Instruction>): (cs: seq<CompiledIx>)
    ensures |cs| == |ixs|
  {
    seq(|ixs|, i requires 0 <= i < |ixs| => CompileIx(t, ixs[i]))
  }

  function TableKeys(t: seq<AccountMeta>): (ks: seq<PubKey>)
    ensures |ks| == |t|
  {
    seq(|t|, i requires 0 <= i < |t| => t[i].key)
  }

  function Compile(payer: PubKey, ixs: seq<Instruction>, blockhash: PubKey): Compiled {
    var t := Table(payer, ixs);
    Compiled(HeaderFromBytes(HeaderBytes(HeaderOf(t))), TableKeys(t), blockhash, CompileIxs(t, ixs))
  }

  lemma TakeFront(a: Bytes, rest: Bytes)
    ensures Take(|a|, a + rest) == Some((a, rest))
  {
  }

  lemma {:induction false} ParseKeysOfTable(t: seq<AccountMeta>, rest: Bytes)
    ensures ParseKeys(|t|, KeyBytes(t) + rest) == Some((TableKeys(t), rest))
  {
    if t == [] {
      assert KeyBytes(t) + rest == rest;
    } else {
      var tail := t[1..];
      ParseKeysOfTable(tail, rest);
      TakeFront(t[0].key, KeyBytes(tail) + rest);
      assert [t[0].key] + TableKeys(tail) == TableKeys(t);
      hide Take, TableKeys;
      ConcatAssociates(t[0].key, KeyBytes(tail), rest);
    }
  }

  lemma ParseIxOfBytes(t: seq<AccountMeta>, ix: Instruction, rest: Bytes)
    ensures ParseIx(InstructionBytes(t, ix) + rest) == Some((CompileIx(t, ix), rest))
  {
    hide CompactU16.Encode, CompactU16.Decode, Take, IndexByte, AccountIndices;
    var p, n, a, m := [IndexByte(t, ix.programId)], CompactU16.Encode(|ix.accounts|),
                      AccountIndices(t, ix.accounts), CompactU16.Encode(|ix.data|);
    var r3 := ix.data + rest;
    var r2 := m + r3;
    var r1 := a + r2;
    var r0 := n + r1;
    assert InstructionBytes(t, ix) + rest == p + r0 by {
      RegroupIx(p, n, a, m, ix.data, rest);
    }
    TakeFront(p, r0);
    CompactU16.DecodeEncode(|ix.accounts|, r1);
    TakeFront(a, r2);
    CompactU16.DecodeEncode(|ix.data|, r3);
    TakeFront(ix.data, rest);
  }

  lemma RegroupIx(p: Bytes, n: Bytes, a: Bytes, m: Bytes, d: Bytes, rest: Bytes)
    ensures p + (n + (a + (m + d))) + rest == p + (n + (a + (m + (d + rest))))
  {
    assert (m + d) + rest == m + (d + rest);
    assert (a + (m + d)) + rest == a + ((m + d) + rest);
    assert (n + (a + (m + d))) + rest == n + ((a + (m + d)) + rest);
  }

  lemma {:induction false} ParseIxsOfBytes(t: seq<AccountMeta>, ixs: seq<Instruction>, rest: Bytes)
    ensures ParseIxs(|ixs|, InstructionsBytes(t, ixs) + rest) == Some((CompileIxs(t, ixs), rest))
  {
    hide ParseIx, InstructionBytes, CompileIx;
    if ixs == [] {
      assert InstructionsBytes(t, ixs) + rest == rest;
    } else {
      var tail := InstructionsBytes(t, ixs[1..]);
      ParseIxsOfBytes(t, ixs[1..], rest);
      ParseIxOfBytes(t, ixs[0], tail + rest);
      assert InstructionsBytes(t, ixs) + rest == InstructionBytes(t, ixs[0]) + (tail + rest);
      assert [CompileIx(t, ixs[0])] + CompileIxs(t, ixs[1..]) == CompileIxs(t, ixs);
    }
  }

  /** The layout is read back whole, for any number of keys, instructions and data bytes. */
  lemma ParseMessageOfBytes(payer: PubKey, ixs: seq<Instruction>, blockhash: PubKey)
    ensures ParseMessage(MessageBytes(payer, ixs, blockhash)) == Some(Compile(payer, ixs, blockhash))
  {
    hide CompactU16.Encode, CompactU16.Decode, Take, ParseKeys, ParseIxs, InstructionsBytes, KeyBytes,
         Table, HeaderOf, HeaderBytes, HeaderFromBytes, TableKeys, CompileIxs;
    var t := Table(payer, ixs);
    var h := HeaderBytes(HeaderOf(t));
    var r4 := InstructionsBytes(t, ixs);
    var r3 := CompactU16.Encode(|ixs|) + r4;
    var r2 := blockhash + r3;
    var r1 := KeyBytes(t) + r2;
    var r0 := CompactU16.Encode(|t|) + r1;
    TakeFront(h, r0);
    CompactU16.DecodeEncode(|t|, r1);
    ParseKeysOfTable(t, r2);
    TakeFront(blockhash, r3);
    CompactU16.DecodeEncode(|ixs|, r4);
    ParseIxsOfBytes(t, ixs, []);
    assert r4 + [] == r4;
  }

  lemma ParseWireOfBytes(sig: Signature, message: Bytes)
    ensures ParseWire(WireBytes(sig, message)) == Some((sig, message))
  {
    hide CompactU16.Encode, CompactU16.Decode, Take;
    CompactU16.DecodeEncode(1, sig + message);
    TakeFront(sig, message);
  }

  // ------------------------------------------------------------ meaning round trip

  /** The same program, the same account keys in the same order, and the same data. */
  predicate SameInstruction(a: Instruction, b: Instruction) {
    && a.programId == b.programId && a.data == b.data && |a.accounts| == |b.accounts|
    && forall i :: 0 <= i < |a.accounts| ==> a.accounts[i].key == b.accounts[i].key
  }

  predicate SameInstructions(a: seq<Instruction>, b: seq<Instruction>) {
    |a| == |b| && forall i :: 0 <= i < |a| ==> SameInstruction(a[i], b[i])
  }

  /** Instruction lists mention only keys of the table. */
  ghost predicate Covers(t: seq<AccountMeta>, ixs: seq<Instruction>) {
    forall i :: 0 <= i < |ixs| ==> CoversIx(t, ixs[i])
  }

  ghost predicate CoversIx(t: seq<AccountMeta>, ix: Instruction) {
    HasKey(t, ix.programId) && forall j :: 0 <= j < |ix.accounts| ==> HasKey(t, ix.accounts[j].key)
  }

  lemma {:induction false} AccountRequested(ixs: seq<Instruction>, i: nat, j: nat)
    requires i < |ixs| && j < |ixs[i].accounts|
    ensures ixs[i].accounts[j] in AccountRequests(ixs)
  {
    var front, last := ixs[..|ixs| - 1], ixs[|ixs| - 1];
    if i < |front| {
      AccountRequested(front, i, j);
    } else {
      assert ixs[i].accounts[j] in last.accounts;
    }
  }

  lemma {:induction false} AccountRequestOrigin(ixs: seq<Instruction>, m: AccountMeta) returns (i: nat, j: nat)
    requires m in AccountRequests(ixs)
    ensures i < |ixs| && j < |ixs[i].accounts| && ixs[i].accounts[j] == m
  {
    var front, last := ixs[..|ixs| - 1], ixs[|ixs| - 1];
    if m in AccountRequests(front) {
      i, j := AccountRequestOrigin(front, m);
    } else {
      i := |front|;
      j :| 0 <= j < |last.accounts| && last.accounts[j] == m;
    }
  }

  lemma MemberHasKey(ms: seq<AccountMeta>, m: AccountMeta)
    requires m in ms
    ensures HasKey(ms, m.key)
  {
    var i :| 0 <= i < |ms| && ms[i] == m;
    assert ms[i].key == m.key;
  }

  /** `index_of(..).unwrap()` never fails: every key an instruction mentions is in the table. */
  lemma TableCovers(payer: PubKey, ixs: seq<Instruction>)
    ensures Covers(Table(payer, ixs), ixs)
  {
    hide Table, AccountRequests;
    var requests := Requests(payer, ixs);
    TableIsMerged(payer, ixs);
    forall i | 0 <= i < |ixs|
      ensures CoversIx(Table(payer, ixs), ixs[i])
    {
      assert ProgramRequests(ixs)[i] in requests;
      MemberHasKey(requests, ProgramRequests(ixs)[i]);
      forall j | 0 <= j < |ixs[i].accounts|
        ensures HasKey(Table(payer, ixs), ixs[i].accounts[j].key)
      {
        AccountRequested(ixs, i, j);
        assert ixs[i].accounts[j] in requests;
        MemberHasKey(requests, ixs[i].accounts[j]);
      }
    }
  }

  lemma IndexByteFinds(t: seq<AccountMeta>, c: Compiled, k: PubKey)
    requires |t| <= 256 && HasKey(t, k) && c.keys == TableKeys(t)
    ensures IndexByte(t, k) < |t| && t[IndexByte(t, k)].key == k
    ensures MetaAt(c, IndexByte(t, k)).Some? && MetaAt(c, IndexByte(t, k)).value.key == k
  {
    IndexOfFinds(t, k);
  }

  lemma {:induction false} ResolveAccountsRecovers(t: seq<AccountMeta>, c: Compiled, accounts: seq<AccountMeta>)
    requires |t| <= 256 && c.keys == TableKeys(t)
    requires forall j :: 0 <= j < |accounts| ==> HasKey(t, accounts[j].key)
    ensures var r := ResolveAccounts(c, AccountIndices(t, accounts));
            && r.Some? && |r.value| == |accounts|
            && forall j :: 0 <= j < |accounts| ==>
                 r.value[j].key == accounts[j].key && MetaAt(c, IndexByte(t, accounts[j].key)) == Some(r.value[j])
  {
    hide MetaAt, IndexByte;
    if accounts != [] {
      IndexByteFinds(t, c, accounts[0].key);
      ResolveAccountsRecovers(t, c, accounts[1..]);
      var all := AccountIndices(t, accounts);
      assert all[1..] == AccountIndices(t, accounts[1..]);
    }
  }

  lemma ResolveIxRecovers(t: seq<AccountMeta>, c: Compiled, ix: Instruction)
    requires |t| <= 256 && c.keys == TableKeys(t) && CoversIx(t, ix)
    ensures ResolveIx(c, CompileIx(t, ix)).Some?
    ensures SameInstruction(ResolveIx(c, CompileIx(t, ix)).value, ix)
  {
    hide MetaAt, IndexByte, ResolveAccounts, AccountIndices;
    IndexByteFinds(t, c, ix.programId);
    ResolveAccountsRecovers(t, c, ix.accounts);
  }

  lemma {:induction false} ResolveIxsRecovers(t: seq<AccountMeta>, c: Compiled, ixs: seq<Instruction>)
    requires |t| <= 256 && c.keys == TableKeys(t) && Covers(t, ixs)
    ensures ResolveIxs(c, CompileIxs(t, ixs)).Some?
    ensures SameInstructions(ResolveIxs(c, CompileIxs(t, ixs)).value, ixs)
  {
    hide ResolveIx, CompileIx, SameInstruction, CoversIx;
    if ixs != [] {
      ResolveIxRecovers(t, c, ixs[0]);
      ResolveIxsRecovers(t, c, ixs[1..]);
      assert CompileIxs(t, ixs)[1..] == CompileIxs(t, ixs[1..]);
    }
  }

  lemma {:induction false} ResolvedIxAt(c: Compiled, cs: seq<CompiledIx>, i: nat)
    requires ResolveIxs(c, cs).Some? && i < |cs|
    ensures |ResolveIxs(c, cs).value| == |cs|
    ensures ResolveIx(c, cs[i]) == Some(ResolveIxs(c, cs).value[i])
  {
    hide ResolveIx;
    if i > 0 {
      ResolvedIxAt(c, cs[1..], i - 1);
    } else if |cs| > 1 {
      ResolvedIxAt(c, cs[1..], 0);
    }
  }

  lemma {:induction false} ResolvedAccountAt(c: Compiled, indices: Bytes, j: nat)
    requires ResolveAccounts(c, indices).Some? && j < |indices|
    ensures j < |ResolveAccounts(c, indices).value|
    ensures MetaAt(c, indices[j]) == Some(ResolveAccounts(c, indices).value[j])
  {
    hide MetaAt;
    if j > 0 {
      ResolvedAccountAt(c, indices[1..], j - 1);
    }
  }

  lemma IndexOfEntry(t: seq<AccountMeta>, i: nat)
    requires DistinctKeys(t) && i < |t|
    ensures IndexOf(t, t[i].key) == i
  {
    IndexOfFinds(t, t[i].key);
    assert HasKey(t, t[i].key);
  }

  /** Past 256 keys the index of the 257th is cut to zero, and some instruction that names
      it decodes to naming the payer instead. */
  lemma OversizedTableMisresolves(payer: PubKey, ixs: seq<Instruction>, c: Compiled)
    requires |Table(payer, ixs)| > 256 && c.keys == TableKeys(Table(payer, ixs))
    requires ResolveIxs(c, CompileIxs(Table(payer, ixs), ixs)).Some?
    ensures !SameInstructions(ResolveIxs(c, CompileIxs(Table(payer, ixs), ixs)).value, ixs)
  {
    var t := Table(payer, ixs);
    var requests := Requests(payer, ixs);
    var cs := CompileIxs(t, ixs);
    TableIsMerged(payer, ixs);
    hide Table, AccountRequests, ResolveIxs, ResolveAccounts;
    var k := t[256].key;
    IndexOfEntry(t, 256);
    assert IndexByte(t, k) == 0 && k != payer;
    assert HasKey(t, k);
    var r :| 0 <= r < |requests| && requests[r].key == k;
    hide Requests, IndexByte, CompileIxs, SameInstructions;
    if requests[r] in AccountRequests(ixs) {
      var i, j := AccountRequestOrigin(ixs, requests[r]);
      AccountMisresolves(t, c, ixs, i, j);
    } else {
      assert requests[r] in ProgramRequests(ixs) by {
        RequestOrigin(payer, ixs, r);
      }
      var i :| 0 <= i < |ixs| && ProgramRequests(ixs)[i] == requests[r];
      ProgramMisresolves(t, c, ixs, i);
    }
  }

  lemma RequestOrigin(payer: PubKey, ixs: seq<Instruction>, r: nat)
    requires r < |Requests(payer, ixs)|
    ensures var m := Requests(payer, ixs)[r];
            m == AccountMeta(payer, true, true) || m in AccountRequests(ixs) || m in ProgramRequests(ixs)
  {
    hide AccountRequests, ProgramRequests;
  }

  /** An account whose index is cut to zero decodes to the first key of the table. */
  lemma AccountMisresolves(t: seq<AccountMeta>, c: Compiled, ixs: seq<Instruction>, i: nat, j: nat)
    requires t != [] && c.keys == TableKeys(t) && ResolveIxs(c, CompileIxs(t, ixs)).Some?
    requires i < |ixs| && j < |ixs[i].accounts|
    requires IndexByte(t, ixs[i].accounts[j].key) == 0 && ixs[i].accounts[j].key != t[0].key
    ensures !SameInstructions(ResolveIxs(c, CompileIxs(t, ixs)).value, ixs)
  {
    hide ResolveIxs, ResolveAccounts, IndexByte;
    var cs := CompileIxs(t, ixs);
    ResolvedIxAt(c, cs, i);
    ResolvedAccountAt(c, cs[i].accounts, j);
    assert ResolveIxs(c, cs).value[i].accounts[j].key == t[0].key;
  }

  lemma ProgramMisresolves(t: seq<AccountMeta>, c: Compiled, ixs: seq<Instruction>, i: nat)
    requires t != [] && c.keys == TableKeys(t) && ResolveIxs(c, CompileIxs(t, ixs)).Some?
    requires i < |ixs| && IndexByte(t, ixs[i].programId) == 0 && ixs[i].programId != t[0].key
    ensures !SameInstructions(ResolveIxs(c, CompileIxs(t, ixs)).value, ixs)
  {
    hide ResolveIxs, ResolveAccounts, IndexByte;
    var cs := CompileIxs(t, ixs);
    ResolvedIxAt(c, cs, i);
    assert ResolveIxs(c, cs).value[i].programId == t[0].key;
  }

  lemma {:induction false} EveryByteResolves(c: Compiled, indices: Bytes)
    requires |c.keys| >= 256
    ensures ResolveAccounts(c, indices).Some?
  {
    if indices != [] {
      EveryByteResolves(c, indices[1..]);
    }
  }

  lemma {:induction false} EveryIxResolves(c: Compiled, cs: seq<CompiledIx>)
    requires |c.keys| >= 256
    ensures ResolveIxs(c, cs).Some?
  {
    if cs != [] {
      EveryByteResolves(c, cs[0].accounts);
      EveryIxResolves(c, cs[1..]);
    }
  }

  /** From the base64 text of a wire transaction the decoder recovers the signature, the
      message and the blockhash always; it recovers every instruction, in order, with the
      same program, account keys and data, if and only if the account table has at most 256 keys. */
  lemma WireRoundTripIff(sig: Signature, payer: PubKey, ixs: seq<Instruction>, blockhash: PubKey)
    ensures var message := MessageBytes(payer, ixs, blockhash);
            var c := Compile(payer, ixs, blockhash);
            var r := DecodeTransaction(Base64.Encode(WireBytes(sig, message)));
            && r.Some? && r.value.signature == sig && r.value.message == message && r.value.compiled == c
            && (SameInstructions(r.value.ixs, ixs) <==> |Table(payer, ixs)| <= 256)
  {
    hide Table, MessageBytes, ParseMessage, ParseWire, WireBytes, ResolveIxs, SameInstructions, CompileIxs;
    var message := MessageBytes(payer, ixs, blockhash);
    var c := Compile(payer, ixs, blockhash);
    Base64.DecodeEncode(WireBytes(sig, message));
    ParseWireOfBytes(sig, message);
    ParseMessageOfBytes(payer, ixs, blockhash);
    if |Table(payer, ixs)| <= 256 {
      TableCovers(payer, ixs);
      ResolveIxsRecovers(Table(payer, ixs), c, ixs);
    } else {
      EveryIxResolves(c, c.ixs);
      OversizedTableMisresolves(payer, ixs, c);
    }
  }

  /** One instruction with 257 distinct accounts is such a list: it is sent, and it decodes to a
      different instruction. */
  lemma CrowdDecodesDifferently(sig: Signature, blockhash: PubKey)
    ensures var payer, ixs := KeyNumber(0), [CrowdedInstruction(false)];
            var r := DecodeTransaction(Base64.Encode(WireBytes(sig, MessageBytes(payer, ixs, blockhash))));
            |Table(payer, ixs)| > 256 && r.Some? && !SameInstructions(r.value.ixs, ixs)
  {
    hide Table, MessageBytes, WireBytes, DecodeTransaction, SameInstructions, KeyNumber, CrowdedInstruction;
    CrowdedTable(false);
    WireRoundTripIff(sig, KeyNumber(0), [CrowdedInstruction(false)], blockhash);
  }

  // ------------------------------------------------------------ the encoder, step by step

  lemma MergeStep(requests: seq<AccountMeta>, m: AccountMeta)
    ensures Merge(requests + [m]) == Add(Merge(requests), m)
  {
    assert (requests + [m])[..|requests|] == requests;
  }

  /** The two collecting loops of `serialize_message`. */
  method CollectKeys(payer: PubKey, ixs: seq<Instruction>) returns (keys: seq<AccountMeta>)
    ensures keys == Merge(Requests(payer, ixs))
  {
    hide Merge, Add;
    ghost var requests: seq<AccountMeta> := [];
    keys := [AccountMeta(payer, true, true)];
    MergeSingle(AccountMeta(payer, true, true));
    requests := [AccountMeta(payer, true, true)];
    var i := 0;
    while i < |ixs|
      invariant 0 <= i <= |ixs|
      invariant requests == [AccountMeta(payer, true, true)] + AccountRequests(ixs[..i])
      invariant keys == Merge(requests)
    {
      ghost var before := requests;
      var j := 0;
      while j < |ixs[i].accounts|
        invariant 0 <= j <= |ixs[i].accounts|
        invariant requests == before + ixs[i].accounts[..j]
        invariant keys == Merge(requests)
      {
        MergeStep(requests, ixs[i].accounts[j]);
        keys := Add(keys, ixs[i].accounts[j]);
        requests := requests + [ixs[i].accounts[j]];
        j := j + 1;
      }
      assert ixs[..i + 1][..i] == ixs[..i];
      assert ixs[i].accounts[..j] == ixs[i].accounts;
      i := i + 1;
    }
    assert ixs[..i] == ixs;
    ghost var before := requests;
    i := 0;
    while i < |ixs|
      invariant 0 <= i <= |ixs|
      invariant requests == before + ProgramRequests(ixs)[..i]
      invariant keys == Merge(requests)
    {
      var m := AccountMeta(ixs[i].programId, false, false);
      MergeStep(requests, m);
      keys := Add(keys, m);
      requests := requests + [m];
      i := i + 1;
    }
    assert ProgramRequests(ixs)[..i] == ProgramRequests(ixs);
  }

  lemma MergeSingle(m: AccountMeta)
    ensures Merge([m]) == [m]
  {
    assert Merge([m][..0]) == [];
  }

  /** `serialize_message` */
  method SerializeMessage(payer: PubKey, ixs: seq<Instruction>, blockhash: PubKey) returns (out: Bytes)
    ensures out == MessageBytes(payer, ixs, blockhash)
  {
    hide Merge, SortByRank, CountIf, CompactU16.Encode, IndexOf;
    var collected := CollectKeys(payer, ixs);
    var keys := SortByRank(collected);
    var numSigners := CountIf(keys, IsSigner) % 256;
    var numReadonlySigned := CountIf(keys, IsReadonlySigned) % 256;
    var numReadonlyUnsigned := CountIf(keys, IsReadonlyUnsigned) % 256;
    out := [numSigners, numReadonlySigned, numReadonlyUnsigned];
    ghost var h := out;
    out := CompactU16.Push(|keys|, out);
    out := PushKeys(keys, out);
    out := out + blockhash;
    out := CompactU16.Push(|ixs|, out);
    out := PushInstructions(keys, ixs, out);
    RegroupMessage(h, CompactU16.Encode(|keys|), KeyBytes(keys), blockhash, CompactU16.Encode(|ixs|), InstructionsBytes(keys, ixs));
  }

  lemma RegroupMessage(h: Bytes, n: Bytes, k: Bytes, b: Bytes, m: Bytes, x: Bytes)
    ensures h + n + k + b + m + x == h + (n + (k + (b + (m + x))))
  {
    ConcatAssociates(h + n + k + b, m, x);
    ConcatAssociates(h + n + k, b, m + x);
    ConcatAssociates(h + n, k, b + (m + x));
    ConcatAssociates(h, n, k + (b + (m + x)));
  }

  method PushKeys(keys: seq<AccountMeta>, out: Bytes) returns (out': Bytes)
    ensures out' == out + KeyBytes(keys)
  {
    out' := out;
    var i := 0;
    while i < |keys|
      invariant 0 <= i <= |keys|
      invariant out' + KeyBytes(keys[i..]) == out + KeyBytes(keys)
    {
      assert keys[i..][1..] == keys[i + 1..];
      out' := out' + keys[i].key;
      i := i + 1;
    }
    assert keys[i..] == [];
  }

  method PushInstructions(keys: seq<AccountMeta>, ixs: seq<Instruction>, out: Bytes) returns (out': Bytes)
    ensures out' == out + InstructionsBytes(keys, ixs)
  {
    hide InstructionBytes;
    out' := out;
    var i := 0;
    while i < |ixs|
      invariant 0 <= i <= |ixs|
      invariant out' + InstructionsBytes(keys, ixs[i..]) == out + InstructionsBytes(keys, ixs)
    {
      assert ixs[i..][1..] == ixs[i + 1..];
      var rest := out';
      out' := PushInstruction(keys, ixs[i], out');
      assert out' == rest + InstructionBytes(keys, ixs[i]);
      i := i + 1;
    }
    assert ixs[i..] == [];
  }

  method PushInstruction(keys: seq<AccountMeta>, ix: Instruction, out: Bytes) returns (out': Bytes)
    ensures out' == out + InstructionBytes(keys, ix)
  {
    hide CompactU16.Encode, IndexOf;
    out' := out + [IndexByte(keys, ix.programId)];
    out' := CompactU16.Push(|ix.accounts|, out');
    ghost var before := out';
    var j := 0;
    while j < |ix.accounts|
      invariant 0 <= j <= |ix.accounts|
      invariant out' == before + AccountIndices(keys, ix.accounts)[..j]
    {
      out' := out' + [IndexByte(keys, ix.accounts[j].key)];
      j := j + 1;
    }
    assert AccountIndices(keys, ix.accounts)[..j] == AccountIndices(keys, ix.accounts);
    out' := CompactU16.Push(|ix.data|, out');
    out' := out' + ix.data;
    RegroupPushed(out, [IndexByte(keys, ix.programId)], CompactU16.Encode(|ix.accounts|),
                  AccountIndices(keys, ix.accounts), CompactU16.Encode(|ix.data|), ix.data);
  }

  lemma RegroupPushed(o: Bytes, p: Bytes, n: Bytes, a: Bytes, m: Bytes, d: Bytes)
    ensures o + p + n + a + m + d == o + (p + (n + (a + (m + d))))
  {
    ConcatAssociates(o + p + n + a, m, d);
    ConcatAssociates(o + p + n, a, m + d);
    ConcatAssociates(o + p, n, a + (m + d));
    ConcatAssociates(o, p, n + (a + (m + d)));
  }

  /** `wire_transaction` */
  method WireTransaction(sig: Signature, message: Bytes) returns (out: Bytes)
    ensures out == WireBytes(sig, message)
  {
    hide CompactU16.Encode;
    var empty: Bytes := [];
    out := CompactU16.Push(1, empty);
    out := out + sig;
    out := out + message;
    assert empty + CompactU16.Encode(1) == CompactU16.Encode(1);
    assert CompactU16.Encode(1) + sig + message == CompactU16.Encode(1) + (sig + message);
  }

  // ------------------------------------------------------------ where each part lies

  lemma {:induction false} KeyBytesAt(t: seq<AccountMeta>, i: nat)
    ensures |KeyBytes(t)| == 32 * |t|
    ensures i < |t| ==> KeyBytes(t)[32 * i..32 * i + 32] == t[i].key
  {
    if t != [] {
      KeyBytesAt(t[1..], if i > 0 then i - 1 else 0);
      if i > 0 && i < |t| {
        var rest := KeyBytes(t[1..]);
        assert t[1..][i - 1] == t[i];
        assert KeyBytes(t)[32 * i..32 * i + 32] == rest[32 * (i - 1)..32 * (i - 1) + 32];
      }
    }
  }

  /** The first `signers` keys sign, all but the last `readonlySigned` of them writable, and of the
      others all but the last `readonlyUnsigned` are writable. */
  ghost predicate FlagsLieBy(t: seq<AccountMeta>, signers: int, readonlySigned: int, readonlyUnsigned: int) {
    forall i: nat :: i < |t| ==>
      && (t[i].signer <==> i < signers)
      && (t[i].writable <==> if i < signers then i < signers - readonlySigned else i < |t| - readonlyUnsigned)
  }

  /** The keys follow the fourth byte, 32 bytes each. */
  ghost predicate KeysLieIn(t: seq<AccountMeta>, m: Bytes) {
    |m| >= 4 + 32 * |t| && forall i: nat :: i < |t| ==> m[4 + 32 * i..36 + 32 * i] == t[i].key
  }

  /** The header bytes decide every flag of a table of fewer than 128 keys. */
  lemma HeaderDecidesFlags(keys: seq<AccountMeta>)
    requires |SortByRank(keys)| < 128
    ensures var t := SortByRank(keys); var bs := HeaderBytes(HeaderOf(t));
            FlagsLieBy(t, bs[0], bs[1], bs[2])
  {
    CountsFit(keys);
    CountsDecideFlags(keys);
    hide SortByRank, HeaderOf, FlagsLieBy;
  }

  lemma CountsDecideFlags(keys: seq<AccountMeta>)
    ensures var t := SortByRank(keys); var h := HeaderOf(t);
            FlagsLieBy(t, h.signers, h.readonlySigned, h.readonlyUnsigned)
  {
    hide SortByRank, HeaderOf;
    var t := SortByRank(keys);
    forall i: nat | i < |t|
      ensures t[i].signer <==> HeaderSigner(HeaderOf(t), i)
      ensures t[i].writable <==> HeaderWritable(HeaderOf(t), i, |t|)
    {
      CountsRecoverFlags(keys, i);
    }
  }

  lemma CountsFit(keys: seq<AccountMeta>)
    requires |SortByRank(keys)| < 128
    ensures var h := HeaderOf(SortByRank(keys)); h.signers < 128 && h.readonlySigned < 128 && h.readonlyUnsigned < 128
  {
    hide SortByRank;
  }

  lemma Parts(head: Bytes, n: Byte, body: Bytes, blockhash: PubKey, count: Byte, rest: Bytes, m: Bytes)
    requires |head| == 3 && m == head + ([n] + (body + (blockhash + ([count] + rest))))
    ensures var at := 4 + |body|;
            && |m| == at + 33 + |rest| && m[..3] == head && m[3] == n && m[4..at] == body
            && m[at..at + 32] == blockhash && m[at + 32] == count && m[at + 33..] == rest
  {
    var at, tail := 4 + |body|, blockhash + ([count] + rest);
    assert m == head + [n] + body + tail;
    assert m[at..] == tail;
    assert m[at..at + 32] == tail[..32] && m[at + 32] == tail[32] && m[at + 33..] == tail[33..];
  }

  lemma SliceOfSlice(s: Bytes, a: nat, b: nat, c: nat, d: nat)
    requires a <= b <= |s| && c <= d <= b - a
    ensures s[a..b][c..d] == s[a + c..a + d]
  {
    var x, y := s[a..b][c..d], s[a + c..a + d];
    assert |x| == |y| && forall i :: 0 <= i < |x| ==> x[i] == y[i];
  }

  lemma KeysFollow(t: seq<AccountMeta>, m: Bytes)
    requires |m| >= 4 + 32 * |t| && m[4..4 + 32 * |t|] == KeyBytes(t)
    ensures KeysLieIn(t, m)
  {
    hide KeyBytes;
    var body := KeyBytes(t);
    forall i: nat | i < |t|
      ensures m[4 + 32 * i..36 + 32 * i] == t[i].key
    {
      KeyBytesAt(t, i);
      SliceOfSlice(m, 4, 4 + 32 * |t|, 32 * i, 32 * i + 32);
    }
  }

  /** Three header bytes that decide every flag, the number of keys, the keys, the blockhash, the
      number of instructions, and the instructions. */
  ghost predicate LaidOut(m: Bytes, t: seq<AccountMeta>, blockhash: PubKey, count: nat, instructions: Bytes) {
    var at := 4 + 32 * |t|;
    && |m| > at + 32
    && FlagsLieBy(t, m[0], m[1], m[2])
    && m[3] == |t| && KeysLieIn(t, m)
    && m[at..at + 32] == blockhash && m[at + 32] == count && m[at + 33..] == instructions
  }

  lemma LayoutOfParts(head: Bytes, t: seq<AccountMeta>, blockhash: PubKey, count: Byte, rest: Bytes, m: Bytes)
    requires |head| == 3 && |t| < 128 && FlagsLieBy(t, head[0], head[1], head[2])
    requires m == head + ([|t|] + (KeyBytes(t) + (blockhash + ([count] + rest))))
    ensures LaidOut(m, t, blockhash, count, rest)
  {
    hide FlagsLieBy, KeysLieIn, KeyBytes;
    KeyBytesAt(t, 0);
    Parts(head, |t|, KeyBytes(t), blockhash, count, rest, m);
    KeysFollow(t, m);
    assert m[0] == m[..3][0] && m[1] == m[..3][1] && m[2] == m[..3][2];
  }

  /** The layout of a message with fewer than 128 keys and instructions, byte by byte. */
  lemma MessagePositions(payer: PubKey, ixs: seq<Instruction>, blockhash: PubKey)
    requires |Table(payer, ixs)| < 128 && |ixs| < 128
    ensures LaidOut(MessageBytes(payer, ixs, blockhash), Table(payer, ixs), blockhash, |ixs|, InstructionsBytes(Table(payer, ixs), ixs))
  {
    HeaderDecidesFlags(Merge(Requests(payer, ixs)));
    SmallCounts(payer, ixs, blockhash);
    hide Merge, Requests, SortByRank, HeaderOf, HeaderBytes, InstructionsBytes, KeyBytes, FlagsLieBy, LaidOut, MessageBytes;
    var t := Table(payer, ixs);
    LayoutOfParts(HeaderBytes(HeaderOf(t)), t, blockhash, |ixs|, InstructionsBytes(t, ixs), MessageBytes(payer, ixs, blockhash));
  }

  /** Counts below 128 take one byte. */
  lemma SmallCounts(payer: PubKey, ixs: seq<Instruction>, blockhash: PubKey)
    requires |Table(payer, ixs)| < 128 && |ixs| < 128
    ensures var t := Table(payer, ixs);
            MessageBytes(payer, ixs, blockhash) ==
            HeaderBytes(HeaderOf(t)) + ([|t|] + (KeyBytes(t) + (blockhash + ([|ixs|] + InstructionsBytes(t, ixs)))))
  {
    hide Table, HeaderOf, HeaderBytes, InstructionsBytes, KeyBytes;
  }

  /** The layout of an instruction with fewer than 128 accounts and data bytes: the position of its
      program, the number of accounts, their positions, the number of data bytes, and the data. */
  lemma InstructionPositions(t: seq<AccountMeta>, ix: Instruction)
    requires CoversIx(t, ix) && |t| <= 256 && |ix.accounts| < 128 && |ix.data| < 128
    ensures var bs, a := InstructionBytes(t, ix), |ix.accounts|;
            && |bs| == 3 + a + |ix.data|
            && bs[0] < |t| && t[bs[0]].key == ix.programId
            && bs[1] == a && bs[2 + a] == |ix.data| && bs[3 + a..] == ix.data
            && forall j: nat :: j < a ==> bs[2 + j] < |t| && t[bs[2 + j]].key == ix.accounts[j].key
  {
    SmallInstruction(t, ix);
    PositionOf(t, ix.programId);
    AccountPositions(t, ix.accounts);
    hide CoversIx, IndexByte, InstructionBytes, AccountIndices;
    InstructionParts(IndexByte(t, ix.programId), |ix.accounts|, AccountIndices(t, ix.accounts), |ix.data|, ix.data, InstructionBytes(t, ix));
  }

  lemma AccountPositions(t: seq<AccountMeta>, accounts: seq<AccountMeta>)
    requires |t| <= 256 && forall j :: 0 <= j < |accounts| ==> HasKey(t, accounts[j].key)
    ensures var indices := AccountIndices(t, accounts);
            forall j: nat :: j < |accounts| ==> indices[j] < |t| && t[indices[j]].key == accounts[j].key
  {
    hide HasKey, IndexByte;
    forall j: nat | j < |accounts|
      ensures var i := AccountIndices(t, accounts)[j]; i < |t| && t[i].key == accounts[j].key
    {
      PositionOf(t, accounts[j].key);
    }
  }

  lemma SmallInstruction(t: seq<AccountMeta>, ix: Instruction)
    requires |ix.accounts| < 128 && |ix.data| < 128
    ensures InstructionBytes(t, ix) ==
            [IndexByte(t, ix.programId)] + ([|ix.accounts|] + (AccountIndices(t, ix.accounts) + ([|ix.data|] + ix.data)))
  {
    hide IndexByte, AccountIndices;
  }

  lemma InstructionParts(p: Byte, a: Byte, indices: Bytes, n: Byte, data: Bytes, bs: Bytes)
    requires bs == [p] + ([a] + (indices + ([n] + data)))
    ensures var at := 2 + |indices|;
            && |bs| == at + 1 + |data| && bs[0] == p && bs[1] == a && bs[at] == n && bs[at + 1..] == data
            && forall j: nat :: j < |indices| ==> bs[2 + j] == indices[j]
  {
    assert bs == [p] + [a] + indices + [n] + data;
  }

  lemma PositionOf(t: seq<AccountMeta>, k: PubKey)
    requires HasKey(t, k) && |t| <= 256
    ensures IndexByte(t, k) < |t| && t[IndexByte(t, k)].key == k
  {
  }

  /** A wire transaction is the byte one, the 64 signature bytes and the message. */
  lemma WirePositions(sig: Signature, message: Bytes)
    ensures var bs := WireBytes(sig, message);
            |bs| == 65 + |message| && bs[0] == 1 && bs[1..65] == sig && bs[65..] == message
  {
    assert CompactU16.Encode(1) == [1];
    assert WireBytes(sig, message) == [1] + sig + message;
  }
}
