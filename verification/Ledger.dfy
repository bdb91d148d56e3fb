/** A small token ledger that decodes, executes and reports transactions independently of the
    code that builds them, and the end-to-end theorem: what `charge` sends, once executed and
    reported, is what `verify` accepts. */
module Ledger {
  import opened Prelude
  import opened Text
  import opened Decimal
  import opened Rail
  import opened Balances
  import opened SolanaRail
  import opened AccountTable
  import opened Message
  import opened SolanaCharge
  import Base58
  import Base64

  datatype TokenAccount = TokenAccount(mint: PubKey, owner: PubKey, amount: U64)

  /** Token accounts by address, and the decimals of each mint. */
  datatype State = State(accounts: map<PubKey, TokenAccount>, decimals: map<PubKey, Byte>)

  // ------------------------------------------------------------ execution

  /** When the token program lets a checked transfer through. */
  predicate MayTransfer(l: State, source: PubKey, mint: PubKey, dest: PubKey, authority: PubKey, amount: nat, decimals: Byte) {
    && source in l.accounts && dest in l.accounts
    && l.accounts[source].mint == mint && l.accounts[dest].mint == mint
    && mint in l.decimals && l.decimals[mint] == decimals
    && l.accounts[source].owner == authority
    && amount <= l.accounts[source].amount
    && (source != dest ==> l.accounts[dest].amount + amount < U64_BOUND)
  }

  function Transfer(l: State, source: PubKey, dest: PubKey, amount: nat): State
    requires source in l.accounts && dest in l.accounts && amount <= l.accounts[source].amount
    requires source != dest ==> l.accounts[dest].amount + amount < U64_BOUND
  {
    if source == dest then l else
    var from, to := l.accounts[source], l.accounts[dest];
    l.(accounts := l.accounts[source := from.(amount := from.amount - amount)][dest := to.(amount := to.amount + amount)])
  }

  /** The token program: TransferChecked only. */
  function ExecToken(l: State, ix: Instruction): Option<State> {
    if |ix.data| != 10 || ix.data[0] != 12 || |ix.accounts| < 4 then None else
    var amount, decimals := FromLittleEndian(ix.data[1..9]), ix.data[9];
    var source, mint, dest, authority := ix.accounts[0], ix.accounts[1], ix.accounts[2], ix.accounts[3];
    if source.writable && dest.writable && authority.signer
       && MayTransfer(l, source.key, mint.key, dest.key, authority.key, amount, decimals)
    then Some(Transfer(l, source.key, dest.key, amount)) else None
  }

  /** The memo program: UTF-8 text, every listed account a signer. */
  predicate MemoAllowed(ix: Instruction) {
    FromUtf8(ix.data).Some? && forall i :: 0 <= i < |ix.accounts| ==> ix.accounts[i].signer
  }

  function ExecIx(l: State, ix: Instruction): Option<State> {
    if ix.programId == TOKEN_PROGRAM then ExecToken(l, ix)
    else if ix.programId == MEMO_PROGRAM && MemoAllowed(ix) then Some(l)
    else None
  }

  function ExecIxs(l: State, ixs: seq<Instruction>): Option<State>
    decreases ixs
  {
    if ixs == [] then Some(l) else
    var l' :- ExecIx(l, ixs[0]);
    ExecIxs(l', ixs[1..])
  }

  // ------------------------------------------------------------ reporting

  /** The balances of the token accounts among the transaction's keys. */
  function Report(l: State, keys: seq<PubKey>): seq<TokenBalance> {
    if keys == [] then []
    else if keys[0] in l.accounts then
      var a := l.accounts[keys[0]];
      [TokenBalance(Some(Base58.Encode(a.mint)), Some(Base58.Encode(a.owner)), Some(PrintNat(a.amount)))] + Report(l, keys[1..])
    else Report(l, keys[1..])
  }

  function ReportIx(ix: Instruction): ParsedIx {
    if ix.programId == MEMO_PROGRAM then ParsedIx(Some("spl-memo"), FromUtf8(ix.data))
    else ParsedIx(Some("spl-token"), None)
  }

  function ReportKeys(c: Compiled): seq<AccountKey> {
    seq(|c.keys|, i requires 0 <= i < |c.keys| =>
      AccountKey(Some(Base58.Encode(c.keys[i])), Some(HeaderSigner(c.header, i))))
  }

  function ReportIxs(ixs: seq<Instruction>): seq<ParsedIx> {
    seq(|ixs|, i requires 0 <= i < |ixs| => ReportIx(ixs[i]))
  }

  /** Decode the text, demand one signature for one signer, execute, and report. */
  function Execute(l: State, wire: string, status: Option<string>): Option<(State, Txn)> {
    var tx :- DecodeTransaction(wire);
    if tx.compiled.header.signers != 1 then None else
    var l' :- ExecIxs(l, tx.ixs);
    Some((l', ReportTxn(l, l', tx, status)))
  }

  function ReportTxn(l: State, l': State, tx: Transaction, status: Option<string>): Txn {
    Txn(Some(Meta(Null, Some([]), Some(Report(l, tx.compiled.keys)), Some(Report(l', tx.compiled.keys)))),
        status, Some(ReportKeys(tx.compiled)), Some(ReportIxs(tx.ixs)))
  }

  // ------------------------------------------------------------ the charged message, decoded

  lemma {:induction false} MergeLength(requests: seq<AccountMeta>)
    ensures |Merge(requests)| <= |requests|
  {
    hide IndexOf;
    if requests != [] {
      MergeLength(requests[..|requests| - 1]);
    }
  }

  lemma TableLength(payer: PubKey, ixs: seq<Instruction>)
    ensures |Table(payer, ixs)| <= |Requests(payer, ixs)|
  {
    hide AccountRequests;
    var requests := Requests(payer, ixs);
    MergeIsMerged(requests);
    SortKeepsEntries(Merge(requests));
    MergedFollowsEntries(Merge(requests), Table(payer, ixs), requests);
    MergeLength(requests);
  }

  /** Everything the payment asks of its account table. */
  lemma PaymentRequests(cfg: Config, d: Draft, amount: U64)
    ensures Requests(d.payer, PaymentInstructions(cfg, d, amount)) ==
            [ AccountMeta(d.payer, true, true), AccountMeta(d.payer, true, false), AccountMeta(d.source, false, true),
              AccountMeta(cfg.mint, false, false), AccountMeta(d.destAta, false, true), AccountMeta(d.payer, true, false),
              AccountMeta(MEMO_PROGRAM, false, false), AccountMeta(TOKEN_PROGRAM, false, false) ]
  {
    hide TransferData, Utf8;
    var ixs := PaymentInstructions(cfg, d, amount);
    assert ixs[..1] == [ixs[0]] && ixs[..0] == [];
    assert ixs[..1][..0] == [];
    assert AccountRequests([]) == [];
    assert AccountRequests(ixs[..1]) == ixs[0].accounts;
    assert AccountRequests(ixs) == ixs[0].accounts + ixs[1].accounts;
    assert ProgramRequests(ixs) == [AccountMeta(MEMO_PROGRAM, false, false), AccountMeta(TOKEN_PROGRAM, false, false)];
  }

  /** With at most 255 keys, a byte index resolves to the table entry with its true flags. */
  lemma IndexResolves(keys: seq<AccountMeta>, c: Compiled, k: PubKey)
    requires var t := SortByRank(keys);
             && |t| <= 255 && HasKey(t, k)
             && c.keys == TableKeys(t) && c.header == HeaderFromBytes(HeaderBytes(HeaderOf(t)))
    ensures var t := SortByRank(keys);
            IndexOf(t, k) < |t| && MetaAt(c, IndexByte(t, k)) == Some(t[IndexOf(t, k)])
  {
    hide SortByRank, HeaderOf, HeaderBytes, HeaderFromBytes;
    var t := SortByRank(keys);
    HeaderCountsFit(keys);
    HeaderBytesRecoverFlagsIff(keys);
    IndexOfFinds(t, k);
  }

  lemma HeaderCountsFit(keys: seq<AccountMeta>)
    ensures HeaderOf(SortByRank(keys)).signers <= |SortByRank(keys)|
    ensures HeaderOf(SortByRank(keys)).readonlyUnsigned <= |SortByRank(keys)|
  {
  }

  /** The decoded accounts of an instruction carry the table's flags. */
  lemma {:induction false} ResolvedAccounts(keys: seq<AccountMeta>, c: Compiled, accounts: seq<AccountMeta>)
    requires var t := SortByRank(keys);
             && |t| <= 255 && c.keys == TableKeys(t) && c.header == HeaderFromBytes(HeaderBytes(HeaderOf(t)))
             && forall j :: 0 <= j < |accounts| ==> HasKey(t, accounts[j].key)
    ensures var t := SortByRank(keys);
            var r := ResolveAccounts(c, AccountIndices(t, accounts));
            && r.Some? && |r.value| == |accounts|
            && forall j :: 0 <= j < |accounts| ==>
                 r.value[j].key == accounts[j].key && r.value[j] in t
  {
    hide SortByRank, HeaderOf, HeaderBytes, HeaderFromBytes, MetaAt, IndexByte;
    var t := SortByRank(keys);
    if accounts != [] {
      IndexResolves(keys, c, accounts[0].key);
      ResolvedAccounts(keys, c, accounts[1..]);
      assert AccountIndices(t, accounts)[1..] == AccountIndices(t, accounts[1..]);
    }
  }

  /** What the ledger sees after decoding a charge: the same two instructions, with every flag
      they asked for and no flag for anyone but the payer to sign. */
  ghost predicate FaithfulDecoding(cfg: Config, d: Draft, amount: U64, tx: Transaction) {
    var t := Table(d.payer, PaymentInstructions(cfg, d, amount));
    && tx.compiled.keys == TableKeys(t) && DistinctKeys(t)
    && tx.compiled.header.signers == 1
    && HasKey(t, d.source) && HasKey(t, d.destAta) && t[..1] == [AccountMeta(d.payer, true, true)]
    && |tx.ixs| == 2
    && tx.ixs[0].programId == MEMO_PROGRAM && tx.ixs[0].data == Utf8(d.memo)
    && |tx.ixs[0].accounts| == 1 && tx.ixs[0].accounts[0].key == d.payer && tx.ixs[0].accounts[0].signer
    && tx.ixs[1].programId == TOKEN_PROGRAM && tx.ixs[1].data == TransferData(amount, USDC_DECIMALS)
    && |tx.ixs[1].accounts| == 4
    && tx.ixs[1].accounts[0].key == d.source && tx.ixs[1].accounts[0].writable
    && tx.ixs[1].accounts[1].key == cfg.mint
    && tx.ixs[1].accounts[2].key == d.destAta && tx.ixs[1].accounts[2].writable
    && tx.ixs[1].accounts[3].key == d.payer && tx.ixs[1].accounts[3].signer
  }

  lemma FlagsOf(t: seq<AccountMeta>, requests: seq<AccountMeta>, m: AccountMeta, i: nat)
    requires Merged(t, requests) && m in t && i < |requests| && requests[i].key == m.key
    ensures requests[i].signer ==> m.signer
    ensures requests[i].writable ==> m.writable
  {
  }

  lemma OnlyPayerSigns(keys: seq<AccountMeta>, requests: seq<AccountMeta>, payer: PubKey)
    requires var t := SortByRank(keys);
             Merged(t, requests) && t != [] && t[0] == AccountMeta(payer, true, true)
    requires forall i :: 0 <= i < |requests| && requests[i].signer ==> requests[i].key == payer
    ensures HeaderOf(SortByRank(keys)).signers == 1
  {
    hide SortByRank, HeaderOf;
    var t := SortByRank(keys);
    CountsRecoverFlags(keys, 0);
    HeaderCountsFit(keys);
    if |t| > 1 {
      CountsRecoverFlags(keys, 1);
      assert t[0].key != t[1].key;
      assert !AsksSigner(requests, t[1].key);
    }
  }

  /** Each decoded instruction is the encoded one, its accounts carrying the table's flags. */
  lemma DecodedInstruction(wire: string, tx: Transaction, payer: PubKey, ixs: seq<Instruction>, blockhash: PubKey, i: nat)
    requires DecodeTransaction(wire) == Some(tx) && tx.compiled == Compile(payer, ixs, blockhash)
    requires |Table(payer, ixs)| <= 255 && i < |ixs|
    ensures |tx.ixs| == |ixs|
    ensures SameInstruction(tx.ixs[i], ixs[i])
    ensures forall j :: 0 <= j < |tx.ixs[i].accounts| ==> tx.ixs[i].accounts[j] in Table(payer, ixs)
  {
    hide Base64.Decode, ParseWire, ParseMessage, ResolveIxs, ResolveAccounts, AccountIndices, Merge, Requests, SortByRank, MetaAt,
         HeaderOf, HeaderBytes, HeaderFromBytes;
    var t, keys := Table(payer, ixs), Merge(Requests(payer, ixs));
    var c := tx.compiled;
    TableCovers(payer, ixs);
    assert ResolveIxs(c, c.ixs) == Some(tx.ixs);
    ResolvedIxAt(c, c.ixs, i);
    assert c.ixs[i] == CompileIx(t, ixs[i]);
    assert CoversIx(t, ixs[i]);
    IndexResolves(keys, c, ixs[i].programId);
    ResolvedAccounts(keys, c, ixs[i].accounts);
  }

  lemma SignerCount(cfg: Config, d: Draft, amount: U64)
    ensures HeaderOf(Table(d.payer, PaymentInstructions(cfg, d, amount))).signers == 1
  {
    hide Requests, HeaderOf, SortByRank, Merge;
    var ixs := PaymentInstructions(cfg, d, amount);
    PaymentRequests(cfg, d, amount);
    TableIsMerged(d.payer, ixs);
    OnlyPayerSigns(Merge(Requests(d.payer, ixs)), Requests(d.payer, ixs), d.payer);
  }

  lemma ChargeDecodes(cfg: Config, signer: Signer, d: Draft, amount: U64) returns (tx: Transaction)
    ensures DecodeTransaction(WireText(cfg, signer, d, amount)) == Some(tx)
    ensures FaithfulDecoding(cfg, d, amount, tx)
    ensures tx.signature == signer.sign(tx.message) && tx.compiled.blockhash == d.blockhash
  {
    hide Table, MessageBytes, WireBytes, DecodeTransaction, TransferData, Utf8, HeaderOf, Requests, Base64.Encode, Merged;
    var ixs := PaymentInstructions(cfg, d, amount);
    var t, requests := Table(d.payer, ixs), Requests(d.payer, ixs);
    var message := MessageBytes(d.payer, ixs, d.blockhash);
    PaymentRequests(cfg, d, amount);
    TableLength(d.payer, ixs);
    TableIsMerged(d.payer, ixs);
    SignerCount(cfg, d, amount);
    WireRoundTripIff(signer.sign(message), d.payer, ixs, d.blockhash);
    var wire := WireText(cfg, signer, d, amount);
    tx := DecodeTransaction(wire).value;
    DecodedInstruction(wire, tx, d.payer, ixs, d.blockhash, 0);
    DecodedInstruction(wire, tx, d.payer, ixs, d.blockhash, 1);
    FlagsOf(t, requests, tx.ixs[0].accounts[0], 1);
    FlagsOf(t, requests, tx.ixs[1].accounts[0], 2);
    FlagsOf(t, requests, tx.ixs[1].accounts[2], 4);
    FlagsOf(t, requests, tx.ixs[1].accounts[3], 5);
    MergedKeys(t, requests);
    assert requests[2].key == d.source && requests[4].key == d.destAta;
    assert HasKey(requests, d.source) && HasKey(requests, d.destAta);
  }

  lemma MergedKeys(t: seq<AccountMeta>, requests: seq<AccountMeta>)
    requires Merged(t, requests)
    ensures DistinctKeys(t) && forall k: PubKey :: HasKey(requests, k) ==> HasKey(t, k)
  {
  }

  // ------------------------------------------------------------ the charged message, executed

  lemma TransferDataReadsBack(amount: U64)
    ensures var data := TransferData(amount, USDC_DECIMALS);
            data[0] == 12 && FromLittleEndian(data[1..9]) == amount && data[9] == USDC_DECIMALS
  {
    PowerOf256To8();
    LittleEndianRoundTrip(amount, 8);
    assert TransferData(amount, USDC_DECIMALS)[1..9] == LittleEndian(amount, 8);
  }

  /** Executing a decoded charge is exactly one checked transfer, and it succeeds exactly when
      the token program allows that transfer. */
  lemma DecodedChargeTransfers(cfg: Config, d: Draft, amount: U64, tx: Transaction, l: State)
    requires FaithfulDecoding(cfg, d, amount, tx)
    ensures ExecIxs(l, tx.ixs) ==
            if MayTransfer(l, d.source, cfg.mint, d.destAta, d.payer, amount, USDC_DECIMALS)
            then Some(Transfer(l, d.source, d.destAta, amount)) else None
  {
    hide MayTransfer, Transfer, TransferData, Table, FromUtf8, Utf8, FromLittleEndian;
    Utf8RoundTrip(d.memo);
    TransferDataReadsBack(amount);
    assert TOKEN_PROGRAM[0] != MEMO_PROGRAM[0];
    var tail := tx.ixs[1..];
    assert tail[0] == tx.ixs[1] && tail[1..] == [];
    assert MemoAllowed(tx.ixs[0]);
    assert ExecIx(l, tx.ixs[0]) == Some(l);
    assert ExecIx(l, tx.ixs[1]) == ExecToken(l, tx.ixs[1]);
    assert ExecIxs(l, tail) == ExecIx(l, tx.ixs[1]) by {
      ExecOne(l, tail);
    }
  }

  lemma ExecOne(l: State, ixs: seq<Instruction>)
    requires |ixs| == 1
    ensures ExecIxs(l, ixs) == ExecIx(l, ixs[0])
  {
    hide ExecIx;
    var r := ExecIx(l, ixs[0]);
    if r.Some? {
      assert ixs[1..] == [];
      assert ExecIxs(r.value, []) == Some(r.value);
    }
  }

  // ------------------------------------------------------------ the reported balances

  /** What the token account at `k` contributes to an owner's total. */
  function KeyShare(l: State, k: PubKey, mint: string, owner: string): int {
    if k in l.accounts && Base58.Encode(l.accounts[k].mint) == mint && Base58.Encode(l.accounts[k].owner) == owner
    then l.accounts[k].amount else 0
  }

  lemma ReportedEntry(a: TokenAccount, mint: string, owner: string)
    ensures var e := TokenBalance(Some(Base58.Encode(a.mint)), Some(Base58.Encode(a.owner)), Some(PrintNat(a.amount)));
            && EntryAmount(e) == Ok((Base58.Encode(a.owner), a.amount as int))
            && Share(e, mint, owner) ==
               if Base58.Encode(a.mint) == mint && Base58.Encode(a.owner) == owner then a.amount else 0
  {
    hide PrintNat, ParseI128, Base58.Encode;
    PrintParseI128(a.amount);
  }

  lemma {:induction false} ReportWellFormed(l: State, keys: seq<PubKey>, mint: string)
    ensures WellFormed(Report(l, keys), mint)
  {
    hide PrintNat, Base58.Encode, EntryAmount;
    if keys != [] {
      ReportWellFormed(l, keys[1..], mint);
      if keys[0] in l.accounts {
        ReportedEntry(l.accounts[keys[0]], mint, "");
      }
    }
  }

  lemma ReportTotalStep(l: State, keys: seq<PubKey>, mint: string, owner: string)
    requires keys != []
    ensures Total(Report(l, keys), mint, owner) ==
            KeyShare(l, keys[0], mint, owner) + Total(Report(l, keys[1..]), mint, owner)
  {
    hide PrintNat, Base58.Encode, Share;
    if keys[0] in l.accounts {
      ReportedEntry(l.accounts[keys[0]], mint, owner);
      assert Report(l, keys)[1..] == Report(l, keys[1..]);
    }
  }

  /** The change a transfer makes at one key. */
  lemma KeyShareChange(l: State, source: PubKey, dest: PubKey, amount: nat, k: PubKey, mint: PubKey, owner: string)
    requires source != dest && source in l.accounts && dest in l.accounts
    requires l.accounts[source].mint == mint && l.accounts[dest].mint == mint
    requires amount <= l.accounts[source].amount && l.accounts[dest].amount + amount < U64_BOUND
    ensures KeyShare(Transfer(l, source, dest, amount), k, Base58.Encode(mint), owner) ==
            KeyShare(l, k, Base58.Encode(mint), owner)
            + (if k == dest && Base58.Encode(l.accounts[dest].owner) == owner then amount else 0)
            - (if k == source && Base58.Encode(l.accounts[source].owner) == owner then amount else 0)
  {
    hide Base58.Encode;
  }

  /** The reported net change of every owner: the amount out of the source's owner and into the
      destination's owner, each counted once because no key is repeated. */
  lemma {:induction false} NetOfReports(l: State, source: PubKey, dest: PubKey, amount: nat, keys: seq<PubKey>, mint: PubKey, owner: string)
    requires source != dest && source in l.accounts && dest in l.accounts
    requires l.accounts[source].mint == mint && l.accounts[dest].mint == mint
    requires amount <= l.accounts[source].amount && l.accounts[dest].amount + amount < U64_BOUND
    requires forall i, j :: 0 <= i < j < |keys| ==> keys[i] != keys[j]
    ensures Net(Report(l, keys), Report(Transfer(l, source, dest, amount), keys), Base58.Encode(mint), owner) ==
            (if dest in keys && Base58.Encode(l.accounts[dest].owner) == owner then amount else 0)
            - (if source in keys && Base58.Encode(l.accounts[source].owner) == owner then amount else 0)
    decreases keys
  {
    hide Base58.Encode, KeyShare, Transfer, Report, Total;
    var l' := Transfer(l, source, dest, amount);
    if keys == [] {
      EmptyReport(l, Base58.Encode(mint), owner);
      EmptyReport(l', Base58.Encode(mint), owner);
    } else {
      ReportTotalStep(l, keys, Base58.Encode(mint), owner);
      ReportTotalStep(l', keys, Base58.Encode(mint), owner);
      KeyShareChange(l, source, dest, amount, keys[0], mint, owner);
      NetOfReports(l, source, dest, amount, keys[1..], mint, owner);
      assert keys == [keys[0]] + keys[1..];
    }
  }

  lemma EmptyReport(l: State, mint: string, owner: string)
    ensures Total(Report(l, []), mint, owner) == 0
  {
  }

  lemma TableKeysDistinct(t: seq<AccountMeta>)
    requires DistinctKeys(t)
    ensures forall i, j :: 0 <= i < j < |TableKeys(t)| ==> TableKeys(t)[i] != TableKeys(t)[j]
    ensures forall k: PubKey :: HasKey(t, k) ==> k in TableKeys(t)
  {
    forall k: PubKey | HasKey(t, k)
      ensures k in TableKeys(t)
    {
      var i :| 0 <= i < |t| && t[i].key == k;
      assert TableKeys(t)[i] == k;
    }
  }

  /** The reported totals settle the payment if and only if the destination's token account belongs to
      the destination and the destination is not the payer. */
  lemma ReportsSettleIff(cfg: Config, d: Draft, amount: U64, tx: Transaction, l: State)
    requires amount > 0 && FaithfulDecoding(cfg, d, amount, tx)
    requires MayTransfer(l, d.source, cfg.mint, d.destAta, d.payer, amount, USDC_DECIMALS)
    ensures Settles(Report(l, tx.compiled.keys), Report(Transfer(l, d.source, d.destAta, amount), tx.compiled.keys),
                    MintText(cfg), Base58.Encode(d.dest), Base58.Encode(d.payer), amount)
            <==> l.accounts[d.destAta].owner == d.dest && d.dest != d.payer
  {
    hide Base58.Encode, Report, Transfer, Table, TransferData, Utf8, Wrap, Total;
    var t := Table(d.payer, PaymentInstructions(cfg, d, amount));
    var keys := tx.compiled.keys;
    var l' := Transfer(l, d.source, d.destAta, amount);
    var owner := l.accounts[d.destAta].owner;
    WrapSmall(amount);
    if d.source == d.destAta {
      TransferToSelf(l, d.source, amount);
      assert Net(Report(l, keys), Report(l', keys), MintText(cfg), Base58.Encode(d.dest)) == 0;
    } else {
      TableKeysDistinct(t);
      forall o: string
        ensures Net(Report(l, keys), Report(l', keys), MintText(cfg), o) ==
                (if Base58.Encode(owner) == o then amount else 0) - (if Base58.Encode(d.payer) == o then amount else 0)
      {
        NetOfReports(l, d.source, d.destAta, amount, keys, cfg.mint, o);
      }
      hide Net;
      SameEncoding(d.dest, d.payer);
      SameEncoding(d.dest, owner);
    }
  }

  lemma SameEncoding(a: PubKey, b: PubKey)
    ensures Base58.Encode(a) == Base58.Encode(b) <==> a == b
  {
    hide Base58.Encode;
    if Base58.Encode(a) == Base58.Encode(b) {
      Base58.EncodeInjective(a, b);
    }
  }

  lemma TransferToSelf(l: State, k: PubKey, amount: nat)
    requires k in l.accounts && amount <= l.accounts[k].amount
    ensures Transfer(l, k, k, amount) == l
  {
  }

  // ------------------------------------------------------------ end to end

  lemma ReportShowsPayerAndMemo(cfg: Config, d: Draft, amount: U64, tx: Transaction, l: State, l': State, status: Option<string>)
    requires FaithfulDecoding(cfg, d, amount, tx)
    ensures SignedBy(ReportTxn(l, l', tx, status), Base58.Encode(d.payer))
    ensures MemoMatches(ReportTxn(l, l', tx, status), d.memo)
  {
    hide Base58.Encode, Report, Table, TransferData, FromUtf8, Utf8;
    var t := Table(d.payer, PaymentInstructions(cfg, d, amount));
    var txn := ReportTxn(l, l', tx, status);
    assert t[0] == t[..1][0];
    assert tx.compiled.keys[0] == d.payer;
    assert txn.accountKeys.value[0] == AccountKey(Some(Base58.Encode(d.payer)), Some(true));
    Utf8RoundTrip(d.memo);
    assert IsMemo(txn.instructions.value[0], d.memo);
    assert ScanMemo(txn.instructions, d.memo);
  }

  /** A submitted charge executes if and only if the token program allows the transfer it
      spells out, whatever the ledger. */
  lemma ChargeExecutesIff(crypto: Crypto, cfg: Config, signer: Signer, req: PayRequest, blockhash: Option<string>,
                          l: State, status: Option<string>)
    requires Prepare(crypto, cfg, Some(signer), req, blockhash).Ok?
    ensures var d := Prepare(crypto, cfg, Some(signer), req, blockhash).value;
            Execute(l, WireText(cfg, signer, d, req.amountMinor), status).Some? <==>
            MayTransfer(l, d.source, cfg.mint, d.destAta, d.payer, req.amountMinor, USDC_DECIMALS)
  {
    hide Prepare, WireText, DecodeTransaction, FaithfulDecoding, MayTransfer, ExecIxs, ReportTxn;
    var d := Prepare(crypto, cfg, Some(signer), req, blockhash).value;
    var tx := ChargeDecodes(cfg, signer, d, req.amountMinor);
    DecodedChargeTransfers(cfg, d, req.amountMinor, tx, l);
    OneSigner(cfg, d, req.amountMinor, tx);
  }

  lemma OneSigner(cfg: Config, d: Draft, amount: U64, tx: Transaction)
    requires FaithfulDecoding(cfg, d, amount, tx)
    ensures tx.compiled.header.signers == 1
  {
  }

  /** End to end: take any request that `charge` accepts, let the ledger decode what was sent,
      execute it and report it at an adequate status. Then `verify` of the returned receipt is Ok,
      and true exactly when the token account paid into belongs to the destination and the
      destination is not the payer. */
  lemma ChargeThenVerify(crypto: Crypto, cfg: Config, signer: Signer, req: PayRequest, blockhash: Option<string>,
                         txSignature: string, now: U64, l: State, l': State, status: Option<string>, txn: Txn)
    requires Prepare(crypto, cfg, Some(signer), req, blockhash).Ok?
    requires var d := Prepare(crypto, cfg, Some(signer), req, blockhash).value;
             Execute(l, WireText(cfg, signer, d, req.amountMinor), status) == Some((l', txn))
    requires status.Some? ==> StatusAdequate(cfg.commitment, status.value)
    ensures var d := Prepare(crypto, cfg, Some(signer), req, blockhash).value;
            && d.destAta in l.accounts
            && Verify(crypto, cfg, ReceiptFor(crypto, cfg, req, d.payer, txSignature, now), Found(txn)) ==
               Ok(l.accounts[d.destAta].owner == d.dest && d.dest != d.payer)
  {
    var d := Prepare(crypto, cfg, Some(signer), req, blockhash).value;
    PreparedDraft(crypto, cfg, signer, req, blockhash);
    ReceiptIsCoherent(crypto, cfg, req, d.payer, txSignature, now);
    ExecutedChargeVerdict(crypto, cfg, signer, req, d, l, l', status, txn,
                          ReceiptFor(crypto, cfg, req, d.payer, txSignature, now));
  }

  /** The two wallets' token accounts, the payer's holding just enough. */
  function FundedLedger(cfg: Config, d: Draft, amount: U64): State {
    State(map[d.destAta := TokenAccount(cfg.mint, d.dest, 0)][d.source := TokenAccount(cfg.mint, d.payer, amount)],
          map[cfg.mint := USDC_DECIMALS])
  }

  /** The end-to-end theorem is never vacuous: every charge that `charge` accepts between two token
      accounts executes on a ledger that holds just enough, and its receipt then verifies. */
  lemma FundedChargeVerifies(crypto: Crypto, cfg: Config, signer: Signer, req: PayRequest, blockhash: Option<string>,
                             txSignature: string, now: U64, status: Option<string>)
    requires Prepare(crypto, cfg, Some(signer), req, blockhash).Ok?
    requires var d := Prepare(crypto, cfg, Some(signer), req, blockhash).value; d.source != d.destAta
    requires status.Some? ==> StatusAdequate(cfg.commitment, status.value)
    ensures var d := Prepare(crypto, cfg, Some(signer), req, blockhash).value;
            var run := Execute(FundedLedger(cfg, d, req.amountMinor), WireText(cfg, signer, d, req.amountMinor), status);
            && run.Some?
            && Verify(crypto, cfg, ReceiptFor(crypto, cfg, req, d.payer, txSignature, now), Found(run.value.1)) == Ok(true)
  {
    hide Prepare, WireText, Execute, Verify, ReceiptFor, StatusAdequate;
    var d := Prepare(crypto, cfg, Some(signer), req, blockhash).value;
    var l := FundedLedger(cfg, d, req.amountMinor);
    ChargeExecutesIff(crypto, cfg, signer, req, blockhash, l, status);
    var run := Execute(l, WireText(cfg, signer, d, req.amountMinor), status);
    ChargeThenVerify(crypto, cfg, signer, req, blockhash, txSignature, now, l, run.value.0, status, run.value.1);
    OneWalletOneAccount(crypto, cfg, signer, req, blockhash);
  }

  lemma OneWalletOneAccount(crypto: Crypto, cfg: Config, signer: Signer, req: PayRequest, blockhash: Option<string>)
    requires Prepare(crypto, cfg, Some(signer), req, blockhash).Ok?
    ensures var d := Prepare(crypto, cfg, Some(signer), req, blockhash).value;
            d.dest == d.payer ==> d.source == d.destAta
  {
    hide BindingMemo, AssociatedTokenAddress, Base58.PubKeyOf;
  }

  lemma PreparedDraft(crypto: Crypto, cfg: Config, signer: Signer, req: PayRequest, blockhash: Option<string>)
    requires Prepare(crypto, cfg, Some(signer), req, blockhash).Ok?
    ensures var d := Prepare(crypto, cfg, Some(signer), req, blockhash).value;
            && req.amountMinor > 0 && req.currency == "USDC"
            && d.memo == BindingMemo(crypto, d.payer, req.reference)
            && req.destination == Base58.Encode(d.dest)
  {
    hide BindingMemo, AssociatedTokenAddress, Base58.PubKeyOf, Base58.Encode;
    var d := Prepare(crypto, cfg, Some(signer), req, blockhash).value;
    Base58.PubKeyOfIsEncode(req.destination, d.dest);
  }

  lemma ExecutedChargeVerdict(crypto: Crypto, cfg: Config, signer: Signer, req: PayRequest, d: Draft,
                              l: State, l': State, status: Option<string>, txn: Txn, receipt: SolanaReceipt)
    requires req.amountMinor > 0
    requires d.memo == BindingMemo(crypto, d.payer, req.reference)
    requires Execute(l, WireText(cfg, signer, d, req.amountMinor), status) == Some((l', txn))
    requires status.Some? ==> StatusAdequate(cfg.commitment, status.value)
    requires CoherentPayer(crypto, cfg, receipt) == Some(d.payer)
    requires receipt.amountMinor == req.amountMinor && receipt.reference == req.reference
    requires Destination(receipt) == Base58.Encode(d.dest)
    ensures d.destAta in l.accounts
    ensures Verify(crypto, cfg, receipt, Found(txn)) == Ok(l.accounts[d.destAta].owner == d.dest && d.dest != d.payer)
  {
    hide WireText, DecodeTransaction, FaithfulDecoding, ExecIxs, Report, BindingMemo, CoherentPayer,
         Settles, WellFormed, MoneyMatches, MintDeltas, MemoMatches, SignedBy, Base58.Encode;
    var amount := req.amountMinor;
    var tx := ChargeDecodes(cfg, signer, d, amount);
    DecodedChargeTransfers(cfg, d, amount, tx, l);
    ReportShowsPayerAndMemo(cfg, d, amount, tx, l, l', status);
    var keys := tx.compiled.keys;
    ReportWellFormed(l, keys, MintText(cfg));
    ReportWellFormed(l', keys, MintText(cfg));
    MoneyMatchesIffSettles(Report(l, keys), Report(l', keys), MintText(cfg), Destination(receipt), Base58.Encode(d.payer), amount);
    ReportsSettleIff(cfg, d, amount, tx, l);
  }
}
