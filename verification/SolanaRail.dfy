/** The Solana rail (`patala-solana/src/lib.rs`): the binding of a payment to its payer and
    reference, the checks of `verify`, and what a verified receipt establishes. */
module SolanaRail {
  import opened Prelude
  import opened Text
  import opened Rail
  import opened Balances
  import Base58
  import Hex

  /** The cryptographic functions, uninterpreted: blake3, SHA-256 and the curve test. */
  datatype Crypto = Crypto(blake: Bytes -> PubKey, sha: Bytes -> PubKey, onCurve: PubKey -> bool)

  datatype Commitment = Confirmed | Finalized

  datatype Config = Config(commitment: Commitment, mint: PubKey)

  /** The on-chain binding carried in a receipt's proof. */
  datatype Binding = Binding(
    chain: string, txSignature: string, mint: string, payer: string, destination: string, reference: string)

  /** A proof that does not parse as a binding is `None`. */
  type SolanaReceipt = Receipt<Option<Binding>>

  // ------------------------------------------------------------ the chain's answer

  /** `meta.err`: no such field, JSON null, or anything else. */
  datatype ErrField = Missing | Null | Failed

  datatype AccountKey = AccountKey(pubkey: Option<string>, signer: Option<bool>)

  datatype ParsedIx = ParsedIx(program: Option<string>, parsed: Option<string>)

  datatype Meta = Meta(
    err: ErrField,
    inner: Option<seq<Option<seq<ParsedIx>>>>,
    pre: Option<seq<TokenBalance>>,
    post: Option<seq<TokenBalance>>)

  /** A jsonParsed transaction; fields that are absent or ill-typed are `None`. */
  datatype Txn = Txn(
    meta: Option<Meta>,
    status: Option<string>,
    accountKeys: Option<seq<AccountKey>>,
    instructions: Option<seq<ParsedIx>>)

  datatype RpcAnswer = Found(txn: Txn) | NotFound | Unreachable

  datatype VerifyError = RpcDown | BadBalances(cause: BalanceError)

  // ------------------------------------------------------------ binding

  const DOMAIN_TAG := "patala-solana-pay-v1"

  /** The bytes hashed by `binding_reference`. */
  function BindingPreimage(payer: PubKey, reference: string): Bytes {
    Utf8(DOMAIN_TAG) + payer + LittleEndian(ByteLen(reference), 8) + Utf8(reference)
  }

  function BindingReference(crypto: Crypto, payer: PubKey, reference: string): PubKey {
    crypto.blake(BindingPreimage(payer, reference))
  }

  function BindingMemo(crypto: Crypto, payer: PubKey, reference: string): string {
    "patala:v1:" + Hex.Encode(BindingReference(crypto, payer, reference))
  }

  /** Payer and reference are both recoverable from the hashed bytes. */
  lemma PreimageInjective(p: PubKey, r: string, q: PubKey, s: string)
    requires BindingPreimage(p, r) == BindingPreimage(q, s)
    ensures p == q && r == s
  {
    hide Utf8, LittleEndian;
    var x, y := BindingPreimage(p, r), BindingPreimage(q, s);
    var n := |Utf8(DOMAIN_TAG)|;
    assert p == x[n..n + 32] && q == y[n..n + 32];
    assert Utf8(r) == x[n + 40..] && Utf8(s) == y[n + 40..];
    Utf8Injective(r, s);
  }

  /** The hash does not collide on these two inputs. Assumed of the pair at hand only, since no
      function into 32 bytes is injective on all byte strings. */
  ghost predicate NoCollision(crypto: Crypto, p: PubKey, r: string, q: PubKey, s: string) {
    crypto.blake(BindingPreimage(p, r)) == crypto.blake(BindingPreimage(q, s)) ==>
      BindingPreimage(p, r) == BindingPreimage(q, s)
  }

  lemma MemoInjective(crypto: Crypto, p: PubKey, r: string, q: PubKey, s: string)
    requires NoCollision(crypto, p, r, q, s)
    requires BindingMemo(crypto, p, r) == BindingMemo(crypto, q, s)
    ensures p == q && r == s
  {
    var x, y := BindingReference(crypto, p, r), BindingReference(crypto, q, s);
    var tag := "patala:v1:";
    assert Hex.Encode(x) == (tag + Hex.Encode(x))[|tag|..];
    assert Hex.Encode(y) == (tag + Hex.Encode(y))[|tag|..];
    Hex.EncodeInjective(x, y);
    PreimageInjective(p, r, q, s);
  }

  // ------------------------------------------------------------ verify

  predicate IsMemo(ix: ParsedIx, want: string) {
    ix.program == Some("spl-memo") && ix.parsed == Some(want)
  }

  predicate ScanMemo(ixs: Option<seq<ParsedIx>>, want: string) {
    ixs.Some? && exists i :: 0 <= i < |ixs.value| && IsMemo(ixs.value[i], want)
  }

  /** `memo_matches`: any top-level or inner memo instruction with exactly this text. */
  predicate MemoMatches(txn: Txn, want: string) {
    || ScanMemo(txn.instructions, want)
    || (txn.meta.Some? && txn.meta.value.inner.Some?
        && exists i :: 0 <= i < |txn.meta.value.inner.value| && ScanMemo(txn.meta.value.inner.value[i], want))
  }

  predicate StatusAdequate(c: Commitment, status: string) {
    match c
    case Confirmed => status == "confirmed" || status == "finalized"
    case Finalized => status == "finalized"
  }

  predicate SignedBy(txn: Txn, payer: string) {
    txn.accountKeys.Some? &&
    exists i :: 0 <= i < |txn.accountKeys.value| && txn.accountKeys.value[i] == AccountKey(Some(payer), Some(true))
  }

  /** The reported balances; an absent array reads as empty. */
  function Pre(txn: Txn): seq<TokenBalance> {
    if txn.meta.Some? && txn.meta.value.pre.Some? then txn.meta.value.pre.value else []
  }

  function Post(txn: Txn): seq<TokenBalance> {
    if txn.meta.Some? && txn.meta.value.post.Some? then txn.meta.value.post.value else []
  }

  function MintText(cfg: Config): string {
    Base58.Encode(cfg.mint)
  }

  function Destination(receipt: SolanaReceipt): string {
    if receipt.proof.Some? then receipt.proof.value.destination else ""
  }

  /** Steps 1 and 2, before the chain is asked anything: the payer, if the receipt is coherent. */
  function CoherentPayer(crypto: Crypto, cfg: Config, receipt: SolanaReceipt): Option<PubKey> {
    if receipt.railId != "solana" || receipt.currency != "USDC" then None else
    var b :- receipt.proof;
    if b.chain != "solana" || b.mint != MintText(cfg) then None else
    var payer :- Base58.PubKeyOf(b.payer);
    if b.reference != Hex.Encode(BindingReference(crypto, payer, receipt.reference)) then None else Some(payer)
  }

  /** Steps 4 to 7, on the transaction the chain returned. */
  function VerifyTxn(crypto: Crypto, cfg: Config, receipt: SolanaReceipt, dest: string, payer: PubKey, txn: Txn)
    : Result<bool, VerifyError>
  {
    if txn.meta.None? || txn.meta.value.err != Null then Ok(false)
    else if txn.status.Some? && !StatusAdequate(cfg.commitment, txn.status.value) then Ok(false)
    else if !SignedBy(txn, Base58.Encode(payer)) then Ok(false)
    else if !MemoMatches(txn, BindingMemo(crypto, payer, receipt.reference)) then Ok(false)
    else match MintDeltas(Pre(txn), Post(txn), MintText(cfg))
      case Err(e) => Err(BadBalances(e))
      case Ok(ds) => Ok(MoneyMatches(ds, dest, Base58.Encode(payer), receipt.amountMinor))
  }

  /** `SolanaRail::verify` */
  function Verify(crypto: Crypto, cfg: Config, receipt: SolanaReceipt, answer: RpcAnswer): Result<bool, VerifyError> {
    match CoherentPayer(crypto, cfg, receipt)
    case None => Ok(false)
    case Some(payer) =>
      match answer
      case Unreachable => Err(RpcDown)
      case NotFound => Ok(false)
      case Found(txn) => VerifyTxn(crypto, cfg, receipt, Destination(receipt), payer, txn)
  }

  // ------------------------------------------------------------ what a verdict means

  /** Everything `Ok(true)` asserts, with the money stated as exact totals. */
  ghost predicate Established(crypto: Crypto, cfg: Config, receipt: SolanaReceipt, payer: PubKey, txn: Txn) {
    && CoherentPayer(crypto, cfg, receipt) == Some(payer)
    && txn.meta.Some? && txn.meta.value.err == Null
    && (txn.status.Some? ==> StatusAdequate(cfg.commitment, txn.status.value))
    && SignedBy(txn, Base58.Encode(payer))
    && MemoMatches(txn, BindingMemo(crypto, payer, receipt.reference))
    && WellFormed(Pre(txn), MintText(cfg)) && WellFormed(Post(txn), MintText(cfg))
    && Settles(Pre(txn), Post(txn), MintText(cfg), Destination(receipt), Base58.Encode(payer), receipt.amountMinor)
  }

  /** `verify` answers Ok(true) if and only if the chain was reached, knows the transaction,
      and the receipt is established by it. */
  lemma VerifyIff(crypto: Crypto, cfg: Config, receipt: SolanaReceipt, answer: RpcAnswer)
    ensures Verify(crypto, cfg, receipt, answer) == Ok(true) <==>
            answer.Found? && exists payer: PubKey :: Established(crypto, cfg, receipt, payer, answer.txn)
  {
    hide Settles, WellFormed, MoneyMatches, MintDeltas, MemoMatches, SignedBy, StatusAdequate, CoherentPayer, BindingMemo;
    var coherent := CoherentPayer(crypto, cfg, receipt);
    if answer.Found? && coherent.Some? {
      var txn, payer := answer.txn, coherent.value;
      var pre, post, mint := Pre(txn), Post(txn), MintText(cfg);
      MintDeltasAreNet(pre, post, mint, "");
      if WellFormed(pre, mint) && WellFormed(post, mint) {
        MoneyMatchesIffSettles(pre, post, mint, Destination(receipt), Base58.Encode(payer), receipt.amountMinor);
      }
      assert Verify(crypto, cfg, receipt, answer) == Ok(true) <==> Established(crypto, cfg, receipt, payer, txn);
    }
  }

  lemma EstablishedBy(crypto: Crypto, cfg: Config, receipt: SolanaReceipt, answer: RpcAnswer) returns (payer: PubKey)
    requires Verify(crypto, cfg, receipt, answer) == Ok(true)
    ensures answer.Found? && Established(crypto, cfg, receipt, payer, answer.txn)
  {
    hide Verify, Established;
    VerifyIff(crypto, cfg, receipt, answer);
    payer :| Established(crypto, cfg, receipt, payer, answer.txn);
  }

  /** Settlement soundness: for real token amounts, a verified positive payment means that the
      payer's total fell by exactly the amount, the destination's rose by exactly the amount,
      every other owner's total stayed put, the mint was conserved, and the payer is not
      the destination. */
  lemma SettlementSound(crypto: Crypto, cfg: Config, receipt: SolanaReceipt, txn: Txn, payer: PubKey)
    requires receipt.amountMinor > 0
    requires CoherentPayer(crypto, cfg, receipt) == Some(payer)
    requires Verify(crypto, cfg, receipt, Found(txn)) == Ok(true)
    requires Realistic(Pre(txn), MintText(cfg)) && Realistic(Post(txn), MintText(cfg))
    ensures PaysExactly(Pre(txn), Post(txn), MintText(cfg), Destination(receipt), Base58.Encode(payer), receipt.amountMinor)
  {
    hide PaysExactly, WellFormed, Realistic, Settles, Verify, MemoMatches, SignedBy;
    var p := EstablishedBy(crypto, cfg, receipt, Found(txn));
    SettlesExactly(Pre(txn), Post(txn), MintText(cfg), Destination(receipt), Base58.Encode(payer), receipt.amountMinor);
  }

  /** For arbitrary i128 texts the amounts of a verified positive payment are exact if and only if no
      owner's change leaves the i128 range. */
  lemma SettlementExactIff(crypto: Crypto, cfg: Config, receipt: SolanaReceipt, txn: Txn, payer: PubKey)
    requires receipt.amountMinor > 0
    requires CoherentPayer(crypto, cfg, receipt) == Some(payer)
    requires Verify(crypto, cfg, receipt, Found(txn)) == Ok(true)
    ensures PaysExactly(Pre(txn), Post(txn), MintText(cfg), Destination(receipt), Base58.Encode(payer), receipt.amountMinor) <==>
            NothingWraps(Pre(txn), Post(txn), MintText(cfg))
  {
    hide PaysExactly, WellFormed, NothingWraps, Settles, Verify, MemoMatches, SignedBy;
    var p := EstablishedBy(crypto, cfg, receipt, Found(txn));
    SettledExactIff(Pre(txn), Post(txn), MintText(cfg), Destination(receipt), Base58.Encode(payer), receipt.amountMinor);
  }

  /** The other case exists: a report that moves 2^128 units to a third party still verifies. */
  lemma FullTurnStillVerifies(crypto: Crypto, cfg: Config, receipt: SolanaReceipt, txn: Txn, payer: PubKey, other: string)
    requires CoherentPayer(crypto, cfg, receipt) == Some(payer)
    requires Verify(crypto, cfg, receipt, Found(txn)) == Ok(true)
    requires other != Destination(receipt) && other != Base58.Encode(payer)
    requires Net(Pre(txn), Post(txn), MintText(cfg), other) == 0
    ensures var mint := MintText(cfg);
            var post := Post(txn) + FullTurn(mint, other);
            && txn.meta.Some?
            && Verify(crypto, cfg, receipt, Found(WithBalances(txn, Pre(txn), post))) == Ok(true)
            && !PaysExactly(Pre(txn), post, mint, Destination(receipt), Base58.Encode(payer), receipt.amountMinor)
  {
    hide PaysExactly, WellFormed, FullTurn, Settles, Verify, MemoMatches, SignedBy, Net, CoherentPayer, StatusAdequate;
    var p := EstablishedBy(crypto, cfg, receipt, Found(txn));
    var pre, post, mint := Pre(txn), Post(txn), MintText(cfg);
    FullTurnUnnoticed(pre, post, mint, Destination(receipt), Base58.Encode(payer), receipt.amountMinor, other);
    SettlingBalancesVerify(crypto, cfg, receipt, txn, payer, pre, post + FullTurn(mint, other));
  }

  lemma SettlingBalancesVerify(crypto: Crypto, cfg: Config, receipt: SolanaReceipt, txn: Txn, payer: PubKey,
                               pre: seq<TokenBalance>, post: seq<TokenBalance>)
    requires Established(crypto, cfg, receipt, payer, txn)
    requires WellFormed(pre, MintText(cfg)) && WellFormed(post, MintText(cfg))
    requires Settles(pre, post, MintText(cfg), Destination(receipt), Base58.Encode(payer), receipt.amountMinor)
    ensures Verify(crypto, cfg, receipt, Found(WithBalances(txn, pre, post))) == Ok(true)
  {
    hide WellFormed, Settles, Verify, MemoMatches, SignedBy, CoherentPayer, BindingMemo, StatusAdequate, MintText, Destination;
    var txn' := WithBalances(txn, pre, post);
    BalancesAreNotConsulted(txn, txn', Base58.Encode(payer), BindingMemo(crypto, payer, receipt.reference));
    assert Established(crypto, cfg, receipt, payer, txn');
    VerifyIff(crypto, cfg, receipt, Found(txn'));
  }

  /** A positive payment to oneself never verifies, whatever the chain says. */
  lemma SelfPaymentNeverVerifies(crypto: Crypto, cfg: Config, receipt: SolanaReceipt, answer: RpcAnswer)
    requires receipt.amountMinor > 0
    requires receipt.proof.Some? && receipt.proof.value.destination == receipt.proof.value.payer
    ensures Verify(crypto, cfg, receipt, answer) != Ok(true)
  {
    hide Verify, MemoMatches, SignedBy, WellFormed, Net, Wrap;
    if Verify(crypto, cfg, receipt, answer) == Ok(true) {
      var payer := EstablishedBy(crypto, cfg, receipt, answer);
      Base58.PubKeyOfIsEncode(receipt.proof.value.payer, payer);
      assert false;
    }
  }

  /** The same transaction with other balance entries. */
  function WithBalances(txn: Txn, pre: seq<TokenBalance>, post: seq<TokenBalance>): Txn
    requires txn.meta.Some?
  {
    txn.(meta := Some(txn.meta.value.(pre := Some(pre), post := Some(post))))
  }

  /** Equal verdicts, or a refusal to read the balances on both sides. */
  predicate SameVerdict(a: Result<bool, VerifyError>, b: Result<bool, VerifyError>) {
    (a.Ok? <==> b.Ok?) && (a.Ok? ==> a == b)
  }

  /** The verdict depends on the balance entries only through well-formedness and the net
      change of each owner. */
  lemma VerdictDependsOnNets(crypto: Crypto, cfg: Config, receipt: SolanaReceipt, txn: Txn, txn': Txn)
    requires txn.meta.Some? && txn'.meta.Some?
    requires txn' == txn.(meta := Some(txn.meta.value.(pre := txn'.meta.value.pre, post := txn'.meta.value.post)))
    requires WellFormed(Pre(txn), MintText(cfg)) && WellFormed(Post(txn), MintText(cfg))
    requires WellFormed(Pre(txn'), MintText(cfg)) && WellFormed(Post(txn'), MintText(cfg))
    requires SameNets(Pre(txn), Post(txn), Pre(txn'), Post(txn'), MintText(cfg))
    ensures Verify(crypto, cfg, receipt, Found(txn)) == Verify(crypto, cfg, receipt, Found(txn'))
  {
    hide MintDeltas, MoneyMatches, Net, WellFormed, SameNets, BindingMemo, StatusAdequate;
    var coherent := CoherentPayer(crypto, cfg, receipt);
    if coherent.Some? {
      var dest, from := Destination(receipt), Base58.Encode(coherent.value);
      SameNetsSameVerdict(Pre(txn), Post(txn), Pre(txn'), Post(txn'), MintText(cfg), dest, from, receipt.amountMinor);
      BalancesAreNotConsulted(txn, txn', from, BindingMemo(crypto, coherent.value, receipt.reference));
    }
  }

  lemma IllFormedVerdict(crypto: Crypto, cfg: Config, receipt: SolanaReceipt, txn: Txn, txn': Txn)
    requires txn.meta.Some? && txn'.meta.Some?
    requires txn' == txn.(meta := Some(txn.meta.value.(pre := txn'.meta.value.pre, post := txn'.meta.value.post)))
    requires !(WellFormed(Pre(txn), MintText(cfg)) && WellFormed(Post(txn), MintText(cfg)))
    requires !(WellFormed(Pre(txn'), MintText(cfg)) && WellFormed(Post(txn'), MintText(cfg)))
    ensures SameVerdict(Verify(crypto, cfg, receipt, Found(txn)), Verify(crypto, cfg, receipt, Found(txn')))
  {
    hide MintDeltas, MoneyMatches, WellFormed, BindingMemo, StatusAdequate;
    var coherent := CoherentPayer(crypto, cfg, receipt);
    if coherent.Some? {
      MintDeltasAreNet(Pre(txn), Post(txn), MintText(cfg), "");
      MintDeltasAreNet(Pre(txn'), Post(txn'), MintText(cfg), "");
      BalancesAreNotConsulted(txn, txn', Base58.Encode(coherent.value), BindingMemo(crypto, coherent.value, receipt.reference));
    }
  }

  lemma SameTotalsSameVerdict(crypto: Crypto, cfg: Config, receipt: SolanaReceipt, txn: Txn,
                              pre: seq<TokenBalance>, post: seq<TokenBalance>)
    requires txn.meta.Some?
    requires SameTotals(Pre(txn), pre, MintText(cfg)) && SameTotals(Post(txn), post, MintText(cfg))
    ensures SameVerdict(Verify(crypto, cfg, receipt, Found(txn)), Verify(crypto, cfg, receipt, Found(WithBalances(txn, pre, post))))
  {
    hide Verify, WellFormed, Total;
    var txn' := WithBalances(txn, pre, post);
    if WellFormed(pre, MintText(cfg)) && WellFormed(post, MintText(cfg)) {
      VerdictDependsOnNets(crypto, cfg, receipt, txn, txn');
    } else {
      IllFormedVerdict(crypto, cfg, receipt, txn, txn');
    }
  }

  /** Reordering balance entries never changes the verdict, whatever the entries are. */
  lemma ReorderingKeepsVerdict(crypto: Crypto, cfg: Config, receipt: SolanaReceipt, txn: Txn,
                               pre: seq<TokenBalance>, post: seq<TokenBalance>)
    requires txn.meta.Some?
    requires multiset(Pre(txn)) == multiset(pre) && multiset(Post(txn)) == multiset(post)
    ensures SameVerdict(Verify(crypto, cfg, receipt, Found(txn)), Verify(crypto, cfg, receipt, Found(WithBalances(txn, pre, post))))
  {
    hide Verify, SameTotals;
    PermutationSameTotals(Pre(txn), pre, MintText(cfg));
    PermutationSameTotals(Post(txn), post, MintText(cfg));
    SameTotalsSameVerdict(crypto, cfg, receipt, txn, pre, post);
  }

  /** Nor does reporting one entry as two of the same owner and sum, on either side. */
  lemma SplittingKeepsVerdict(crypto: Crypto, cfg: Config, receipt: SolanaReceipt, txn: Txn,
                              pre: seq<TokenBalance>, post: seq<TokenBalance>)
    requires txn.meta.Some?
    requires Pre(txn) == pre || SplitsEntry(Pre(txn), pre, MintText(cfg))
    requires Post(txn) == post || SplitsEntry(Post(txn), post, MintText(cfg))
    ensures SameVerdict(Verify(crypto, cfg, receipt, Found(txn)), Verify(crypto, cfg, receipt, Found(WithBalances(txn, pre, post))))
  {
    hide Verify, SplitsEntry, WellFormed, Total;
    if SplitsEntry(Pre(txn), pre, MintText(cfg)) {
      SplitSameTotals(Pre(txn), pre, MintText(cfg));
    }
    if SplitsEntry(Post(txn), post, MintText(cfg)) {
      SplitSameTotals(Post(txn), post, MintText(cfg));
    }
    SameTotalsSameVerdict(crypto, cfg, receipt, txn, pre, post);
  }

  lemma BalancesAreNotConsulted(txn: Txn, txn': Txn, payer: string, memo: string)
    requires txn.meta.Some? && txn'.meta.Some?
    requires txn' == txn.(meta := Some(txn.meta.value.(pre := txn'.meta.value.pre, post := txn'.meta.value.post)))
    ensures SignedBy(txn, payer) == SignedBy(txn', payer)
    ensures MemoMatches(txn, memo) == MemoMatches(txn', memo)
  {
  }

  // ------------------------------------------------------------ anti-replay

  /** Every memo of the transaction has one and the same text. */
  ghost predicate SingleMemo(txn: Txn) {
    forall a: string, b: string :: MemoMatches(txn, a) && MemoMatches(txn, b) ==> a == b
  }

  /** Two positive receipts that verify against one single-memo transaction agree on payer,
      reference, amount and destination. */
  lemma AntiReplay(crypto: Crypto, cfg: Config, r: SolanaReceipt, s: SolanaReceipt, p: PubKey, q: PubKey, txn: Txn)
    requires Verify(crypto, cfg, r, Found(txn)) == Ok(true) && Verify(crypto, cfg, s, Found(txn)) == Ok(true)
    requires CoherentPayer(crypto, cfg, r) == Some(p) && CoherentPayer(crypto, cfg, s) == Some(q)
    requires r.amountMinor > 0 && s.amountMinor > 0
    requires SingleMemo(txn) && NoCollision(crypto, p, r.reference, q, s.reference)
    ensures p == q && r.reference == s.reference && r.amountMinor == s.amountMinor
    ensures Destination(r) == Destination(s)
  {
    hide MemoMatches, BindingMemo, NoCollision, Net, Wrap, WellFormed, SignedBy, Verify;
    var p' := EstablishedBy(crypto, cfg, r, Found(txn));
    var q' := EstablishedBy(crypto, cfg, s, Found(txn));
    assert BindingMemo(crypto, p, r.reference) == BindingMemo(crypto, q, s.reference);
    MemoInjective(crypto, p, r.reference, q, s.reference);
    var d, e, from := Destination(r), Destination(s), Base58.Encode(p);
    assert r.amountMinor == s.amountMinor;
    assert Wrap(Net(Pre(txn), Post(txn), MintText(cfg), d)) == r.amountMinor;
    assert d != from;
    assert d == e;
  }

  /** Which receipts one transaction can redeem: given one positive receipt that verifies, another
      coherent receipt verifies against the same transaction if and only if it names the same payer,
      amount and destination, and the transaction carries its memo. */
  lemma SameTransactionIff(crypto: Crypto, cfg: Config, r: SolanaReceipt, s: SolanaReceipt, p: PubKey, q: PubKey, txn: Txn)
    requires CoherentPayer(crypto, cfg, r) == Some(p) && CoherentPayer(crypto, cfg, s) == Some(q)
    requires r.amountMinor > 0 && Verify(crypto, cfg, r, Found(txn)) == Ok(true)
    ensures Verify(crypto, cfg, s, Found(txn)) == Ok(true) <==>
            && q == p && s.amountMinor == r.amountMinor && Destination(s) == Destination(r)
            && MemoMatches(txn, BindingMemo(crypto, p, s.reference))
  {
    hide MemoMatches, BindingMemo, WellFormed, SignedBy, Verify, StatusAdequate, Settles, CoherentPayer;
    var p' := EstablishedBy(crypto, cfg, r, Found(txn));
    var pre, post, mint := Pre(txn), Post(txn), MintText(cfg);
    if Verify(crypto, cfg, s, Found(txn)) == Ok(true) {
      var q' := EstablishedBy(crypto, cfg, s, Found(txn));
      SettledOneWay(pre, post, mint, Destination(r), Base58.Encode(p), r.amountMinor,
                    Destination(s), Base58.Encode(q), s.amountMinor);
      Base58.EncodeInjective(p, q);
    } else if q == p && s.amountMinor == r.amountMinor && Destination(s) == Destination(r)
              && MemoMatches(txn, BindingMemo(crypto, p, s.reference)) {
      assert Established(crypto, cfg, s, q, txn);
      VerifyIff(crypto, cfg, s, Found(txn));
      assert false;
    }
  }

  /** Balances settle at most one positive payment. */
  lemma SettledOneWay(pre: seq<TokenBalance>, post: seq<TokenBalance>, mint: string,
                      dest: string, payer: string, amount: U64, dest': string, payer': string, amount': U64)
    requires amount > 0
    requires Settles(pre, post, mint, dest, payer, amount) && Settles(pre, post, mint, dest', payer', amount')
    ensures dest' == dest && payer' == payer && amount' == amount
  {
    hide Net, Wrap;
    assert Wrap(Net(pre, post, mint, dest)) > 0;
  }

  /** The same receipt re-pointed at another reference, with its binding recomputed. */
  function Repoint(crypto: Crypto, payer: PubKey, r: SolanaReceipt, reference: string): SolanaReceipt
    requires r.proof.Some?
  {
    r.(reference := reference,
       proof := Some(r.proof.value.(reference := Hex.Encode(BindingReference(crypto, payer, reference)))))
  }

  /** A verified payment is redeemable for another reference if and only if the transaction
      also carries the memo of that reference. With several binding memos in one transaction
      the claim that it is redeemable for one reference and nothing else is false. */
  lemma RedeemableIff(crypto: Crypto, cfg: Config, r: SolanaReceipt, payer: PubKey, reference: string, txn: Txn)
    requires CoherentPayer(crypto, cfg, r) == Some(payer)
    requires Verify(crypto, cfg, r, Found(txn)) == Ok(true)
    ensures Verify(crypto, cfg, Repoint(crypto, payer, r, reference), Found(txn)) == Ok(true) <==>
            MemoMatches(txn, BindingMemo(crypto, payer, reference))
  {
    hide MemoMatches, BindingMemo, BindingReference, MintDeltas, MoneyMatches, SignedBy, StatusAdequate;
    assert CoherentPayer(crypto, cfg, Repoint(crypto, payer, r, reference)) == Some(payer);
  }

  /** One transaction, one payment, two memos: both receipts verify. */
  lemma TwoMemosRedeemTwice(crypto: Crypto, cfg: Config, r: SolanaReceipt, payer: PubKey, txn: Txn, other: string)
    requires CoherentPayer(crypto, cfg, r) == Some(payer)
    requires Verify(crypto, cfg, r, Found(txn)) == Ok(true) && txn.instructions.Some?
    ensures var memo := ParsedIx(Some("spl-memo"), Some(BindingMemo(crypto, payer, other)));
            var twice := txn.(instructions := Some(txn.instructions.value + [memo]));
            && Verify(crypto, cfg, r, Found(twice)) == Ok(true)
            && Verify(crypto, cfg, Repoint(crypto, payer, r, other), Found(twice)) == Ok(true)
  {
    hide BindingMemo, BindingReference, MintDeltas, MoneyMatches, StatusAdequate;
    var memo := ParsedIx(Some("spl-memo"), Some(BindingMemo(crypto, payer, other)));
    var all := txn.instructions.value + [memo];
    var twice := txn.(instructions := Some(all));
    assert all[|txn.instructions.value|] == memo;
    assert ScanMemo(twice.instructions, BindingMemo(crypto, payer, other));
    var want := BindingMemo(crypto, payer, r.reference);
    if ScanMemo(txn.instructions, want) {
      var i :| 0 <= i < |txn.instructions.value| && IsMemo(txn.instructions.value[i], want);
      assert IsMemo(all[i], want);
      assert ScanMemo(twice.instructions, want);
    }
    assert MemoMatches(twice, want);
    assert SignedBy(twice, Base58.Encode(payer));
    RedeemableIff(crypto, cfg, r, payer, other, twice);
  }
}
