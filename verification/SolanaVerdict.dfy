/** What `SolanaRail::verify` answers (`patala-solana/src/lib.rs`), stated in the fields of the receipt
    and of the chain's report: exactly when it accepts, and exactly when it cannot tell. */
module SolanaVerdict {
  import opened Prelude
  import opened Text
  import opened Decimal
  import opened Balances
  import opened SolanaRail
  import Base58
  import Hex

  // ------------------------------------------------------------ what the report and the receipt say

  /** The hash of the tag, the payer and the length-prefixed payment reference, printed. */
  function BindingText(crypto: Crypto, payer: PubKey, reference: string): string {
    Hex.Encode(crypto.blake(Utf8("patala-solana-pay-v1") + payer + LittleEndian(|Utf8(reference)|, 8) + Utf8(reference)))
  }

  /** The receipt is for a USDC payment by this payer in this configuration's mint, and its binding
      reference binds the payer to the payment reference. */
  ghost predicate NamesPayer(crypto: Crypto, cfg: Config, receipt: SolanaReceipt, payer: PubKey) {
    && receipt.railId == "solana" && receipt.currency == "USDC" && receipt.proof.Some?
    && var b := receipt.proof.value;
    && b.chain == "solana" && b.mint == Base58.Encode(cfg.mint) && b.payer == Base58.Encode(payer)
    && b.reference == BindingText(crypto, payer, receipt.reference)
  }

  ghost predicate IsCoherent(crypto: Crypto, cfg: Config, receipt: SolanaReceipt) {
    exists payer: PubKey :: NamesPayer(crypto, cfg, receipt, payer)
  }

  /** The memo text of a binding reference. */
  function MemoText(reference: string): string {
    "patala:v1:" + reference
  }

  /** The transaction is reported as landed without error, at least as firmly as configured. */
  ghost predicate Landed(cfg: Config, txn: Txn) {
    && txn.meta.Some? && txn.meta.value.err == Null
    && (txn.status == None || txn.status == Some("finalized") || (cfg.commitment == Confirmed && txn.status == Some("confirmed")))
  }

  /** Some account key entry has this text and is marked as a signer. */
  ghost predicate HasSigner(txn: Txn, text: string) {
    txn.accountKeys.Some? &&
    exists i: nat :: i < |txn.accountKeys.value| && txn.accountKeys.value[i].pubkey == Some(text) && txn.accountKeys.value[i].signer == Some(true)
  }

  /** Some instruction of the list is a memo with this text. */
  ghost predicate ListsMemo(ixs: seq<ParsedIx>, text: string) {
    exists i: nat :: i < |ixs| && ixs[i].program == Some("spl-memo") && ixs[i].parsed == Some(text)
  }

  /** A top-level instruction, or one of a group of inner instructions, is a memo with this text. */
  ghost predicate HasMemo(txn: Txn, text: string) {
    || (txn.instructions.Some? && ListsMemo(txn.instructions.value, text))
    || (txn.meta.Some? && txn.meta.value.inner.Some? && exists i: nat ::
          i < |txn.meta.value.inner.value| && txn.meta.value.inner.value[i].Some? && ListsMemo(txn.meta.value.inner.value[i].value, text))
  }

  /** A list of the report; a missing one is empty. */
  function Listed(list: Option<seq<TokenBalance>>): seq<TokenBalance> {
    if list.Some? then list.value else []
  }

  /** Modulo 2^128 the destination's total rises by the amount, the payer's falls by it, and every
      other owner's stays. */
  ghost predicate Moved(m: Meta, mint: string, destination: string, payer: string, amount: int) {
    var pre, post := Listed(m.pre), Listed(m.post);
    && Congruent(Total(post, mint, destination) - Total(pre, mint, destination), amount)
    && Congruent(Total(post, mint, payer) - Total(pre, mint, payer), -amount)
    && forall o: string :: o != destination && o != payer ==> Congruent(Total(post, mint, o) - Total(pre, mint, o), 0)
  }

  /** Everything `verify` asks of the transaction before it looks at the balances. */
  ghost predicate Bound(cfg: Config, receipt: SolanaReceipt, txn: Txn) {
    && receipt.proof.Some?
    && Landed(cfg, txn)
    && HasSigner(txn, receipt.proof.value.payer)
    && HasMemo(txn, MemoText(receipt.proof.value.reference))
  }

  /** The report's balances can be read and show the receipt's payment. */
  ghost predicate Paid(cfg: Config, receipt: SolanaReceipt, txn: Txn) {
    && receipt.proof.Some? && txn.meta.Some?
    && var mint, m, b := Base58.Encode(cfg.mint), txn.meta.value, receipt.proof.value;
    && AllReadable(Listed(m.pre), mint) && AllReadable(Listed(m.post), mint)
    && Moved(m, mint, b.destination, b.payer, receipt.amountMinor)
  }

  /** The first balance entry of the mint that cannot be read, those before the payment first, has
      this fault. */
  ghost predicate Unreadable(cfg: Config, txn: Txn, c: BalanceError) {
    && txn.meta.Some?
    && var mint, m := Base58.Encode(cfg.mint), txn.meta.value;
    FirstFault(Listed(m.pre), mint, c) || (AllReadable(Listed(m.pre), mint) && FirstFault(Listed(m.post), mint, c))
  }

  // ------------------------------------------------------------ each check of verify

  lemma CoherentIff(crypto: Crypto, cfg: Config, receipt: SolanaReceipt, payer: PubKey)
    ensures CoherentPayer(crypto, cfg, receipt) == Some(payer) <==> NamesPayer(crypto, cfg, receipt, payer)
  {
    hide Utf8, LittleEndian, Hex.Encode;
    if receipt.proof.Some? {
      Base58.PubKeyOfIsEncode(receipt.proof.value.payer, payer);
    }
  }

  lemma SignerIff(txn: Txn, text: string)
    ensures SignedBy(txn, text) <==> HasSigner(txn, text)
  {
    if HasSigner(txn, text) {
      var i: nat :| i < |txn.accountKeys.value| && txn.accountKeys.value[i].pubkey == Some(text) && txn.accountKeys.value[i].signer == Some(true);
      assert txn.accountKeys.value[i] == AccountKey(Some(text), Some(true));
    }
  }

  lemma ScanIff(ixs: Option<seq<ParsedIx>>, text: string)
    ensures ScanMemo(ixs, text) <==> ixs.Some? && ListsMemo(ixs.value, text)
  {
    if ixs.Some? && ListsMemo(ixs.value, text) {
      var i: nat :| i < |ixs.value| && ixs.value[i].program == Some("spl-memo") && ixs.value[i].parsed == Some(text);
      assert IsMemo(ixs.value[i], text);
    }
  }

  lemma MemoIff(txn: Txn, text: string)
    ensures MemoMatches(txn, text) <==> HasMemo(txn, text)
  {
    hide ScanMemo, ListsMemo;
    ScanIff(txn.instructions, text);
    forall ixs: Option<seq<ParsedIx>>
      ensures ScanMemo(ixs, text) <==> ixs.Some? && ListsMemo(ixs.value, text)
    {
      ScanIff(ixs, text);
    }
    if txn.meta.Some? && txn.meta.value.inner.Some? {
      var groups := txn.meta.value.inner.value;
      assert forall i: nat :: i < |groups| ==> (ScanMemo(groups[i], text) <==> groups[i].Some? && ListsMemo(groups[i].value, text));
    }
  }

  lemma StatusIff(cfg: Config, txn: Txn)
    ensures Landed(cfg, txn) <==>
            && txn.meta.Some? && txn.meta.value.err == Null
            && (txn.status.Some? ==> StatusAdequate(cfg.commitment, txn.status.value))
  {
  }

  lemma PaidIff(cfg: Config, receipt: SolanaReceipt, txn: Txn)
    requires receipt.proof.Some? && txn.meta.Some?
    ensures var pre, post, mint, b := Pre(txn), Post(txn), MintText(cfg), receipt.proof.value;
            Paid(cfg, receipt, txn) <==>
            WellFormed(pre, mint) && WellFormed(post, mint) && Settles(pre, post, mint, b.destination, b.payer, receipt.amountMinor)
  {
    hide WellFormed, AllReadable, Settles, Moved;
    var pre, post, mint, b := Pre(txn), Post(txn), MintText(cfg), receipt.proof.value;
    WellFormedIff(pre, mint);
    WellFormedIff(post, mint);
    MovedIff(txn.meta.value, mint, b.destination, b.payer, receipt.amountMinor);
  }

  lemma MovedIff(m: Meta, mint: string, destination: string, payer: string, amount: int)
    requires 0 <= amount < U64_BOUND
    ensures Moved(m, mint, destination, payer, amount) <==> Settles(Listed(m.pre), Listed(m.post), mint, destination, payer, amount)
  {
    hide Total, Congruent, Settles;
    var pre, post := Listed(m.pre), Listed(m.post);
    SettlesIff(pre, post, mint, destination, payer, amount);
    assert forall o: string :: Net(pre, post, mint, o) == Total(post, mint, o) - Total(pre, mint, o);
  }

  // ------------------------------------------------------------ the answer

  /** The three answers of steps 4 to 7 for a coherent receipt and a transaction the chain knows. */
  lemma TxnVerdict(crypto: Crypto, cfg: Config, receipt: SolanaReceipt, payer: PubKey, txn: Txn)
    requires NamesPayer(crypto, cfg, receipt, payer)
    ensures var r := VerifyTxn(crypto, cfg, receipt, Destination(receipt), payer, txn);
            && (r == Ok(true) <==> Bound(cfg, receipt, txn) && Paid(cfg, receipt, txn))
            && r != Err(RpcDown)
            && forall c: BalanceError :: r == Err(BadBalances(c)) <==> Bound(cfg, receipt, txn) && Unreadable(cfg, txn, c)
  {
    hide Base58.Encode, Hex.Encode, Utf8, LittleEndian, SignedBy, HasSigner, MemoMatches, HasMemo, StatusAdequate, Landed,
         MintDeltas, MoneyMatches, Settles, WellFormed, FirstFault, AllReadable, Paid;
    var b := receipt.proof.value;
    StatusIff(cfg, txn);
    SignerIff(txn, b.payer);
    MemoIff(txn, MemoText(b.reference));
    assert BindingMemo(crypto, payer, receipt.reference) == MemoText(b.reference);
    if txn.meta.Some? {
      var pre, post, mint := Pre(txn), Post(txn), MintText(cfg);
      assert pre == Listed(txn.meta.value.pre) && post == Listed(txn.meta.value.post);
      PaidIff(cfg, receipt, txn);
      MintDeltasAreNet(pre, post, mint, "");
      forall c: BalanceError
        ensures MintDeltas(pre, post, mint) == Err(c) <==> Unreadable(cfg, txn, c)
      {
        DeltasFaultIff(pre, post, mint, c);
      }
      if WellFormed(pre, mint) && WellFormed(post, mint) {
        MoneyMatchesIffSettles(pre, post, mint, b.destination, b.payer, receipt.amountMinor);
      }
    }
  }

  /** `verify` answers Ok(true) if and only if the receipt names its payer and a transaction the
      chain reports landed without error and firmly enough, lists the payer's key as a signer and the
      memo of the binding, and shows the payment in balances that can all be read. */
  lemma AcceptsIff(crypto: Crypto, cfg: Config, receipt: SolanaReceipt, answer: RpcAnswer)
    ensures Verify(crypto, cfg, receipt, answer) == Ok(true) <==>
            && IsCoherent(crypto, cfg, receipt)
            && match answer
               case Found(txn) => Bound(cfg, receipt, txn) && Paid(cfg, receipt, txn)
               case NotFound => false
               case Unreachable => false
  {
    hide VerifyTxn, CoherentPayer, NamesPayer, IsCoherent, Bound, Paid;
    ByPayer(crypto, cfg, receipt);
    var coherent := CoherentPayer(crypto, cfg, receipt);
    if coherent.Some? && answer.Found? {
      TxnVerdict(crypto, cfg, receipt, coherent.value, answer.txn);
    }
  }

  /** `verify` refuses to answer if and only if a receipt that names its payer meets an unreachable
      chain, or balances that cannot be read after every earlier check passed. */
  lemma RefusesIff(crypto: Crypto, cfg: Config, receipt: SolanaReceipt, answer: RpcAnswer, e: VerifyError)
    ensures Verify(crypto, cfg, receipt, answer) == Err(e) <==>
            && IsCoherent(crypto, cfg, receipt)
            && match e
               case RpcDown => answer.Unreachable?
               case BadBalances(c) => answer.Found? && Bound(cfg, receipt, answer.txn) && Unreadable(cfg, answer.txn, c)
  {
    hide VerifyTxn, CoherentPayer, NamesPayer, IsCoherent, Bound, Unreadable;
    ByPayer(crypto, cfg, receipt);
    var coherent := CoherentPayer(crypto, cfg, receipt);
    if coherent.Some? && answer.Found? {
      TxnVerdict(crypto, cfg, receipt, coherent.value, answer.txn);
    }
  }

  lemma ByPayer(crypto: Crypto, cfg: Config, receipt: SolanaReceipt)
    ensures CoherentPayer(crypto, cfg, receipt).Some? <==> IsCoherent(crypto, cfg, receipt)
    ensures CoherentPayer(crypto, cfg, receipt).Some? ==>
              NamesPayer(crypto, cfg, receipt, CoherentPayer(crypto, cfg, receipt).value)
  {
    hide CoherentPayer, NamesPayer;
    forall payer: PubKey
      ensures CoherentPayer(crypto, cfg, receipt) == Some(payer) <==> NamesPayer(crypto, cfg, receipt, payer)
    {
      CoherentIff(crypto, cfg, receipt, payer);
    }
  }

  /** The payer signed: an accepted receipt's transaction has an account key entry with the payer's
      text that is marked as a signer. */
  lemma PayerSigned(crypto: Crypto, cfg: Config, receipt: SolanaReceipt, txn: Txn)
    requires Verify(crypto, cfg, receipt, Found(txn)) == Ok(true)
    ensures receipt.proof.Some? && txn.accountKeys.Some?
    ensures exists i: nat :: i < |txn.accountKeys.value| && txn.accountKeys.value[i] == AccountKey(Some(receipt.proof.value.payer), Some(true))
  {
    hide Verify, IsCoherent, HasMemo, Landed, Paid;
    AcceptsIff(crypto, cfg, receipt, Found(txn));
    var text, keys := receipt.proof.value.payer, txn.accountKeys.value;
    var i: nat :| i < |keys| && keys[i].pubkey == Some(text) && keys[i].signer == Some(true);
    assert keys[i] == AccountKey(Some(text), Some(true));
  }
}
