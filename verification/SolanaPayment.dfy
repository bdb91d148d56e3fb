/** What `SolanaRail::charge` sends and answers (`patala-solana/src/lib.rs`, `patala-solana/src/tx.rs`),
    stated in the fields of the request and of the transaction a cluster decodes. */
module SolanaPayment {
  import opened Prelude
  import opened Text
  import opened Rail
  import opened SolanaRail
  import opened SolanaVerdict
  import opened AccountTable
  import opened Message
  import opened SolanaCharge
  import opened Ledger
  import Base58
  import Base64
  import Hex

  // ------------------------------------------------------------ token accounts

  /** The hash tried for an owner's token account at one bump. */
  function AccountHash(crypto: Crypto, owner: PubKey, mint: PubKey, bump: Byte): PubKey {
    crypto.sha(owner + TOKEN_PROGRAM + mint + [bump] + ASSOCIATED_TOKEN_PROGRAM + Utf8("ProgramDerivedAddress"))
  }

  /** The account is the hash of the highest bump that is off the curve. */
  ghost predicate IsTokenAccount(crypto: Crypto, owner: PubKey, mint: PubKey, account: PubKey) {
    exists bump: Byte ::
      && account == AccountHash(crypto, owner, mint, bump) && !crypto.onCurve(account)
      && forall b: Byte :: bump < b ==> crypto.onCurve(AccountHash(crypto, owner, mint, b))
  }

  /** The owner has a token account of the mint, and there is only one. */
  lemma TokenAccountIff(crypto: Crypto, owner: PubKey, mint: PubKey, account: PubKey)
    ensures AssociatedTokenAddress(crypto, owner, mint) == Some(account) <==> IsTokenAccount(crypto, owner, mint, account)
    ensures AssociatedTokenAddress(crypto, owner, mint) == None <==> forall b: Byte :: crypto.onCurve(AccountHash(crypto, owner, mint, b))
  {
    hide DerivedFrom, Utf8;
    var seeds := owner + TOKEN_PROGRAM + mint;
    DerivedIsHighestOffCurve(crypto, seeds, ASSOCIATED_TOKEN_PROGRAM, 256);
    assert forall b: Byte :: PdaCandidate(crypto, seeds, ASSOCIATED_TOKEN_PROGRAM, b) == AccountHash(crypto, owner, mint, b);
    hide PdaCandidate, AccountHash;
    var r := DerivedFrom(crypto, seeds, ASSOCIATED_TOKEN_PROGRAM, 256);
    if r.Some? {
      var (addr, bump) := r.value;
      assert addr == AccountHash(crypto, owner, mint, bump);
    }
  }

  // ------------------------------------------------------------ when a payment is sent

  /** The request asks for a nonzero amount of USDC and leaves no field blank. */
  ghost predicate AsksForUsdc(req: PayRequest) {
    && req.amountMinor != 0 && req.currency == "USDC"
    && !IsBlank(req.destination) && !IsBlank(req.reference)
  }

  ghost predicate IsKeyText(s: string) {
    exists k: PubKey :: s == Base58.Encode(k)
  }

  ghost predicate HasTokenAccount(crypto: Crypto, owner: string, mint: PubKey) {
    exists k: PubKey, account: PubKey :: owner == Base58.Encode(k) && IsTokenAccount(crypto, k, mint, account)
  }

  /** The chain is asked for a blockhash. */
  ghost predicate NeedsBlockhash(signer: Option<Signer>, req: PayRequest) {
    AsksForUsdc(req) && signer.Some? && IsKeyText(req.destination)
  }

  /** Everything that holds by the time a transaction is submitted. */
  ghost predicate CanPay(crypto: Crypto, cfg: Config, signer: Option<Signer>, req: PayRequest, blockhash: Option<string>) {
    && NeedsBlockhash(signer, req)
    && blockhash.Some? && IsKeyText(blockhash.value)
    && HasTokenAccount(crypto, Base58.Encode(signer.value.pubkey), cfg.mint)
    && HasTokenAccount(crypto, req.destination, cfg.mint)
  }

  lemma AsksIff(req: PayRequest)
    ensures AsksForUsdc(req) <==> IsValidRequest(req) && req.currency == "USDC"
  {
    hide IsValidRequest;
    ValidIff(req);
    if req.currency == "USDC" {
      assert !IsBlank(req.currency) by {
        assert req.currency[0] == 'U';
      }
    }
  }

  lemma KeyTextIff(s: string)
    ensures Base58.PubKeyOf(s).Some? <==> IsKeyText(s)
    ensures Base58.PubKeyOf(s).Some? ==> s == Base58.Encode(Base58.PubKeyOf(s).value)
  {
    hide Base58.PubKeyOf, Base58.Encode;
    forall k: PubKey
      ensures Base58.PubKeyOf(s) == Some(k) <==> s == Base58.Encode(k)
    {
      Base58.PubKeyOfIsEncode(s, k);
    }
  }

  lemma OwnAccountIff(crypto: Crypto, k: PubKey, mint: PubKey)
    ensures AssociatedTokenAddress(crypto, k, mint).Some? <==> HasTokenAccount(crypto, Base58.Encode(k), mint)
  {
    hide AssociatedTokenAddress, IsTokenAccount, Base58.Encode;
    forall owner: PubKey, account: PubKey
      ensures AssociatedTokenAddress(crypto, owner, mint) == Some(account) <==> IsTokenAccount(crypto, owner, mint, account)
    {
      TokenAccountIff(crypto, owner, mint, account);
    }
    forall owner: PubKey | Base58.Encode(owner) == Base58.Encode(k)
      ensures owner == k
    {
      Base58.EncodeInjective(owner, k);
    }
  }

  /** What each answer of `charge` means, and when it has sent something. */
  lemma ChargeAnswers(crypto: Crypto, cfg: Config, signer: Option<Signer>, req: PayRequest,
                      blockhash: Option<string>, submitted: Option<string>, now: U64)
    ensures var (r, sent) := ChargeOutcome(crypto, cfg, signer, req, blockhash, submitted, now);
            && (|sent| == 1 <==> CanPay(crypto, cfg, signer, req, blockhash))
            && (sent == [] <==> !CanPay(crypto, cfg, signer, req, blockhash))
            && (r.Ok? <==> CanPay(crypto, cfg, signer, req, blockhash) && submitted.Some?)
            && (r == Err(InvalidRequest) <==> !AsksForUsdc(req))
            && (r == Err(NoSigner) <==> AsksForUsdc(req) && signer.None?)
            && (r == Err(BadDestination) <==> AsksForUsdc(req) && signer.Some? && !IsKeyText(req.destination))
            && (r == Err(BadBlockhash) <==> NeedsBlockhash(signer, req) && blockhash.Some? && !IsKeyText(blockhash.value))
            && (r == Err(RpcFailed) <==> || (NeedsBlockhash(signer, req) && blockhash.None?)
                                         || (CanPay(crypto, cfg, signer, req, blockhash) && submitted.None?))
  {
    hide IsValidRequest, AsksForUsdc, Base58.PubKeyOf, Base58.Encode, IsKeyText, AssociatedTokenAddress, HasTokenAccount,
         WireText, ReceiptFor, BindingMemo;
    AsksIff(req);
    KeyTextIff(req.destination);
    if blockhash.Some? {
      KeyTextIff(blockhash.value);
    }
    if signer.Some? {
      OwnAccountIff(crypto, signer.value.pubkey, cfg.mint);
    }
    var dest := Base58.PubKeyOf(req.destination);
    if dest.Some? {
      OwnAccountIff(crypto, dest.value, cfg.mint);
    }
  }

  // ------------------------------------------------------------ what is sent

  /** The decoded transaction is this payment: signed over its own message by the payer, on the
      chain's blockhash, a memo of the binding followed by a checked transfer of the amount from the
      payer's token account to the destination's. */
  ghost predicate SpellsPayment(crypto: Crypto, cfg: Config, signer: Signer, req: PayRequest, blockhash: string, tx: Transaction) {
    && tx.signature == signer.sign(tx.message)
    && blockhash == Base58.Encode(tx.compiled.blockhash)
    && tx.compiled.header.signers == 1 && tx.compiled.keys != [] && tx.compiled.keys[0] == signer.pubkey
    && |tx.ixs| == 2 && IsBindingMemo(crypto, signer.pubkey, req.reference, tx.ixs[0])
    && IsPayment(crypto, cfg, signer.pubkey, req, tx.ixs[1])
  }

  ghost predicate IsBindingMemo(crypto: Crypto, payer: PubKey, reference: string, ix: Instruction) {
    && ix.programId == MEMO_PROGRAM && ix.data == Utf8(MemoText(BindingText(crypto, payer, reference)))
    && |ix.accounts| == 1 && ix.accounts[0].key == payer && ix.accounts[0].signer
  }

  ghost predicate IsPayment(crypto: Crypto, cfg: Config, payer: PubKey, req: PayRequest, ix: Instruction) {
    && ix.programId == TOKEN_PROGRAM && ix.data == [12] + LittleEndian(req.amountMinor, 8) + [6]
    && |ix.accounts| == 4
    && IsTokenAccount(crypto, payer, cfg.mint, ix.accounts[0].key) && ix.accounts[0].writable
    && ix.accounts[1].key == cfg.mint
    && (exists dest: PubKey :: req.destination == Base58.Encode(dest) && IsTokenAccount(crypto, dest, cfg.mint, ix.accounts[2].key))
    && ix.accounts[2].writable
    && ix.accounts[3].key == payer && ix.accounts[3].signer
  }

  lemma DraftFields(crypto: Crypto, cfg: Config, signer: Signer, req: PayRequest, blockhash: Option<string>)
    requires Prepare(crypto, cfg, Some(signer), req, blockhash).Ok?
    ensures var d := Prepare(crypto, cfg, Some(signer), req, blockhash).value;
            && d.payer == signer.pubkey && req.destination == Base58.Encode(d.dest)
            && blockhash == Some(Base58.Encode(d.blockhash))
            && d.memo == MemoText(BindingText(crypto, signer.pubkey, req.reference))
  {
    hide AssociatedTokenAddress, Base58.PubKeyOf, Base58.Encode, Hex.Encode, Utf8, LittleEndian, IsValidRequest;
    KeyTextIff(req.destination);
    KeyTextIff(blockhash.value);
  }

  lemma DraftAccounts(crypto: Crypto, cfg: Config, signer: Signer, req: PayRequest, blockhash: Option<string>)
    requires Prepare(crypto, cfg, Some(signer), req, blockhash).Ok?
    ensures var d := Prepare(crypto, cfg, Some(signer), req, blockhash).value;
            IsTokenAccount(crypto, d.payer, cfg.mint, d.source) && IsTokenAccount(crypto, d.dest, cfg.mint, d.destAta)
  {
    hide Prepare, IsTokenAccount, AssociatedTokenAddress;
    var d := Prepare(crypto, cfg, Some(signer), req, blockhash).value;
    DerivedAccounts(crypto, cfg, signer, req, blockhash);
    TokenAccountIff(crypto, d.payer, cfg.mint, d.source);
    TokenAccountIff(crypto, d.dest, cfg.mint, d.destAta);
  }

  lemma DerivedAccounts(crypto: Crypto, cfg: Config, signer: Signer, req: PayRequest, blockhash: Option<string>)
    requires Prepare(crypto, cfg, Some(signer), req, blockhash).Ok?
    ensures var d := Prepare(crypto, cfg, Some(signer), req, blockhash).value;
            && AssociatedTokenAddress(crypto, d.payer, cfg.mint) == Some(d.source)
            && AssociatedTokenAddress(crypto, d.dest, cfg.mint) == Some(d.destAta)
  {
    hide AssociatedTokenAddress, Base58.PubKeyOf, BindingMemo, IsValidRequest;
  }

  /** What reaches the chain decodes to the payment that was asked for. */
  lemma SentPays(crypto: Crypto, cfg: Config, signer: Signer, req: PayRequest,
                 blockhash: Option<string>, submitted: Option<string>, now: U64)
    requires CanPay(crypto, cfg, Some(signer), req, blockhash)
    ensures var sent := ChargeOutcome(crypto, cfg, Some(signer), req, blockhash, submitted, now).1;
            && |sent| == 1 && DecodeTransaction(sent[0]).Some?
            && SpellsPayment(crypto, cfg, signer, req, blockhash.value, DecodeTransaction(sent[0]).value)
  {
    hide Prepare, CanPay, WireText, ReceiptFor, DecodeTransaction, IsTokenAccount, Table, Utf8, LittleEndian, BindingText;
    ChargeAnswers(crypto, cfg, Some(signer), req, blockhash, submitted, now);
    var d := Prepare(crypto, cfg, Some(signer), req, blockhash).value;
    DraftFields(crypto, cfg, signer, req, blockhash);
    DraftAccounts(crypto, cfg, signer, req, blockhash);
    var tx := ChargeDecodes(cfg, signer, d, req.amountMinor);
    TableStart(cfg, d, req.amountMinor, tx);
  }

  lemma TableStart(cfg: Config, d: Draft, amount: U64, tx: Transaction)
    requires FaithfulDecoding(cfg, d, amount, tx)
    ensures tx.compiled.keys != [] && tx.compiled.keys[0] == d.payer
  {
    hide Table;
    var t := Table(d.payer, PaymentInstructions(cfg, d, amount));
    assert t[0] == t[..1][0];
  }

  /** The receipt restates the request, names the payer and carries the signature that
      `send_transaction` answered. */
  lemma ReceiptFields(crypto: Crypto, cfg: Config, signer: Signer, req: PayRequest,
                      blockhash: Option<string>, submitted: string, now: U64)
    requires CanPay(crypto, cfg, Some(signer), req, blockhash)
    ensures ChargeOutcome(crypto, cfg, Some(signer), req, blockhash, Some(submitted), now).0 ==
            Ok(Receipt("solana", req.amountMinor, "USDC", req.reference,
                 Some(Binding("solana", submitted, Base58.Encode(cfg.mint), Base58.Encode(signer.pubkey), req.destination,
                              BindingText(crypto, signer.pubkey, req.reference))), now))
  {
    hide Prepare, WireText, Base58.Encode, Hex.Encode, Utf8, LittleEndian;
    ChargeAnswers(crypto, cfg, Some(signer), req, blockhash, Some(submitted), now);
    DraftFields(crypto, cfg, signer, req, blockhash);
  }
}
