/** Building and submitting a payment: program-derived addresses, the two instructions, and
    `SolanaRail::charge` (`patala-solana/src/tx.rs`, `patala-solana/src/lib.rs`). */
module SolanaCharge {
  import opened Prelude
  import opened Text
  import opened Rail
  import opened SolanaRail
  import opened AccountTable
  import opened Message
  import Base58
  import Base64
  import Hex

  /** TokenkegQfeZyiNwAJbNbGKPFXCWuBvf9Ss623VQ5DA */
  const TOKEN_PROGRAM: PubKey :=
    [6, 221, 246, 225, 215, 101, 161, 147, 217, 203, 225, 70, 206, 235, 121, 172,
     28, 180, 133, 237, 95, 91, 55, 145, 58, 140, 245, 133, 126, 255, 0, 169]

  /** ATokenGPvbdGVxr1b2hvZbsiqW5xWH25efTNsLJA8knL */
  const ASSOCIATED_TOKEN_PROGRAM: PubKey :=
    [140, 151, 37, 143, 78, 36, 137, 241, 187, 61, 16, 41, 20, 142, 13, 131,
     11, 90, 19, 153, 218, 255, 16, 132, 4, 142, 123, 216, 219, 233, 248, 89]

  /** MemoSq4gqABAXKb96qnH8TysNcWxMyWCqXgDLGmfcHr */
  const MEMO_PROGRAM: PubKey :=
    [5, 74, 83, 90, 153, 41, 33, 6, 77, 36, 232, 113, 96, 218, 56, 124,
     124, 53, 181, 221, 188, 146, 187, 129, 228, 31, 168, 64, 65, 5, 68, 141]

  const USDC_DECIMALS: Byte := 6

  // ------------------------------------------------------------ derived addresses

  function PdaCandidate(crypto: Crypto, seeds: Bytes, program: PubKey, bump: Byte): PubKey {
    crypto.sha(seeds + [bump] + program + Utf8("ProgramDerivedAddress"))
  }

  /** `find_program_address`: hash with a descending bump until the result is off the curve.
      The result is the candidate of the largest bump that is off the curve, if any is. */
  method FindProgramAddress(crypto: Crypto, seeds: Bytes, program: PubKey) returns (r: Option<(PubKey, Byte)>)
    ensures r == DerivedFrom(crypto, seeds, program, 256)
  {
    hide PdaCandidate;
    var bump := 256;
    while bump > 0
      invariant 0 <= bump <= 256
      invariant DerivedFrom(crypto, seeds, program, bump) == DerivedFrom(crypto, seeds, program, 256)
    {
      bump := bump - 1;
      var out := PdaCandidate(crypto, seeds, program, bump);
      if !crypto.onCurve(out) {
        return Some((out, bump));
      }
    }
    return None;
  }

  /** The candidate of the largest bump below `limit` that is off the curve. */
  function DerivedFrom(crypto: Crypto, seeds: Bytes, program: PubKey, limit: nat): Option<(PubKey, Byte)>
    requires limit <= 256
  {
    hide PdaCandidate;
    if limit == 0 then None
    else
      var c := PdaCandidate(crypto, seeds, program, limit - 1);
      if !crypto.onCurve(c) then Some((c, limit - 1)) else DerivedFrom(crypto, seeds, program, limit - 1)
  }

  /** A derived address is off the curve, so nobody can sign for it; larger bumps were all on
      the curve; and derivation fails only if all of them are. */
  lemma {:induction false} DerivedIsHighestOffCurve(crypto: Crypto, seeds: Bytes, program: PubKey, limit: nat)
    requires limit <= 256
    ensures var r := DerivedFrom(crypto, seeds, program, limit);
            && (r.Some? ==> !crypto.onCurve(r.value.0))
            && (r.Some? ==> r.value.1 < limit && r.value.0 == PdaCandidate(crypto, seeds, program, r.value.1))
            && forall b: Byte :: b < limit && (r.Some? ==> r.value.1 < b) ==>
                 crypto.onCurve(PdaCandidate(crypto, seeds, program, b))
  {
    hide PdaCandidate;
    if limit > 0 {
      DerivedIsHighestOffCurve(crypto, seeds, program, limit - 1);
    }
  }

  /** `associated_token_address` */
  function AssociatedTokenAddress(crypto: Crypto, owner: PubKey, mint: PubKey): Option<PubKey> {
    var (addr, _) :- DerivedFrom(crypto, owner + TOKEN_PROGRAM + mint, ASSOCIATED_TOKEN_PROGRAM, 256);
    Some(addr)
  }

  // ------------------------------------------------------------ instructions

  function TransferData(amount: U64, decimals: Byte): (bs: Bytes)
    ensures |bs| == 10
  {
    [12] + LittleEndian(amount, 8) + [decimals]
  }

  /** `transfer_checked` */
  function TransferChecked(source: PubKey, mint: PubKey, dest: PubKey, authority: PubKey, amount: U64, decimals: Byte): Instruction {
    Instruction(TOKEN_PROGRAM,
      [ AccountMeta(source, false, true), AccountMeta(mint, false, false),
        AccountMeta(dest, false, true), AccountMeta(authority, true, false) ],
      TransferData(amount, decimals))
  }

  /** `memo` */
  function Memo(signer: PubKey, note: string): Instruction {
    Instruction(MEMO_PROGRAM, [AccountMeta(signer, true, false)], Utf8(note))
  }

  // ------------------------------------------------------------ charge

  /** A signing key: its public half and the signing function. */
  datatype Signer = Signer(pubkey: PubKey, sign: Bytes -> Signature)

  datatype ChargeError = InvalidRequest | NoSigner | BadDestination | RpcFailed | BadBlockhash | Derivation

  /** What `charge` has worked out by the time it submits. */
  datatype Draft = Draft(payer: PubKey, dest: PubKey, source: PubKey, destAta: PubKey, blockhash: PubKey, memo: string)

  function PaymentInstructions(cfg: Config, d: Draft, amount: U64): seq<Instruction> {
    [Memo(d.payer, d.memo), TransferChecked(d.source, cfg.mint, d.destAta, d.payer, amount, USDC_DECIMALS)]
  }

  function WireText(cfg: Config, signer: Signer, d: Draft, amount: U64): string {
    var message := MessageBytes(d.payer, PaymentInstructions(cfg, d, amount), d.blockhash);
    Base64.Encode(WireBytes(signer.sign(message), message))
  }

  /** Everything `charge` checks before it submits; `blockhash` is the chain's answer, `None`
      if it could not be reached. */
  function Prepare(crypto: Crypto, cfg: Config, signer: Option<Signer>, req: PayRequest, blockhash: Option<string>)
    : Result<Draft, ChargeError>
  {
    if !IsValidRequest(req) || req.currency != "USDC" then Err(InvalidRequest)
    else if signer.None? then Err(NoSigner)
    else match Base58.PubKeyOf(req.destination)
      case None => Err(BadDestination)
      case Some(dest) =>
        var payer := signer.value.pubkey;
        if blockhash.None? then Err(RpcFailed)
        else match Base58.PubKeyOf(blockhash.value)
          case None => Err(BadBlockhash)
          case Some(bh) =>
            var source := AssociatedTokenAddress(crypto, payer, cfg.mint);
            var destAta := AssociatedTokenAddress(crypto, dest, cfg.mint);
            if source.None? || destAta.None? then Err(Derivation)
            else Ok(Draft(payer, dest, source.value, destAta.value, bh, BindingMemo(crypto, payer, req.reference)))
  }

  function ReceiptFor(crypto: Crypto, cfg: Config, req: PayRequest, payer: PubKey, txSignature: string, now: U64): SolanaReceipt {
    Receipt("solana", req.amountMinor, req.currency, req.reference,
      Some(Binding("solana", txSignature, MintText(cfg), Base58.Encode(payer), req.destination,
                   Hex.Encode(BindingReference(crypto, payer, req.reference)))),
      now)
  }

  /** What `charge` answers, and what reached `send_transaction`; `submitted` is its answer, `None`
      if it failed. */
  function ChargeOutcome(crypto: Crypto, cfg: Config, signer: Option<Signer>, req: PayRequest,
                         blockhash: Option<string>, submitted: Option<string>, now: U64)
    : (Result<SolanaReceipt, ChargeError>, seq<string>)
  {
    match Prepare(crypto, cfg, signer, req, blockhash)
    case Err(e) => (Err(e), [])
    case Ok(d) =>
      var r := if submitted.None? then Err(RpcFailed) else Ok(ReceiptFor(crypto, cfg, req, d.payer, submitted.value, now));
      (r, [WireText(cfg, signer.value, d, req.amountMinor)])
  }

  /** `SolanaRail::charge`, submitting at most once. */
  method Charge(crypto: Crypto, cfg: Config, signer: Option<Signer>, req: PayRequest,
                blockhash: Option<string>, submitted: Option<string>, now: U64)
    returns (r: Result<SolanaReceipt, ChargeError>, sent: seq<string>)
    ensures (r, sent) == ChargeOutcome(crypto, cfg, signer, req, blockhash, submitted, now)
  {
    hide MessageBytes, WireBytes, Base64.Encode, DerivedFrom, BindingMemo, Base58.PubKeyOf, IsValidRequest, ReceiptFor;
    sent := [];
    if !IsValidRequest(req) || req.currency != "USDC" {
      return Err(InvalidRequest), sent;
    }
    if signer.None? {
      return Err(NoSigner), sent;
    }
    var dest := Base58.PubKeyOf(req.destination);
    if dest.None? {
      return Err(BadDestination), sent;
    }
    var payer := signer.value.pubkey;
    if blockhash.None? {
      return Err(RpcFailed), sent;
    }
    var bh := Base58.PubKeyOf(blockhash.value);
    if bh.None? {
      return Err(BadBlockhash), sent;
    }
    var source := FindProgramAddress(crypto, payer + TOKEN_PROGRAM + cfg.mint, ASSOCIATED_TOKEN_PROGRAM);
    if source.None? {
      return Err(Derivation), sent;
    }
    var destAta := FindProgramAddress(crypto, dest.value + TOKEN_PROGRAM + cfg.mint, ASSOCIATED_TOKEN_PROGRAM);
    if destAta.None? {
      return Err(Derivation), sent;
    }
    var memo := BindingMemo(crypto, payer, req.reference);
    var ixs := [ Memo(payer, memo),
                 TransferChecked(source.value.0, cfg.mint, destAta.value.0, payer, req.amountMinor, USDC_DECIMALS) ];
    var message := SerializeMessage(payer, ixs, bh.value);
    var sig := signer.value.sign(message);
    var wire := WireTransaction(sig, message);
    var text := Base64.B64(wire);
    sent := sent + [text];
    assert sent == [WireText(cfg, signer.value, Draft(payer, dest.value, source.value.0, destAta.value.0, bh.value, memo), req.amountMinor)];
    if submitted.None? {
      return Err(RpcFailed), sent;
    }
    r := Ok(ReceiptFor(crypto, cfg, req, payer, submitted.value, now));
  }

  /** The receipt of a charge is coherent for the rail that issued it: `verify` never rejects
      it before looking at the chain. */
  lemma ReceiptIsCoherent(crypto: Crypto, cfg: Config, req: PayRequest, payer: PubKey, txSignature: string, now: U64)
    requires req.currency == "USDC"
    ensures CoherentPayer(crypto, cfg, ReceiptFor(crypto, cfg, req, payer, txSignature, now)) == Some(payer)
  {
    hide Base58.PubKeyOf, Base58.Encode, BindingReference, Hex.Encode;
    Base58.PubKeyTextRoundTrip(payer);
  }
}
