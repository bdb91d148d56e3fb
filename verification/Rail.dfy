/** The request and receipt every rail shares (`patala-core/src/rail.rs`). */
module Rail {
  import opened Prelude
  import opened Text

  datatype PayRequest = PayRequest(amountMinor: U64, currency: string, destination: string, reference: string)

  /** `PayRequest::validate`: a nonzero amount and no blank field. */
  predicate IsValidRequest(req: PayRequest) {
    && req.amountMinor != 0
    && Trim(req.currency) != "" && Trim(req.destination) != "" && Trim(req.reference) != ""
  }

  /** A request is valid if and only if it asks for a nonzero amount and every field has a character
      that is not whitespace. */
  lemma ValidIff(req: PayRequest)
    ensures IsValidRequest(req) <==>
            req.amountMinor != 0 && !IsBlank(req.currency) && !IsBlank(req.destination) && !IsBlank(req.reference)
  {
    hide Trim;
    BlankIff(req.currency);
    BlankIff(req.destination);
    BlankIff(req.reference);
  }

  /** A receipt whose proof has the shape its own rail gives it. */
  datatype Receipt<+P> = Receipt(
    railId: string, amountMinor: U64, currency: string, reference: string, proof: P, settledAt: U64)
}
