/** The manual rail (`patala-fiat/src/manual.rs`): orders begun by `charge`, settled only by an
    operator's mark, read back by `verify` and `record`. */
module ManualRail {
  import opened Prelude
  import opened Text
  import opened Rail
  import opened Money

  const RAIL_ID := "manual"

  datatype ManualStatus = Pending | Paid | Failed

  datatype ManualRecord = ManualRecord(
    reference: string, amountMinor: U64, currency: string, status: ManualStatus,
    instructions: string, createdAt: U64, markedBy: string, markedAt: U64)

  type Records = map<string, ManualRecord>

  datatype ManualError =
    | InvalidRequest | BadCurrency(cause: CurrencyError) | InstructionsFailed | EmptyInstructions
    | MissingReference | MissingActor | UnknownReference

  /** The proof is the instructions text. */
  type ManualReceipt = Receipt<string>

  /** What a rail is built with: the currency table and the instructions generator. */
  datatype Setup = Setup(table: CurrencyTable, instructions: PayRequest -> Option<string>)

  // ------------------------------------------------------------ specification

  function ReceiptOf(rec: ManualRecord): ManualReceipt {
    Receipt(RAIL_ID, if rec.status == Paid then rec.amountMinor else 0, rec.currency, rec.reference,
            rec.instructions, rec.markedAt)
  }

  function FreshRecord(req: PayRequest, currency: string, text: string, now: U64): ManualRecord {
    ManualRecord(req.reference, req.amountMinor, currency, Pending, text, now, "", 0)
  }

  /** The instructions for a new order, in the normalized currency. */
  function NewInstructions(setup: Setup, req: PayRequest, currency: string): Result<string, ManualError> {
    match setup.instructions(req.(currency := currency))
    case None => Err(InstructionsFailed)
    case Some(text) => if Trim(text) == "" then Err(EmptyInstructions) else Ok(text)
  }

  /** State and answer after `charge`. */
  function Charged(setup: Setup, rs: Records, req: PayRequest, now: U64): (Records, Result<ManualReceipt, ManualError>) {
    if !IsValidRequest(req) then (rs, Err(InvalidRequest)) else
    match Normalize(setup.table, req.currency)
    case Err(e) => (rs, Err(BadCurrency(e)))
    case Ok(currency) =>
      if req.reference in rs then (rs, Ok(ReceiptOf(rs[req.reference]))) else
      match NewInstructions(setup, req, currency)
      case Err(e) => (rs, Err(e))
      case Ok(text) =>
        var rec := FreshRecord(req, currency, text, now);
        (rs[req.reference := rec], Ok(ReceiptOf(rec)))
  }

  /** State and answer after `mark_paid` or `mark_failed`. */
  function Marked(rs: Records, reference: string, markedBy: string, status: ManualStatus, now: U64)
    : (Records, Result<ManualRecord, ManualError>)
  {
    var key, actor := Trim(reference), Trim(markedBy);
    if key == "" then (rs, Err(MissingReference))
    else if actor == "" then (rs, Err(MissingActor))
    else if key !in rs then (rs, Err(UnknownReference))
    else if status == Paid && rs[key].status == Paid then (rs, Ok(rs[key]))
    else
      var rec := rs[key].(status := status, markedBy := actor, markedAt := now);
      (rs[key := rec], Ok(rec))
  }

  /** The verdict of `verify`. */
  predicate Verified(rs: Records, receipt: ManualReceipt) {
    && receipt.railId == RAIL_ID
    && receipt.reference in rs
    && rs[receipt.reference].status == Paid
    && ToAsciiUppercase(rs[receipt.reference].currency) == ToAsciiUppercase(receipt.currency)
    && rs[receipt.reference].amountMinor >= receipt.amountMinor
  }

  /** The answer of `record`. */
  function Recorded(rs: Records, reference: string): Option<ManualRecord> {
    if Trim(reference) in rs then Some(rs[Trim(reference)]) else None
  }

  // ------------------------------------------------------------ the rail

  class ManualRail {
    const setup: Setup
    var records: Records

    constructor (setup: Setup)
      ensures this.setup == setup && records == map[]
    {
      this.setup := setup;
      records := map[];
    }

    /** `charge`: idempotent on the reference; moves no money. */
    method Charge(req: PayRequest, now: U64) returns (r: Result<ManualReceipt, ManualError>)
      modifies this`records
      ensures (records, r) == Charged(setup, old(records), req, now)
    {
      if !IsValidRequest(req) {
        return Err(InvalidRequest);
      }
      var currency := Normalize(setup.table, req.currency);
      if currency.Err? {
        return Err(BadCurrency(currency.error));
      }
      if req.reference in records {
        var existing := records[req.reference];
        var amountMinor := if existing.status == Paid then existing.amountMinor else 0;
        return Ok(Receipt(RAIL_ID, amountMinor, existing.currency, existing.reference, existing.instructions, existing.markedAt));
      }
      var text := setup.instructions(req.(currency := currency.value));
      if text.None? {
        return Err(InstructionsFailed);
      }
      if Trim(text.value) == "" {
        return Err(EmptyInstructions);
      }
      var rec := ManualRecord(req.reference, req.amountMinor, currency.value, Pending, text.value, now, "", 0);
      records := records[req.reference := rec];
      return Ok(Receipt(RAIL_ID, 0, currency.value, req.reference, text.value, 0));
    }

    /** `mark`, shared by `MarkPaid` and `MarkFailed`. */
    method Mark(reference: string, markedBy: string, status: ManualStatus, now: U64) returns (r: Result<ManualRecord, ManualError>)
      modifies this`records
      ensures (records, r) == Marked(old(records), reference, markedBy, status, now)
    {
      var key, actor := Trim(reference), Trim(markedBy);
      if key == "" {
        return Err(MissingReference);
      }
      if actor == "" {
        return Err(MissingActor);
      }
      if key !in records {
        return Err(UnknownReference);
      }
      if status == Paid && records[key].status == Paid {
        return Ok(records[key]);
      }
      records := records[key := records[key].(status := status, markedBy := actor, markedAt := now)];
      return Ok(records[key]);
    }

    method MarkPaid(reference: string, markedBy: string, now: U64) returns (r: Result<ManualRecord, ManualError>)
      modifies this`records
      ensures (records, r) == Marked(old(records), reference, markedBy, Paid, now)
    {
      r := Mark(reference, markedBy, Paid, now);
    }

    method MarkFailed(reference: string, markedBy: string, now: U64) returns (r: Result<ManualRecord, ManualError>)
      modifies this`records
      ensures (records, r) == Marked(old(records), reference, markedBy, Failed, now)
    {
      r := Mark(reference, markedBy, Failed, now);
    }

    /** `record` */
    method Record(reference: string) returns (r: Option<ManualRecord>)
      ensures r == Recorded(records, reference)
    {
      var key := Trim(reference);
      r := if key in records then Some(records[key]) else None;
    }

    /** `verify`: fails closed at every step. */
    method Verify(receipt: ManualReceipt) returns (ok: bool)
      ensures ok <==> Verified(records, receipt)
    {
      if receipt.railId != RAIL_ID {
        return false;
      }
      if receipt.reference !in records {
        return false;
      }
      var rec := records[receipt.reference];
      if rec.status != Paid {
        return false;
      }
      if ToAsciiUppercase(rec.currency) != ToAsciiUppercase(receipt.currency) {
        return false;
      }
      if rec.amountMinor < receipt.amountMinor {
        return false;
      }
      return true;
    }
  }

  // ------------------------------------------------------------ runs

  datatype Event =
    | Charge(req: PayRequest, now: U64)
    | Mark(reference: string, markedBy: string, status: ManualStatus, now: U64)

  /** Operators can only mark an order paid or failed. */
  predicate IsOperation(e: Event) {
    e.Charge? || e.status != Pending
  }

  predicate IsRun(es: seq<Event>) {
    forall i :: 0 <= i < |es| ==> IsOperation(es[i])
  }

  function Step(setup: Setup, rs: Records, e: Event): Records {
    match e
    case Charge(req, now) => Charged(setup, rs, req, now).0
    case Mark(reference, markedBy, status, now) => Marked(rs, reference, markedBy, status, now).0
  }

  /** The records after a run from an empty rail. */
  function Run(setup: Setup, es: seq<Event>): Records {
    if es == [] then map[] else Step(setup, Run(setup, es[..|es| - 1]), es[|es| - 1])
  }

  /** What every reachable record satisfies: filed under its own reference, for a positive
      amount, in a normalized currency; Pending exactly while nobody has marked it, and then
      with time zero; and never marked at all if its reference has surrounding whitespace. */
  ghost predicate Sound(rs: Records) {
    forall k :: k in rs ==> SoundRecord(k, rs[k])
  }

  ghost predicate SoundRecord(k: string, rec: ManualRecord) {
    && rec.reference == k && Trim(k) != "" && rec.amountMinor > 0
    && ToAsciiUppercase(rec.currency) == rec.currency
    && (rec.status == Pending <==> rec.markedBy == "")
    && (rec.status == Pending ==> rec.markedAt == 0)
    && (Trim(k) != k ==> rec.status == Pending)
  }

  /** The fields the first charge fixes. */
  predicate SameOrder(a: ManualRecord, b: ManualRecord) {
    && a.reference == b.reference && a.amountMinor == b.amountMinor && a.currency == b.currency
    && a.instructions == b.instructions && a.createdAt == b.createdAt
  }

  lemma NormalizedIsUpper(table: CurrencyTable, code: string)
    requires Normalize(table, code).Ok?
    ensures ToAsciiUppercase(Normalize(table, code).value) == Normalize(table, code).value
  {
  }

  lemma StepKeepsSound(setup: Setup, rs: Records, e: Event)
    requires Sound(rs) && IsOperation(e)
    ensures Sound(Step(setup, rs, e))
  {
    hide Trim, Normalize, ToAsciiUppercase, NewInstructions, IsValidRequest;
    match e {
      case Charge(req, now) =>
        if Normalize(setup.table, req.currency).Ok? {
          NormalizedIsUpper(setup.table, req.currency);
        }
        ValidReference(req);
      case Mark(reference, markedBy, status, now) =>
        TrimIdempotent(reference);
    }
  }

  lemma ValidReference(req: PayRequest)
    ensures IsValidRequest(req) ==> req.amountMinor > 0 && Trim(req.reference) != ""
  {
  }

  /** One step keeps every order that exists: its fixed fields, and that it has been marked. */
  lemma StepKeepsOrders(setup: Setup, rs: Records, e: Event, k: string)
    requires k in rs && IsOperation(e)
    ensures k in Step(setup, rs, e) && SameOrder(rs[k], Step(setup, rs, e)[k])
    ensures rs[k].status != Pending ==> Step(setup, rs, e)[k].status != Pending
    ensures rs[k].status == Paid && Step(setup, rs, e)[k].status == Paid ==> Step(setup, rs, e)[k] == rs[k]
  {
    hide Trim, Normalize, NewInstructions, IsValidRequest;
  }

  /** Every reachable state is sound. */
  lemma {:induction false} RunIsSound(setup: Setup, es: seq<Event>)
    requires IsRun(es)
    ensures Sound(Run(setup, es))
  {
    if es != [] {
      RunIsSound(setup, es[..|es| - 1]);
      StepKeepsSound(setup, Run(setup, es[..|es| - 1]), es[|es| - 1]);
    }
  }

  /** Once charged, an order's reference, amount, currency, instructions and creation time never
      change again, and once marked it never returns to Pending. */
  lemma {:induction false} OrdersAreFixed(setup: Setup, es: seq<Event>, n: nat, k: string)
    requires IsRun(es) && n <= |es| && k in Run(setup, es[..n])
    ensures k in Run(setup, es) && SameOrder(Run(setup, es[..n])[k], Run(setup, es)[k])
    ensures Run(setup, es[..n])[k].status != Pending ==> Run(setup, es)[k].status != Pending
    decreases |es|
  {
    hide Step, SameOrder;
    if n == |es| {
      assert es[..n] == es;
      SameOrderReflexive(Run(setup, es)[k]);
    } else {
      var front := es[..|es| - 1];
      assert front[..n] == es[..n];
      OrdersAreFixed(setup, front, n, k);
      StepKeepsOrders(setup, Run(setup, front), es[|es| - 1], k);
      SameOrderTransitive(Run(setup, es[..n])[k], Run(setup, front)[k], Run(setup, es)[k]);
    }
  }

  lemma SameOrderReflexive(a: ManualRecord)
    ensures SameOrder(a, a)
  {
  }

  lemma SameOrderTransitive(a: ManualRecord, b: ManualRecord, c: ManualRecord)
    requires SameOrder(a, b) && SameOrder(b, c)
    ensures SameOrder(a, c)
  {
  }

  /** Receipts track state: a receipt that `charge` returned at any point of a run verifies at
      the end of it if and only if its order is then Paid. */
  lemma ReceiptsTrackState(setup: Setup, es: seq<Event>, n: nat, req: PayRequest, now: U64)
    requires IsRun(es) && n < |es| && es[n] == Charge(req, now)
    requires Charged(setup, Run(setup, es[..n]), req, now).1.Ok?
    ensures var receipt := Charged(setup, Run(setup, es[..n]), req, now).1.value;
            && req.reference in Run(setup, es)
            && (Verified(Run(setup, es), receipt) <==> Run(setup, es)[req.reference].status == Paid)
  {
    hide Trim, Normalize, NewInstructions, IsValidRequest, ToAsciiUppercase;
    var before := Run(setup, es[..n]);
    assert es[..n + 1][..n] == es[..n];
    var after := Run(setup, es[..n + 1]);
    assert after == Step(setup, before, es[n]);
    RunIsSound(setup, es[..n + 1]);
    OrdersAreFixed(setup, es, n + 1, req.reference);
  }

  /** Charging is idempotent: after the first successful charge of a reference, a valid request for it
      changes nothing whatever else it asks for, and is answered with the first request's terms and
      instructions, claiming the first request's amount once the order is Paid and nothing before. */
  lemma RetryRepeatsFirst(setup: Setup, es: seq<Event>, n: nat, req: PayRequest, now: U64, retry: PayRequest, later: U64)
    requires IsRun(es) && n < |es| && es[n] == Charge(req, now) && req.reference !in Run(setup, es[..n])
    requires Charged(setup, Run(setup, es[..n]), req, now).1.Ok?
    requires retry.reference == req.reference && IsValidRequest(retry) && Normalize(setup.table, retry.currency).Ok?
    ensures var rs := Run(setup, es);
            var first, (rs', again) := Charged(setup, Run(setup, es[..n]), req, now).1.value, Charged(setup, rs, retry, later);
            && rs' == rs && req.reference in rs && rs[req.reference].createdAt == now
            && again.Ok? && again.value.proof == first.proof && again.value.currency == first.currency
            && again.value.reference == req.reference && again.value.railId == "manual"
            && again.value.settledAt == rs[req.reference].markedAt
            && again.value.amountMinor == if rs[req.reference].status == Paid then req.amountMinor else 0
  {
    hide Trim, Normalize, NewInstructions, IsValidRequest, ToAsciiUppercase;
    assert es[..n + 1][..n] == es[..n];
    assert Run(setup, es[..n + 1]) == Step(setup, Run(setup, es[..n]), es[n]);
    OrdersAreFixed(setup, es, n + 1, req.reference);
  }

  /** The step at which an order became Paid and from which it has stayed so. */
  ghost predicate MadePaidAt(setup: Setup, es: seq<Event>, k: string, i: nat) {
    && i < |es| && es[i].Mark? && es[i].status == Paid && Trim(es[i].reference) == k
    && k in Run(setup, es[..i]) && Run(setup, es[..i])[k].status != Paid
    && forall j :: i < j <= |es| ==> StillMarkedBy(setup, es[..j], k, Trim(es[i].markedBy), es[i].now)
  }

  ghost predicate StillMarkedBy(setup: Setup, es: seq<Event>, k: string, actor: string, at: U64) {
    var rs := Run(setup, es);
    k in rs && rs[k].status == Paid && rs[k].markedBy == actor && rs[k].markedAt == at
  }

  /** Attribution: a Paid order names the operator and the time of the mark that made it Paid,
      and has done so ever since that mark. */
  lemma {:induction false} PaidIsAttributed(setup: Setup, es: seq<Event>, k: string) returns (i: nat)
    requires IsRun(es) && k in Run(setup, es) && Run(setup, es)[k].status == Paid
    ensures MadePaidAt(setup, es, k, i)
    ensures Run(setup, es)[k].markedBy == Trim(es[i].markedBy) && Run(setup, es)[k].markedAt == es[i].now
    decreases |es|
  {
    hide Trim, Normalize, NewInstructions, IsValidRequest;
    var n := |es| - 1;
    var front := es[..n];
    var before := Run(setup, front);
    assert es[..|es|] == es;
    assert Run(setup, es) == Step(setup, before, es[n]);
    if k in before && before[k].status == Paid {
      i := PaidIsAttributed(setup, front, k);
      assert front[..i] == es[..i];
      hide Step, Run;
      StepKeepsOrders(setup, before, es[n], k);
      assert front[..n] == front;
      forall j | i < j <= |es|
        ensures StillMarkedBy(setup, es[..j], k, Trim(es[i].markedBy), es[i].now)
      {
        if j < |es| {
          assert es[..j] == front[..j];
          assert StillMarkedBy(setup, front[..j], k, Trim(front[i].markedBy), front[i].now);
        } else {
          assert es[..j] == es;
        }
      }
    } else {
      i := n;
    }
  }

  /** A mark that is not refused for want of a reference or an actor. */
  predicate MarksOrder(e: Event, k: string) {
    e.Mark? && Trim(e.reference) == k && Trim(e.markedBy) != ""
  }

  predicate FailsOrder(e: Event, k: string) {
    MarksOrder(e, k) && e.status == Failed
  }

  /** Step `i` is a mark that makes the order Paid. */
  ghost predicate PaysOrder(setup: Setup, es: seq<Event>, k: string, i: nat) {
    && i < |es| && MarksOrder(es[i], k) && es[i].status == Paid
    && k in Run(setup, es[..i]) && Run(setup, es[..i])[k].status != Paid
  }

  /** One step takes a Paid order to Failed if it is an effective failure, and else leaves it alone. */
  lemma PaidOrderStep(setup: Setup, rs: Records, e: Event, k: string)
    requires k in rs && k != "" && rs[k].status == Paid && IsOperation(e)
    ensures k in Step(setup, rs, e)
    ensures if FailsOrder(e, k) then Step(setup, rs, e)[k].status == Failed else Step(setup, rs, e)[k] == rs[k]
  {
    hide Trim, Normalize, NewInstructions, IsValidRequest;
  }

  /** The record names this operator and time after each of the first `i + 1` to `n` steps. */
  ghost predicate NamedThroughout(setup: Setup, es: seq<Event>, k: string, actor: string, at: U64, i: nat, n: nat)
    requires n <= |es|
  {
    forall j :: i < j <= n ==> StillMarkedBy(setup, es[..j], k, actor, at)
  }

  /** From the mark that made an order Paid, the record names its operator and time exactly until the
      next effective `mark_failed`. */
  lemma MarkerLastsIff(setup: Setup, es: seq<Event>, k: string, i: nat, n: nat)
    requires IsRun(es) && PaysOrder(setup, es, k, i) && i < n <= |es|
    ensures NamedThroughout(setup, es, k, Trim(es[i].markedBy), es[i].now, i, n) <==>
            (forall j :: i < j < n ==> !FailsOrder(es[j], k))
  {
    ReachableReference(setup, es[..i], k);
    MarkerStart(setup, es, k, i);
    hide Trim, Run, StillMarkedBy, MarksOrder, IsOperation;
    NamedIff(setup, es, k, Trim(es[i].markedBy), es[i].now, i, n);
  }

  lemma {:induction false} NamedIff(setup: Setup, es: seq<Event>, k: string, actor: string, at: U64, i: nat, n: nat)
    requires IsRun(es) && i < n <= |es| && k != ""
    requires StillMarkedBy(setup, es[..i + 1], k, actor, at)
    ensures NamedThroughout(setup, es, k, actor, at, i, n) <==> (forall j :: i < j < n ==> !FailsOrder(es[j], k))
    decreases n
  {
    hide Run, StillMarkedBy, FailsOrder, IsRun;
    if n > i + 1 {
      NamedIff(setup, es, k, actor, at, i, n - 1);
      assert NamedThroughout(setup, es, k, actor, at, i, n) <==>
             NamedThroughout(setup, es, k, actor, at, i, n - 1) && StillMarkedBy(setup, es[..n], k, actor, at);
      if NamedThroughout(setup, es, k, actor, at, i, n - 1) {
        assert StillMarkedBy(setup, es[..n - 1], k, actor, at);
        MarkerStep(setup, es, k, actor, at, n - 1);
      }
    }
  }

  lemma MarkerStart(setup: Setup, es: seq<Event>, k: string, i: nat)
    requires PaysOrder(setup, es, k, i) && k != ""
    ensures StillMarkedBy(setup, es[..i + 1], k, Trim(es[i].markedBy), es[i].now)
  {
    assert es[..i + 1][..i] == es[..i];
    assert Run(setup, es[..i + 1]) == Step(setup, Run(setup, es[..i]), es[i]);
    hide Trim, Run, Step;
    PayingStep(setup, Run(setup, es[..i]), es[i], k);
  }

  lemma MarkerStep(setup: Setup, es: seq<Event>, k: string, actor: string, at: U64, n: nat)
    requires IsRun(es) && n < |es| && k != "" && StillMarkedBy(setup, es[..n], k, actor, at)
    ensures StillMarkedBy(setup, es[..n + 1], k, actor, at) <==> !FailsOrder(es[n], k)
  {
    assert es[..n + 1][..n] == es[..n];
    assert Run(setup, es[..n + 1]) == Step(setup, Run(setup, es[..n]), es[n]);
    hide Trim, Run, Step, FailsOrder;
    PaidOrderStep(setup, Run(setup, es[..n]), es[n], k);
  }

  lemma ReachableReference(setup: Setup, es: seq<Event>, k: string)
    requires IsRun(es) && k in Run(setup, es)
    ensures k != ""
  {
    hide Run;
    RunIsSound(setup, es);
    assert Trim("") == "";
  }

  lemma PayingStep(setup: Setup, rs: Records, e: Event, k: string)
    requires k in rs && k != "" && rs[k].status != Paid && MarksOrder(e, k) && e.status == Paid
    ensures var rec := Step(setup, rs, e)[k];
            k in Step(setup, rs, e) && rec.status == Paid && rec.markedBy == Trim(e.markedBy) && rec.markedAt == e.now
  {
    hide Trim;
  }

  /** A Failed order names the operator and time of the last effective mark it received. */
  lemma {:induction false} FailedIsAttributed(setup: Setup, es: seq<Event>, k: string) returns (i: nat)
    requires IsRun(es) && k in Run(setup, es) && Run(setup, es)[k].status == Failed
    ensures i < |es| && FailsOrder(es[i], k)
    ensures Run(setup, es)[k].markedBy == Trim(es[i].markedBy) && Run(setup, es)[k].markedAt == es[i].now
    ensures forall j :: i < j < |es| ==> !MarksOrder(es[j], k)
    decreases |es|
  {
    var n := |es| - 1;
    var front := es[..n];
    LastStep(setup, es);
    ReachableReference(setup, es, k);
    hide Trim, Run, Step, MarksOrder, IsRun, Sound, Recorded;
    if FailsOrder(es[n], k) {
      FailingStep(setup, Run(setup, front), es[n], k);
      i := n;
    } else {
      StillFailed(setup, Run(setup, front), es[n], k);
      hide FailsOrder;
      i := FailedIsAttributed(setup, front, k);
      assert front[i] == es[i];
      assert forall j :: i < j < n ==> front[j] == es[j];
    }
  }

  lemma LastStep(setup: Setup, es: seq<Event>)
    requires IsRun(es)
    ensures es == [] ==> Run(setup, es) == map[]
    ensures es != [] ==> var front, last := es[..|es| - 1], es[|es| - 1];
      IsRun(front) && IsOperation(last) && Run(setup, es) == Step(setup, Run(setup, front), last)
  {
    hide Step, IsOperation;
  }

  lemma FailingStep(setup: Setup, rs: Records, e: Event, k: string)
    requires k != "" && FailsOrder(e, k) && k in Step(setup, rs, e)
    ensures Step(setup, rs, e)[k].markedBy == Trim(e.markedBy) && Step(setup, rs, e)[k].markedAt == e.now
  {
    hide Trim;
  }

  lemma StillFailed(setup: Setup, rs: Records, e: Event, k: string)
    requires k != "" && IsOperation(e) && !FailsOrder(e, k)
    requires k in Step(setup, rs, e) && Step(setup, rs, e)[k].status == Failed
    ensures k in rs && rs[k] == Step(setup, rs, e)[k] && !MarksOrder(e, k)
  {
    hide Trim, Normalize, NewInstructions, IsValidRequest;
  }

  // ------------------------------------------------------------ records from events alone

  /** A request that begins an order with this currency and these instructions. */
  ghost predicate Begins(setup: Setup, req: PayRequest, currency: string, text: string) {
    && req.amountMinor != 0 && !IsBlank(req.currency) && !IsBlank(req.destination) && !IsBlank(req.reference)
    && IsCode(currency) && currency in setup.table
    && (exists t :: IsTrimmedFrom(req.currency, t) && SameInAnyCase(t, currency))
    && setup.instructions(req.(currency := currency)) == Some(text) && !IsBlank(text)
  }

  ghost predicate CanBegin(setup: Setup, req: PayRequest) {
    exists currency, text :: Begins(setup, req, currency, text)
  }

  /** A new reference is filed if and only if its request can begin an order, and then the record and
      the receipt say what was asked for, in the table's currency code. */
  lemma NewOrderIff(setup: Setup, rs: Records, req: PayRequest, now: U64, currency: string, text: string)
    requires req.reference !in rs
    ensures var (rs', r) := Charged(setup, rs, req, now);
            && (Begins(setup, req, currency, text) <==>
                 && r == Ok(Receipt("manual", 0, currency, req.reference, text, 0))
                 && rs' == rs[req.reference := ManualRecord(req.reference, req.amountMinor, currency, Pending, text, now, "", 0)])
            && (r.Err? <==> !CanBegin(setup, req)) && (r.Err? ==> rs' == rs)
  {
    hide Trim, Normalize, IsValidRequest, IsBlank, IsTrimmedFrom, IsCode, SameInAnyCase;
    ValidIff(req);
    NormalizeIff(setup.table, req.currency, currency);
    var c := Normalize(setup.table, req.currency);
    if c.Ok? {
      NormalizeIff(setup.table, req.currency, c.value);
      var answer := setup.instructions(req.(currency := c.value));
      if answer.Some? {
        BlankIff(answer.value);
        if IsValidRequest(req) && !IsBlank(answer.value) {
          assert Begins(setup, req, c.value, answer.value);
        }
      }
    }
    forall currency', text' | Begins(setup, req, currency', text')
      ensures c == Ok(currency')
    {
      NormalizeIff(setup.table, req.currency, currency');
    }
  }

  /** Step `n` is the first charge of a reference that could begin an order. */
  ghost predicate Files(setup: Setup, es: seq<Event>, k: string, n: nat) {
    && n < |es| && es[n].Charge? && es[n].req.reference == k && CanBegin(setup, es[n].req)
    && forall j :: 0 <= j < n && es[j].Charge? && es[j].req.reference == k ==> !CanBegin(setup, es[j].req)
  }

  /** The record was begun by this request at this time. */
  ghost predicate BegunBy(setup: Setup, rec: ManualRecord, req: PayRequest, now: U64) {
    && rec.reference == req.reference && rec.amountMinor == req.amountMinor && rec.createdAt == now
    && Begins(setup, req, rec.currency, rec.instructions)
  }

  lemma ChargeOfOther(setup: Setup, rs: Records, e: Event, k: string)
    requires e.Mark? || e.req.reference != k
    ensures k in Step(setup, rs, e) <==> k in rs
  {
    hide Trim, Normalize, NewInstructions, IsValidRequest;
  }

  lemma BegunStep(setup: Setup, rs: Records, e: Event)
    requires e.Charge? && e.req.reference !in rs
    ensures e.req.reference in Step(setup, rs, e) <==> CanBegin(setup, e.req)
    ensures CanBegin(setup, e.req) ==> BegunBy(setup, Step(setup, rs, e)[e.req.reference], e.req, e.now)
  {
    hide Begins, Charged;
    NewOrderIff(setup, rs, e.req, e.now, "", "");
    if CanBegin(setup, e.req) {
      var currency, text :| Begins(setup, e.req, currency, text);
      NewOrderIff(setup, rs, e.req, e.now, currency, text);
    }
  }

  lemma {:induction false} Unfiled(setup: Setup, es: seq<Event>, k: string)
    requires IsRun(es) && k !in Run(setup, es)
    ensures forall j :: 0 <= j < |es| && es[j].Charge? && es[j].req.reference == k ==> !CanBegin(setup, es[j].req)
    decreases |es|
  {
    LastStep(setup, es);
    hide Run, Step, CanBegin, IsRun, IsOperation;
    if es != [] {
      var front, e := es[..|es| - 1], es[|es| - 1];
      if k in Run(setup, front) {
        StepKeepsOrders(setup, Run(setup, front), e, k);
      }
      Unfiled(setup, front, k);
      if e.Charge? && e.req.reference == k {
        BegunStep(setup, Run(setup, front), e);
      }
      assert forall j :: 0 <= j < |front| ==> front[j] == es[j];
    }
  }

  lemma {:induction false} FiledBy(setup: Setup, es: seq<Event>, k: string) returns (n: nat)
    requires IsRun(es) && k in Run(setup, es)
    ensures Files(setup, es, k, n) && BegunBy(setup, Run(setup, es)[k], es[n].req, es[n].now)
    decreases |es|
  {
    LastStep(setup, es);
    hide Run, Step, CanBegin, BegunBy, IsRun;
    var front, e := es[..|es| - 1], es[|es| - 1];
    if k in Run(setup, front) {
      n := FiledBy(setup, front, k);
      StepKeepsOrders(setup, Run(setup, front), e, k);
      BegunByOrder(setup, Run(setup, front)[k], Run(setup, es)[k], es[n].req, es[n].now);
      FilesLonger(setup, es, k, n);
    } else {
      n := |es| - 1;
      Unfiled(setup, front, k);
      if e.Mark? || e.req.reference != k {
        ChargeOfOther(setup, Run(setup, front), e, k);
      } else {
        BegunStep(setup, Run(setup, front), e);
      }
      assert forall j :: 0 <= j < |front| ==> front[j] == es[j];
    }
  }

  lemma BegunByOrder(setup: Setup, a: ManualRecord, b: ManualRecord, req: PayRequest, now: U64)
    requires SameOrder(a, b) && BegunBy(setup, a, req, now)
    ensures BegunBy(setup, b, req, now)
  {
    hide Begins;
  }

  lemma FilesLonger(setup: Setup, es: seq<Event>, k: string, n: nat)
    requires n + 1 < |es|
    ensures Files(setup, es[..|es| - 1], k, n) <==> Files(setup, es, k, n)
  {
    hide CanBegin;
    var front := es[..|es| - 1];
    assert forall j :: 0 <= j < |front| ==> front[j] == es[j];
  }

  /** An order exists after a run if and only if some step of the run files it; that step is unique, and
      the record is what it began. */
  lemma FiledIff(setup: Setup, es: seq<Event>, k: string)
    requires IsRun(es)
    ensures k in Run(setup, es) <==> exists n: nat :: Files(setup, es, k, n)
    ensures forall n: nat :: Files(setup, es, k, n) ==> k in Run(setup, es) && BegunBy(setup, Run(setup, es)[k], es[n].req, es[n].now)
    ensures forall m: nat, n: nat :: Files(setup, es, k, m) && Files(setup, es, k, n) ==> m == n
  {
    hide Run, CanBegin, BegunBy, IsRun;
    if k in Run(setup, es) {
      var n := FiledBy(setup, es, k);
    } else {
      Unfiled(setup, es, k);
    }
  }

  /** An effective mark as paid after step `n`, and no effective mark as failed after it. */
  ghost predicate PaidSince(es: seq<Event>, k: string, n: nat) {
    exists i: nat :: n < i < |es| && PaidFrom(es, k, i)
  }

  predicate MarksPaid(e: Event, k: string) {
    MarksOrder(e, k) && e.status == Paid
  }

  ghost predicate PaidFrom(es: seq<Event>, k: string, i: nat) {
    && i < |es| && MarksPaid(es[i], k)
    && forall j :: i < j < |es| ==> !FailsOrder(es[j], k)
  }

  lemma PaidSinceStep(es: seq<Event>, k: string, n: nat)
    requires n + 1 < |es|
    ensures var e := es[|es| - 1];
            PaidSince(es, k, n) <==> MarksPaid(e, k) || (!FailsOrder(e, k) && PaidSince(es[..|es| - 1], k, n))
  {
    hide MarksPaid, FailsOrder;
    var front, last := es[..|es| - 1], |es| - 1;
    assert forall j :: 0 <= j < |front| ==> front[j] == es[j];
    if MarksPaid(es[last], k) {
      assert PaidFrom(es, k, last);
    } else if !FailsOrder(es[last], k) && PaidSince(front, k, n) {
      var i: nat :| n < i < |front| && PaidFrom(front, k, i);
      assert PaidFrom(es, k, i);
    }
    if PaidSince(es, k, n) {
      var i: nat :| n < i < |es| && PaidFrom(es, k, i);
      if i < last {
        assert PaidFrom(front, k, i);
      }
    }
  }

  lemma StatusStep(setup: Setup, rs: Records, e: Event, k: string)
    requires k in rs && k != "" && IsOperation(e)
    ensures k in Step(setup, rs, e)
    ensures Step(setup, rs, e)[k].status == Paid <==>
            MarksPaid(e, k) || (!FailsOrder(e, k) && rs[k].status == Paid)
  {
    hide Trim, Normalize, NewInstructions, IsValidRequest;
  }

  /** An order is Paid after a run if and only if it was effectively marked paid after it was filed, and
      not effectively marked failed since. */
  lemma {:induction false} PaidIff(setup: Setup, es: seq<Event>, k: string, n: nat)
    requires IsRun(es) && Files(setup, es, k, n)
    ensures k in Run(setup, es)
    ensures Run(setup, es)[k].status == Paid <==> PaidSince(es, k, n)
    decreases |es|
  {
    FiledIff(setup, es, k);
    LastStep(setup, es);
    var front, e := es[..|es| - 1], es[|es| - 1];
    FiledIff(setup, front, k);
    if n == |es| - 1 {
      NotFiledBefore(setup, es, k, n);
      hide Run, CanBegin, BegunBy;
      FreshIsPending(setup, Run(setup, front), e);
    } else {
      FilesLonger(setup, es, k, n);
      hide Run, CanBegin, BegunBy, Files, MarksPaid, FailsOrder, IsRun;
      PaidIff(setup, front, k, n);
      ReachableReference(setup, front, k);
      StatusStep(setup, Run(setup, front), e, k);
      PaidSinceStep(es, k, n);
    }
  }

  lemma NotFiledBefore(setup: Setup, es: seq<Event>, k: string, n: nat)
    requires Files(setup, es, k, n) && n + 1 == |es|
    ensures forall m: nat :: !Files(setup, es[..n], k, m)
  {
    hide CanBegin;
    assert forall j :: 0 <= j < n ==> es[..n][j] == es[j];
  }

  lemma FreshIsPending(setup: Setup, rs: Records, e: Event)
    requires e.Charge? && e.req.reference !in rs && e.req.reference in Step(setup, rs, e)
    ensures Step(setup, rs, e)[e.req.reference].status == Pending
  {
    hide Trim, Normalize, NewInstructions, IsValidRequest;
  }

  /** Any receipt at all, issued or not, verifies after a run if and only if it names this rail, some
      step of the run filed its reference, the order has been marked paid since and not failed, it
      claims no more than that step asked for, and it names that step's currency in some letter case. */
  lemma VerifiesIff(setup: Setup, es: seq<Event>, r: ManualReceipt)
    requires IsRun(es)
    ensures Verified(Run(setup, es), r) <==>
            r.railId == "manual" && exists n: nat :: FilesFor(setup, es, r, n) && PaidSince(es, r.reference, n)
  {
    var k := r.reference;
    FiledIff(setup, es, k);
    if k in Run(setup, es) {
      var n := FiledBy(setup, es, k);
      var rec := Run(setup, es)[k];
      PaidIff(setup, es, k, n);
      ClaimsIff(setup, es[n], rec, r);
      UppercaseIff(rec.currency, r.currency);
      hide Run, CanBegin, PaidSince, BegunBy, Claims, SameInAnyCase, ToAsciiUppercase, IsRun;
      assert Verified(Run(setup, es), r) <==> r.railId == "manual" && PaidSince(es, k, n) && Claims(setup, es[n].req, r);
      assert FilesFor(setup, es, r, n) <==> Claims(setup, es[n].req, r);
    }
  }

  /** Step `n` files the reference of the receipt, which claims no more than that step asked for. */
  ghost predicate FilesFor(setup: Setup, es: seq<Event>, r: ManualReceipt, n: nat) {
    Files(setup, es, r.reference, n) && Claims(setup, es[n].req, r)
  }

  /** A receipt claims no more than the request, in its currency. */
  ghost predicate Claims(setup: Setup, req: PayRequest, r: ManualReceipt) {
    && r.amountMinor <= req.amountMinor
    && exists currency, text :: Begins(setup, req, currency, text) && SameInAnyCase(currency, r.currency)
  }

  lemma ClaimsIff(setup: Setup, e: Event, rec: ManualRecord, r: ManualReceipt)
    requires e.Charge? && BegunBy(setup, rec, e.req, e.now)
    ensures Claims(setup, e.req, r) <==> r.amountMinor <= rec.amountMinor && SameInAnyCase(rec.currency, r.currency)
  {
    forall currency, text | Begins(setup, e.req, currency, text)
      ensures currency == rec.currency
    {
      NormalizeIff(setup.table, e.req.currency, currency);
      NormalizeIff(setup.table, e.req.currency, rec.currency);
    }
    hide Begins, SameInAnyCase;
  }

  // ------------------------------------------------------------ answers and refusals

  /** Which refusal `charge` gives, and when: first the request, then its currency, and only for a new
      reference the instructions. */
  lemma ChargeRefusals(setup: Setup, rs: Records, req: PayRequest, now: U64)
    ensures var r := Charged(setup, rs, req, now).1;
            var asked := req.amountMinor != 0 && !IsBlank(req.currency) && !IsBlank(req.destination) && !IsBlank(req.reference);
            var code := Normalize(setup.table, req.currency);
            && (r == Err(InvalidRequest) <==> !asked)
            && ((r.Err? && r.error.BadCurrency?) <==> asked && code.Err?)
            && ((r.Err? && r.error == InstructionsFailed) <==>
                 asked && code.Ok? && req.reference !in rs && setup.instructions(req.(currency := code.value)) == None)
            && ((r.Err? && r.error == EmptyInstructions) <==>
                 asked && code.Ok? && req.reference !in rs
                 && exists text :: setup.instructions(req.(currency := code.value)) == Some(text) && IsBlank(text))
  {
    hide Trim, Normalize, IsValidRequest, IsBlank;
    ValidIff(req);
    var code := Normalize(setup.table, req.currency);
    if code.Ok? && setup.instructions(req.(currency := code.value)).Some? {
      BlankIff(setup.instructions(req.(currency := code.value)).value);
    }
  }

  /** What `mark` answers and what it changes, for the reference and the operator left after trimming. */
  lemma MarkAnswers(rs: Records, reference: string, markedBy: string, status: ManualStatus, now: U64, k: string, actor: string)
    requires IsTrimmedFrom(reference, k) && IsTrimmedFrom(markedBy, actor)
    ensures var (rs', r) := Marked(rs, reference, markedBy, status, now);
            && (r == Err(MissingReference) <==> k == "")
            && (r == Err(MissingActor) <==> k != "" && actor == "")
            && (r == Err(UnknownReference) <==> k != "" && actor != "" && k !in rs)
            && (r.Err? ==> rs' == rs)
    ensures var (rs', r) := Marked(rs, reference, markedBy, status, now);
            r.Ok? ==> (&& k in rs && rs'.Keys == rs.Keys && r.value == rs'[k]
                       && (forall o :: o in rs && o != k ==> rs'[o] == rs[o])
                       && (rs'[k] == if status == Paid && rs[k].status == Paid then rs[k]
                                    else rs[k].(status := status, markedBy := actor, markedAt := now)))
  {
    TrimIff(reference, k);
    TrimIff(markedBy, actor);
    hide Trim, IsTrimmedFrom;
  }

  // ------------------------------------------------------------ what an operator can look up

  /** `record` only ever answers with an order filed under the trimmed reference it was asked for. */
  lemma RecordFinds(setup: Setup, es: seq<Event>, reference: string)
    requires IsRun(es) && Recorded(Run(setup, es), reference).Some?
    ensures var rec := Recorded(Run(setup, es), reference).value;
            rec.reference == Trim(reference) && Trim(rec.reference) == rec.reference
  {
    hide Run, Trim;
    RunIsSound(setup, es);
    TrimIdempotent(reference);
  }

  /** An order can be looked up, by some text, if and only if its reference has no surrounding
      whitespace: `charge` files it untrimmed while `record` looks it up trimmed. */
  lemma RecordableIff(setup: Setup, es: seq<Event>, k: string)
    requires IsRun(es) && k in Run(setup, es)
    ensures (exists reference: string :: Recorded(Run(setup, es), reference) == Some(Run(setup, es)[k])) <==> Trim(k) == k
  {
    hide Run, Trim;
    RunIsSound(setup, es);
    if Trim(k) == k {
      assert Recorded(Run(setup, es), k) == Some(Run(setup, es)[k]);
    }
    forall reference: string | Recorded(Run(setup, es), reference) == Some(Run(setup, es)[k])
      ensures Trim(k) == k
    {
      RecordFinds(setup, es, reference);
    }
  }

  // ------------------------------------------------------------ where the documentation overstates

  /** Marking an existing order paid leaves its marker and time alone if and only if it is already
      Paid at that moment, or the mark repeats them. */
  lemma RemarkKeepsMarkerIff(rs: Records, reference: string, markedBy: string, now: U64)
    requires Trim(reference) in rs && Trim(reference) != "" && Trim(markedBy) != ""
    ensures var was := rs[Trim(reference)];
            var next := Marked(rs, reference, markedBy, Paid, now).0[Trim(reference)];
            next.markedBy == was.markedBy && next.markedAt == was.markedAt <==>
            was.status == Paid || (was.markedBy == Trim(markedBy) && was.markedAt == now)
  {
  }

  /** So the first mark is not what the trail reflects once an order has been failed in between:
      paid by one operator, failed by a second, paid by a third, it names the third. */
  lemma FailedThenPaidForgetsFirst(rs: Records, k: string, a: string, b: string, c: string, t: U64, u: U64, v: U64)
    requires k in rs && Trim(k) == k && k != "" && rs[k].status == Pending
    requires Trim(a) != "" && Trim(b) != "" && Trim(c) != ""
    ensures var r1 := Marked(rs, k, a, Paid, t).0;
            var r2 := Marked(r1, k, b, Failed, u).0;
            var r3 := Marked(r2, k, c, Paid, v).0;
            && r1[k].markedBy == Trim(a)
            && r3[k].status == Paid && r3[k].markedBy == Trim(c) && r3[k].markedAt == v
  {
  }

  /** Marking failed is not idempotent, unlike marking paid: a second failure replaces the marker. */
  lemma RefailReplacesMarker(rs: Records, k: string, a: string, now: U64)
    requires k in rs && Trim(k) == k && k != "" && rs[k].status == Failed && Trim(a) != ""
    ensures var next := Marked(rs, k, a, Failed, now).0[k];
            next.status == Failed && next.markedBy == Trim(a) && next.markedAt == now
  {
  }

  /** A reachable, unpaid order can be marked paid if and only if its reference has no surrounding
      whitespace: `charge` files it untrimmed while `mark` looks it up trimmed. */
  lemma MarkableIff(setup: Setup, es: seq<Event>, k: string)
    requires IsRun(es) && k in Run(setup, es) && Run(setup, es)[k].status != Paid
    ensures Trim(k) == k <==>
            exists reference: string, actor: string, now: U64 ::
              Marked(Run(setup, es), reference, actor, Paid, now).0[k].status == Paid
  {
    hide Run;
    var rs := Run(setup, es);
    RunIsSound(setup, es);
    if Trim(k) == k {
      assert Trim("op") == "op" by {
        TrimFixed("op");
      }
      hide Trim;
      assert Marked(rs, k, "op", Paid, 0).0[k].status == Paid;
    } else {
      forall reference: string, actor: string, now: U64
        ensures k in Marked(rs, reference, actor, Paid, now).0
        ensures Marked(rs, reference, actor, Paid, now).0[k].status != Paid
      {
        TrimIdempotent(reference);
      }
    }
  }

  function DeskSetup(): Setup {
    Setup(map["USD" := 2], (req: PayRequest) => Some("pay at the desk"))
  }

  /** Begun with a space before its reference. */
  function SpacedOrder(): Event {
    Charge(PayRequest(1, "USD", "d", " a"), 0)
  }

  /** Such an order exists: it is still Pending and cannot be looked up after any further run. */
  lemma UnmarkableOrder(more: seq<Event>)
    requires IsRun(more)
    ensures var rs := Run(DeskSetup(), [SpacedOrder()] + more);
            && " a" in rs && rs[" a"].status == Pending
            && forall reference: string :: Recorded(rs, reference) != Some(rs[" a"])
  {
    SpacedCharge();
    hide Step, Run, Trim, DeskSetup, Recorded;
    FirstChargeFiles(DeskSetup(), SpacedOrder(), more, " a");
    NeverMarked(DeskSetup(), [SpacedOrder()] + more, " a");
  }

  lemma FirstChargeFiles(setup: Setup, first: Event, more: seq<Event>, k: string)
    requires IsRun([first] + more) && k in Step(setup, map[], first)
    ensures k in Run(setup, [first] + more)
  {
    hide Step;
    var es := [first] + more;
    assert es[..1] == [first] && [first][..0] == [];
    assert Run(setup, [first]) == Step(setup, Run(setup, []), first);
    OrdersAreFixed(setup, es, 1, k);
  }

  lemma NeverMarked(setup: Setup, es: seq<Event>, k: string)
    requires IsRun(es) && k in Run(setup, es) && Trim(k) != k
    ensures Run(setup, es)[k].status == Pending
    ensures forall reference: string :: Recorded(Run(setup, es), reference) != Some(Run(setup, es)[k])
  {
    hide Run, Trim;
    RunIsSound(setup, es);
    RecordableIff(setup, es, k);
  }

  lemma SpacedCharge()
    ensures " a" in Step(DeskSetup(), map[], SpacedOrder()) && Trim(" a") != " a"
  {
    var setup, req := DeskSetup(), SpacedOrder().req;
    TrimFixed("USD");
    TrimFixed("d");
    TrimFixed(" a");
    TrimFixed("pay at the desk");
    SpacedIsNotBlank();
    assert ToAsciiUppercase("USD") == "USD";
    AsciiByteLen("USD");
    hide Trim, ByteLen, ToAsciiUppercase;
    assert Normalize(setup.table, "USD") == Ok("USD");
    assert req.(currency := "USD") == req;
  }

  lemma SpacedIsNotBlank()
    ensures Trim(" a") != ""
  {
    assert " a"[1..] == "a";
    assert TrimStart(" a") == "a";
  }
}
