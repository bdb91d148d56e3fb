/** The handle registry of the C interface (`patala-ffi/src/lib.rs`): an atomic counter, a locked
    map from handles to rails, and calls that keep their own rail. Every lock region and every
    atomic instruction is one step, and any interleaving of steps is a run. */
module Handles {
  import opened Prelude

  /** A call on a handle: refused by `lookup`, queued on its rail's runtime, inside it, or over. */
  datatype Call = Missed | Waiting(rail: nat) | Running(rail: nat) | Done(rail: nat)

  /** `next` and `live` are the program's; the rest is what its threads hold. Rails are numbered in
      the order of their counter steps, so `taken[i]` is the handle rail `i` fetched; `opening` maps
      a thread between its counter step and its insertion to its rail; `inserted` lists the rails
      whose `open` has gone through. */
  datatype State = State(
    next: U64, live: map<U64, nat>,
    taken: seq<U64>, opening: map<nat, nat>, inserted: seq<nat>, calls: map<nat, Call>)

  datatype Event =
    | Bump(thread: nat) | Insert(thread: nat) | Close(handle: U64)
    | Lookup(call: nat, handle: U64) | Acquire(call: nat) | Finish(call: nat)

  const INITIAL := State(1, map[], [], map[], [], map[])

  /** `fetch_add(1)` wraps. */
  function Successor(n: U64): U64 {
    (n + 1) % U64_BOUND
  }

  predicate Busy(s: State, rail: nat) {
    exists c :: c in s.calls && s.calls[c] == Running(rail)
  }

  function SetCall(s: State, c: nat, call: Call): State {
    s.(calls := s.calls[c := call])
  }

  /** One atomic step; a step its thread is not ready for leaves everything as it is. */
  function Step(s: State, e: Event): State {
    match e
    case Bump(t) =>
      if t in s.opening then s
      else s.(next := Successor(s.next), taken := s.taken + [s.next], opening := s.opening[t := |s.taken|])
    case Insert(t) =>
      if t !in s.opening || s.opening[t] >= |s.taken| then s
      else
        var rail := s.opening[t];
        s.(live := s.live[s.taken[rail] := rail], inserted := s.inserted + [rail], opening := s.opening - {t})
    case Close(h) => s.(live := s.live - {h})
    case Lookup(c, h) =>
      if c in s.calls then s
      else SetCall(s, c, if h in s.live then Waiting(s.live[h]) else Missed)
    case Acquire(c) =>
      if c in s.calls && s.calls[c].Waiting? && !Busy(s, s.calls[c].rail)
      then SetCall(s, c, Running(s.calls[c].rail)) else s
    case Finish(c) =>
      if c in s.calls && s.calls[c].Running? then SetCall(s, c, Done(s.calls[c].rail)) else s
  }

  function Run(s: State, es: seq<Event>): State
    decreases |es|
  {
    if es == [] then s else Run(Step(s, es[0]), es[1..])
  }

  lemma RunTwo(s: State, e: Event, f: Event)
    ensures Run(s, [e, f]) == Step(Step(s, e), f)
  {
    hide Step;
    assert [e, f][1..] == [f];
    assert Run(Step(s, e), [f]) == Run(Step(Step(s, e), f), []);
  }

  // ------------------------------------------------------------ the registry itself

  /** The process-wide registry. The ghost state is the run it has been through. */
  class Registry {
    var nextHandle: U64
    var instances: map<U64, nat>
    ghost var state: State

    ghost predicate Valid()
      reads this
    {
      Good(state) && state.next == nextHandle && state.live == instances
    }

    constructor ()
      ensures Valid() && state == INITIAL
    {
      nextHandle := 1;
      instances := map[];
      state := INITIAL;
    }

    /** The counter step of `open`. */
    method FetchAdd(ghost thread: nat) returns (handle: U64)
      requires Valid() && thread !in state.opening
      modifies this
      ensures Valid() && state == Step(old(state), Bump(thread))
      ensures handle == HandleOf(|old(state).taken|)
      ensures instances == old(instances)
    {
      BumpKeepsGood(state, thread);
      state := Step(state, Bump(thread));
      handle := nextHandle;
      nextHandle := (nextHandle + 1) % U64_BOUND;
    }

    /** The insertion step of `open`; other threads' steps may lie between it and the counter's. */
    method InsertAt(ghost thread: nat, handle: U64, rail: nat)
      requires Valid() && thread in state.opening && state.opening[thread] == rail
      requires handle == HandleOf(rail)
      modifies this
      ensures Valid() && state == Step(old(state), Insert(thread))
      ensures nextHandle == old(nextHandle) && instances == old(instances)[handle := rail]
    {
      InsertKeepsGood(state, thread);
      state := Step(state, Insert(thread));
      instances := instances[handle := rail];
    }

    /** `open` with no other thread in between; `refusal` is a configuration the rail or the runtime
        could not be built from, and then no handle is used up. */
    method Open(refusal: Option<string>, ghost thread: nat, rail: nat) returns (r: Result<U64, string>)
      requires Valid() && thread !in state.opening && rail == |state.taken|
      modifies this
      ensures Valid()
      ensures refusal.Some? ==> r == Err(refusal.value) && state == old(state)
      ensures refusal.None? ==> r == Ok(HandleOf(rail)) && state == Run(old(state), [Bump(thread), Insert(thread)])
      ensures refusal.None? ==> instances == old(instances)[HandleOf(rail) := rail]
    {
      if refusal.Some? {
        return Err(refusal.value);
      }
      RunTwo(state, Bump(thread), Insert(thread));
      var handle := FetchAdd(thread);
      InsertAt(thread, handle, rail);
      return Ok(handle);
    }

    /** `close`: an unknown handle is a no-op. */
    method CloseHandle(handle: U64)
      requires Valid()
      modifies this
      ensures Valid() && state == Step(old(state), Close(handle))
      ensures handle !in instances && nextHandle == old(nextHandle)
      ensures forall h :: h != handle ==> (h in instances <==> h in old(instances))
      ensures forall h :: h != handle && h in instances ==> instances[h] == old(instances)[h]
    {
      CloseKeepsGood(state, handle);
      state := Step(state, Close(handle));
      instances := instances - {handle};
    }

    /** `lookup`: a known handle gives the very rail that fetched it. */
    method Find(handle: U64) returns (r: Option<nat>)
      requires Valid()
      ensures r.Some? <==> handle in state.live
      ensures r.Some? ==> r.value in state.inserted && HandleOf(r.value) == handle
    {
      if handle in instances {
        return Some(instances[handle]);
      }
      return None;
    }
  }

  // ------------------------------------------------------------ what every step keeps

  function HandleOf(rail: nat): U64 {
    (rail + 1) % U64_BOUND
  }

  predicate Distinct<T(==)>(xs: seq<T>) {
    forall j, k :: 0 <= j < k < |xs| ==> xs[j] != xs[k]
  }

  predicate CounterGood(s: State) {
    && s.next == HandleOf(|s.taken|)
    && forall i :: 0 <= i < |s.taken| ==> s.taken[i] == HandleOf(i)
  }

  /** Every rail is being opened by one thread or was inserted once, never both. */
  predicate OpeningGood(s: State) {
    && (forall t :: t in s.opening ==> s.opening[t] < |s.taken| && s.opening[t] !in s.inserted)
    && (forall t, u :: t in s.opening && u in s.opening && t != u ==> s.opening[t] != s.opening[u])
    && (forall i :: i in s.inserted ==> i < |s.taken|)
    && Distinct(s.inserted)
  }

  predicate LiveGood(s: State) {
    forall h :: h in s.live ==> s.live[h] in s.inserted && HandleOf(s.live[h]) == h
  }

  /** The runtime lock: one running call a rail. */
  predicate Serialised(s: State) {
    forall c, d :: c in s.calls && d in s.calls && s.calls[c].Running? && s.calls[c] == s.calls[d] ==> c == d
  }

  predicate CallsGood(s: State) {
    && Serialised(s)
    && forall c :: c in s.calls ==> s.calls[c] == Missed || s.calls[c].rail in s.inserted
  }

  predicate Good(s: State) {
    CounterGood(s) && OpeningGood(s) && LiveGood(s) && CallsGood(s)
  }

  lemma SuccessorOfHandle(rail: nat)
    ensures Successor(HandleOf(rail)) == HandleOf(rail + 1)
  {
  }

  lemma BumpKeepsGood(s: State, t: nat)
    requires Good(s)
    ensures Good(Step(s, Bump(t)))
  {
    SuccessorOfHandle(|s.taken|);
    hide HandleOf, Successor;
  }

  lemma InsertKeepsGood(s: State, t: nat)
    requires Good(s)
    ensures Good(Step(s, Insert(t)))
  {
    hide HandleOf, Successor;
  }

  lemma CloseKeepsGood(s: State, h: U64)
    requires Good(s)
    ensures Good(Step(s, Close(h)))
  {
    hide HandleOf, Successor;
  }

  lemma CallKeepsGood(s: State, e: Event)
    requires Good(s) && (e.Lookup? || e.Acquire? || e.Finish?)
    ensures Good(Step(s, e))
  {
    hide HandleOf, Successor;
  }

  lemma StepKeepsGood(s: State, e: Event)
    requires Good(s)
    ensures Good(Step(s, e))
  {
    match e
    case Bump(t) => BumpKeepsGood(s, t);
    case Insert(t) => InsertKeepsGood(s, t);
    case Close(h) => CloseKeepsGood(s, h);
    case _ => CallKeepsGood(s, e);
  }

  /** Counters, insertions, live entries and locks stay coherent over every interleaving. */
  lemma {:induction false} RunKeepsGood(s: State, es: seq<Event>)
    requires Good(s)
    ensures Good(Run(s, es)) && |s.taken| <= |Run(s, es).taken|
    decreases |es|
  {
    hide Good;
    if es != [] {
      StepKeepsGood(s, es[0]);
      RunKeepsGood(Step(s, es[0]), es[1..]);
    }
  }

  lemma RunFromStart(es: seq<Event>)
    ensures Good(Run(INITIAL, es))
  {
    hide Run;
    RunKeepsGood(INITIAL, es);
  }

  // ------------------------------------------------------------ handles never come back

  lemma HandleOfInjectiveBelow(i: nat, j: nat)
    requires i < U64_BOUND && j < U64_BOUND && HandleOf(i) == HandleOf(j)
    ensures i == j
  {
  }

  lemma HandleOfSmall(i: nat)
    requires i < U64_BOUND - 1
    ensures HandleOf(i) == i + 1
  {
  }

  /** A counter that has not run past its width is one more than the number of opens, every live
      handle lies below it, none is 0, and no handle was ever inserted for two rails. */
  lemma LiveBelowCounter(es: seq<Event>)
    requires |Run(INITIAL, es).taken| < U64_BOUND - 1
    ensures var s := Run(INITIAL, es);
      && s.next == |s.taken| + 1
      && (forall h :: h in s.live ==> 0 < h < s.next)
      && (forall j, k :: 0 <= j < k < |s.inserted| ==> HandleOf(s.inserted[j]) != HandleOf(s.inserted[k]))
  {
    hide HandleOf, Run;
    RunFromStart(es);
    var s := Run(INITIAL, es);
    HandleOfSmall(|s.taken|);
    forall h | h in s.live ensures 0 < h < s.next {
      HandleOfSmall(s.live[h]);
    }
    forall j, k | 0 <= j < k < |s.inserted| ensures HandleOf(s.inserted[j]) != HandleOf(s.inserted[k]) {
      assert s.inserted[j] in s.inserted && s.inserted[k] in s.inserted;
      HandleOfSmall(s.inserted[j]);
      HandleOfSmall(s.inserted[k]);
    }
  }

  /** In any run the handles fetched are pairwise different exactly as long as there were at most
      2^64 opens: "never reused" holds up to there and fails beyond. */
  lemma FetchedDistinctIff(es: seq<Event>)
    ensures Distinct(Run(INITIAL, es).taken) <==> |Run(INITIAL, es).taken| <= U64_BOUND
  {
    RunFromStart(es);
    var taken := Run(INITIAL, es).taken;
    if |taken| > U64_BOUND {
      assert taken[0] == HandleOf(0) == HandleOf(U64_BOUND) == taken[U64_BOUND];
    } else {
      forall j, k | 0 <= j < k < |taken| ensures taken[j] != taken[k] {
        if taken[j] == taken[k] {
          HandleOfInjectiveBelow(j, k);
        }
      }
    }
  }

  lemma StepKeepsClosed(s: State, e: Event, rail: nat)
    requires Good(s) && rail in s.inserted && HandleOf(rail) !in s.live
    requires |Step(s, e).taken| <= U64_BOUND
    ensures rail in Step(s, e).inserted && HandleOf(rail) !in Step(s, e).live
  {
    if e.Insert? && e.thread in s.opening && HandleOf(s.opening[e.thread]) == HandleOf(rail) {
      HandleOfInjectiveBelow(s.opening[e.thread], rail);
    }
  }

  lemma {:induction false} ClosedStaysClosed(s: State, es: seq<Event>, rail: nat)
    requires Good(s) && rail in s.inserted && HandleOf(rail) !in s.live
    requires |Run(s, es).taken| <= U64_BOUND
    ensures rail in Run(s, es).inserted && HandleOf(rail) !in Run(s, es).live
    decreases |es|
  {
    hide Good, HandleOf, Step;
    if es != [] {
      StepKeepsGood(s, es[0]);
      RunKeepsGood(Step(s, es[0]), es[1..]);
      StepKeepsClosed(s, es[0], rail);
      ClosedStaysClosed(Step(s, es[0]), es[1..], rail);
    }
  }

  /** A returned handle, once closed, is unknown to every later lookup, whatever else happens. */
  lemma UseAfterCloseIsRefused(before: seq<Event>, after: seq<Event>, rail: nat, c: nat)
    requires rail in Run(INITIAL, before).inserted
    requires var t := Run(Step(Run(INITIAL, before), Close(HandleOf(rail))), after);
      |t.taken| <= U64_BOUND && c !in t.calls
    ensures var t := Run(Step(Run(INITIAL, before), Close(HandleOf(rail))), after);
      var u := Step(t, Lookup(c, HandleOf(rail)));
      u.calls[c] == Missed && u.live == t.live
  {
    RunFromStart(before);
    var s := Run(INITIAL, before);
    CloseKeepsGood(s, HandleOf(rail));
    ClosedStaysClosed(Step(s, Close(HandleOf(rail))), after, rail);
  }

  /** `n` opens by one thread, one after the other. */
  function Opens(n: nat): (es: seq<Event>) {
    if n == 0 then [] else Opens(n - 1) + [Bump(0), Insert(0)]
  }

  lemma {:induction false} RunConcat(s: State, xs: seq<Event>, ys: seq<Event>)
    ensures Run(s, xs + ys) == Run(Run(s, xs), ys)
    decreases |xs|
  {
    hide Step;
    if xs == [] {
      assert xs + ys == ys;
    } else {
      assert (xs + ys)[0] == xs[0] && (xs + ys)[1..] == xs[1..] + ys;
      RunConcat(Step(s, xs[0]), xs[1..], ys);
    }
  }

  /** One open by an idle thread makes the new rail live under the handle it fetched. */
  lemma OpenMakesLive(s: State, t: nat)
    requires Good(s) && t !in s.opening
    ensures var u := Step(Step(s, Bump(t)), Insert(t)); var rail := |s.taken|;
      && |u.taken| == rail + 1 && u.opening == s.opening
      && HandleOf(rail) in u.live && u.live[HandleOf(rail)] == rail
  {
    hide HandleOf, Successor;
    assert s.opening[t := |s.taken|] - {t} == s.opening;
  }

  lemma {:induction false} OpensRun(n: nat)
    ensures var s := Run(INITIAL, Opens(n));
      |s.taken| == n && s.opening == map[] && (n > 0 ==> HandleOf(n - 1) in s.live && s.live[HandleOf(n - 1)] == n - 1)
  {
    hide HandleOf, Successor, Step, Good;
    if n > 0 {
      OpensRun(n - 1);
      var s := Run(INITIAL, Opens(n - 1));
      RunFromStart(Opens(n - 1));
      RunConcat(INITIAL, Opens(n - 1), [Bump(0), Insert(0)]);
      RunTwo(s, Bump(0), Insert(0));
      OpenMakesLive(s, 0);
    }
  }

  /** One open too many: the wrapped counter hands handle 1 to a second rail, and whoever still holds
      handle 1 from the first open now reaches that rail. */
  lemma WrappedHandleChangesRail()
    ensures var first := Run(INITIAL, Opens(1)); var s := Run(INITIAL, Opens(U64_BOUND + 1));
      && 1 in first.live && first.live[1] == 0
      && 1 in s.live && s.live[1] == U64_BOUND
  {
    OpensRun(1);
    OpensRun(U64_BOUND + 1);
    assert HandleOf(0) == 1 == HandleOf(U64_BOUND);
  }

  // ------------------------------------------------------------ calls keep their own rail

  predicate On(s: State, c: nat, rail: nat) {
    c in s.calls && s.calls[c] in {Waiting(rail), Running(rail), Done(rail)}
  }

  lemma {:induction false} RunKeepsRail(s: State, es: seq<Event>, c: nat, rail: nat)
    requires On(s, c, rail)
    ensures On(Run(s, es), c, rail)
    decreases |es|
  {
    if es != [] {
      RunKeepsRail(Step(s, es[0]), es[1..], c, rail);
    }
  }

  /** A call that found its handle runs on the rail that fetched that handle, however the handle is
      closed or the registry changes afterwards, and two calls never run on one rail together. */
  lemma CallFinishesOnItsRail(before: seq<Event>, after: seq<Event>, c: nat, h: U64)
    requires var s := Run(INITIAL, before); c !in s.calls && h in s.live
    ensures var s := Run(INITIAL, before); var t := Run(Step(s, Lookup(c, h)), after);
      && HandleOf(s.live[h]) == h
      && On(t, c, s.live[h])
      && Serialised(t)
  {
    var s := Run(INITIAL, before);
    RunFromStart(before);
    StepKeepsGood(s, Lookup(c, h));
    RunKeepsGood(Step(s, Lookup(c, h)), after);
    RunKeepsRail(Step(s, Lookup(c, h)), after, c, s.live[h]);
  }

  predicate OfCalls(e: Event) {
    e.Acquire? || e.Finish?
  }

  function OnlyCalls(es: seq<Event>): (cs: seq<Event>)
    ensures |cs| <= |es|
  {
    if es == [] then [] else (if OfCalls(es[0]) then [es[0]] else []) + OnlyCalls(es[1..])
  }

  /** Opening and closing are invisible to the calls already under way: erase every registry step
      from the rest of a run and each call ends in the same place. */
  lemma {:induction false} RegistryInvisibleToCalls(s: State, t: State, es: seq<Event>)
    requires s.calls == t.calls
    requires forall e :: e in es ==> !e.Lookup?
    ensures Run(s, es).calls == Run(t, OnlyCalls(es)).calls
    decreases |es|
  {
    if es != [] {
      assert es[0] in es;
      if OfCalls(es[0]) {
        assert OnlyCalls(es)[0] == es[0] && OnlyCalls(es)[1..] == OnlyCalls(es[1..]);
        SameCallsSameStep(s, t, es[0]);
        RegistryInvisibleToCalls(Step(s, es[0]), Step(t, es[0]), es[1..]);
      } else {
        assert OnlyCalls(es) == OnlyCalls(es[1..]);
        RegistryInvisibleToCalls(Step(s, es[0]), t, es[1..]);
      }
    }
  }

  lemma SameCallsSameStep(s: State, t: State, e: Event)
    requires s.calls == t.calls && OfCalls(e)
    ensures Step(s, e).calls == Step(t, e).calls
  {
    assert forall rail :: Busy(s, rail) <==> Busy(t, rail);
  }

  /** The lock never strands a call: a waiting call either takes its rail at once, or the call inside
      can finish and then it does. */
  lemma WaitingCallCanRun(before: seq<Event>, c: nat)
    requires var s := Run(INITIAL, before); c in s.calls && s.calls[c].Waiting?
    ensures var s := Run(INITIAL, before); var rail := s.calls[c].rail;
      if Busy(s, rail)
      then (exists d ::
        d in s.calls && s.calls[d] == Running(rail) && Step(Step(s, Finish(d)), Acquire(c)).calls[c] == Running(rail))
      else Step(s, Acquire(c)).calls[c] == Running(rail)
  {
    RunFromStart(before);
    var s := Run(INITIAL, before);
    var rail := s.calls[c].rail;
    if Busy(s, rail) {
      var d :| d in s.calls && s.calls[d] == Running(rail);
      var u := Step(s, Finish(d));
      assert !Busy(u, rail);
      assert Step(u, Acquire(c)).calls[c] == Running(rail);
    }
  }
}
