/** Failover over candidate rails (`patala-core/src/failover.rs`): a policy's order becomes an
    eligible plan, the plan is tried until something succeeds, and the settlement class is
    never crossed without opt-in. */
module Failover {
  import opened Prelude

  datatype RailClass = CustodialReversible | NonCustodialFinal

  /** What failover consults of a rail before trying it. */
  datatype RailInfo = RailInfo(id: string, class_: RailClass)

  datatype Plan = Plan(order: seq<nat>, blocked: Option<(RailClass, RailClass)>)

  /** Why nothing was returned: a boundary that was not crossed, the last attempt's own error,
      or nothing to try. */
  datatype Failure<+E> = CrossClassFailover(from: RailClass, to: RailClass) | Attempt(error: E) | AllRailsFailed

  // ------------------------------------------------------------ specification

  /** The indices the policy returned that name a rail, in its order, repeats included. */
  function InRange(order: seq<nat>, n: nat): (s: seq<nat>)
    ensures forall i :: 0 <= i < |s| ==> s[i] < n
  {
    if order == [] then []
    else if order[0] < n then [order[0]] + InRange(order[1..], n)
    else InRange(order[1..], n)
  }

  /** Those of a given class. */
  function OfClass(rails: seq<RailInfo>, order: seq<nat>, c: RailClass): (s: seq<nat>)
    requires forall i :: 0 <= i < |order| ==> order[i] < |rails|
    ensures |s| <= |order|
    ensures forall i :: 0 <= i < |s| ==> s[i] < |rails| && rails[s[i]].class_ == c
  {
    if order == [] then []
    else if rails[order[0]].class_ == c then [order[0]] + OfClass(rails, order[1..], c)
    else OfClass(rails, order[1..], c)
  }

  /** The class of the first candidate of another class. */
  function FirstOther(rails: seq<RailInfo>, order: seq<nat>, c: RailClass): Option<RailClass>
    requires forall i :: 0 <= i < |order| ==> order[i] < |rails|
  {
    if order == [] then None
    else if rails[order[0]].class_ != c then Some(rails[order[0]].class_)
    else FirstOther(rails, order[1..], c)
  }

  /** The plan, stated without a loop: the first in-range rail fixes the class; with opt-in every
      in-range rail is eligible, without it only those of that class, and the first one of
      another class is recorded. */
  function PlanOf(rails: seq<RailInfo>, order: seq<nat>, allow: bool): Plan {
    var candidates := InRange(order, |rails|);
    if candidates == [] then Plan([], None)
    else if allow then Plan(candidates, None)
    else
      var intended := rails[candidates[0]].class_;
      var other := FirstOther(rails, candidates, intended);
      Plan(OfClass(rails, candidates, intended), if other.Some? then Some((intended, other.value)) else None)
  }

  lemma {:induction false} InRangeAppend(order: seq<nat>, idx: nat, n: nat)
    ensures InRange(order + [idx], n) == InRange(order, n) + (if idx < n then [idx] else [])
  {
    if order == [] {
      assert order + [idx] == [idx] && [idx][1..] == [];
    } else {
      InRangeAppend(order[1..], idx, n);
      assert (order + [idx])[1..] == order[1..] + [idx];
    }
  }

  lemma {:induction false} OfClassAppend(rails: seq<RailInfo>, a: seq<nat>, idx: nat, c: RailClass)
    requires idx < |rails| && forall i :: 0 <= i < |a| ==> a[i] < |rails|
    ensures OfClass(rails, a + [idx], c) == OfClass(rails, a, c) + (if rails[idx].class_ == c then [idx] else [])
  {
    if a == [] {
      assert a + [idx] == [idx] && [idx][1..] == [];
    } else {
      OfClassAppend(rails, a[1..], idx, c);
      assert (a + [idx])[1..] == a[1..] + [idx];
    }
  }

  lemma {:induction false} FirstOtherAppend(rails: seq<RailInfo>, a: seq<nat>, idx: nat, c: RailClass)
    requires idx < |rails| && forall i :: 0 <= i < |a| ==> a[i] < |rails|
    ensures FirstOther(rails, a + [idx], c) ==
            if FirstOther(rails, a, c).Some? then FirstOther(rails, a, c)
            else if rails[idx].class_ != c then Some(rails[idx].class_) else None
  {
    if a == [] {
      assert a + [idx] == [idx] && [idx][1..] == [];
    } else {
      FirstOtherAppend(rails, a[1..], idx, c);
      assert (a + [idx])[1..] == a[1..] + [idx];
    }
  }

  // ------------------------------------------------------------ plan

  /** `FailoverRail::plan`, on the order the policy returned. */
  method MakePlan(rails: seq<RailInfo>, order: seq<nat>, allow: bool) returns (plan: Plan)
    ensures plan == PlanOf(rails, order, allow)
  {
    hide OfClass, FirstOther, InRange;
    var eligible: seq<nat> := [];
    var intended: Option<RailClass> := None;
    var blocked: Option<(RailClass, RailClass)> := None;
    PlanStart(rails, allow);
    var i := 0;
    while i < |order|
      invariant 0 <= i <= |order|
      invariant Plan(eligible, blocked) == PlanOf(rails, order[..i], allow)
      invariant intended == Intended(rails, order[..i])
    {
      var idx := order[i];
      assert order[..i + 1] == order[..i] + [idx];
      PlanStep(rails, order[..i], idx, allow);
      if idx < |rails| {
        var class_ := rails[idx].class_;
        if intended.None? {
          intended := Some(class_);
          eligible := eligible + [idx];
        } else if intended.value == class_ {
          eligible := eligible + [idx];
        } else if allow {
          eligible := eligible + [idx];
        } else {
          blocked := if blocked.None? then Some((intended.value, class_)) else blocked;
        }
      }
      i := i + 1;
    }
    assert order[..i] == order;
    plan := Plan(eligible, blocked);
  }

  /** The class fixed by the first in-range rail. */
  function Intended(rails: seq<RailInfo>, order: seq<nat>): Option<RailClass> {
    var candidates := InRange(order, |rails|);
    if candidates == [] then None else Some(rails[candidates[0]].class_)
  }

  lemma PlanStart(rails: seq<RailInfo>, allow: bool)
    ensures PlanOf(rails, [], allow) == Plan([], None) && Intended(rails, []) == None
  {
  }

  lemma PlanStep(rails: seq<RailInfo>, order: seq<nat>, idx: nat, allow: bool)
    ensures var before, after := PlanOf(rails, order, allow), PlanOf(rails, order + [idx], allow);
            var intended := Intended(rails, order);
            && (idx >= |rails| ==> after == before && Intended(rails, order + [idx]) == intended)
            && (idx < |rails| ==>
                 var c := rails[idx].class_;
                 && Intended(rails, order + [idx]) == Some(if intended.None? then c else intended.value)
                 && after ==
                    if intended.None? || intended.value == c || allow then before.(order := before.order + [idx])
                    else if before.blocked.None? then before.(blocked := Some((intended.value, c)))
                    else before)
  {
    hide OfClass, FirstOther;
    var candidates := InRange(order, |rails|);
    InRangeAppend(order, idx, |rails|);
    if idx < |rails| {
      if candidates == [] {
        assert candidates + [idx] == [idx];
        SingleCandidate(rails, idx);
      } else {
        OfClassAppend(rails, candidates, idx, rails[candidates[0]].class_);
        FirstOtherAppend(rails, candidates, idx, rails[candidates[0]].class_);
      }
    } else {
      assert candidates + [] == candidates;
    }
  }

  lemma SingleCandidate(rails: seq<RailInfo>, idx: nat)
    requires idx < |rails|
    ensures OfClass(rails, [idx], rails[idx].class_) == [idx]
    ensures FirstOther(rails, [idx], rails[idx].class_) == None
  {
    assert [idx][1..] == [];
  }

  // ------------------------------------------------------------ attempts

  /** `terminal_error` */
  function TerminalError<E>(last: Option<E>, blocked: Option<(RailClass, RailClass)>): Failure<E> {
    if blocked.Some? then CrossClassFailover(blocked.value.0, blocked.value.1)
    else if last.Some? then Attempt(last.value)
    else AllRailsFailed
  }

  /** `FailoverRail::quote` and `FailoverRail::charge`, which differ only in what they attempt.
      `attempt(k, idx)` is the outcome of the k-th attempt, made on rail `idx`; a rail tried
      twice may answer differently. `attempted` lists the rails actually tried. */
  method TryInOrder<R, E>(rails: seq<RailInfo>, order: seq<nat>, allow: bool, attempt: (nat, nat) -> Result<R, E>)
    returns (r: Result<R, Failure<E>>, attempted: seq<nat>)
    ensures var plan := PlanOf(rails, order, allow);
            && attempted <= plan.order
            && (forall k :: 0 <= k < |attempted| - 1 ==> attempt(k, attempted[k]).Err?)
            && (r.Ok? ==> attempted != [] && attempt(|attempted| - 1, attempted[|attempted| - 1]) == Ok(r.value))
            && (r.Err? ==> attempted == plan.order && forall k :: 0 <= k < |attempted| ==> attempt(k, attempted[k]).Err?)
    ensures r.Err? && PlanOf(rails, order, allow).blocked.Some? ==>
              var blocked := PlanOf(rails, order, allow).blocked.value;
              r.error == CrossClassFailover(blocked.0, blocked.1)
    ensures r.Err? && PlanOf(rails, order, allow).blocked.None? ==>
              r.error == if attempted == [] then AllRailsFailed
                         else Attempt(attempt(|attempted| - 1, attempted[|attempted| - 1]).error)
  {
    hide PlanOf;
    var plan := MakePlan(rails, order, allow);
    var last: Option<E> := None;
    attempted := [];
    var i := 0;
    while i < |plan.order|
      invariant 0 <= i <= |plan.order|
      invariant attempted == plan.order[..i]
      invariant forall k :: 0 <= k < i ==> attempt(k, plan.order[k]).Err?
      invariant last == if i == 0 then None else Some(attempt(i - 1, plan.order[i - 1]).error)
    {
      var outcome := attempt(i, plan.order[i]);
      attempted := attempted + [plan.order[i]];
      match outcome {
        case Ok(v) =>
          return Ok(v), attempted;
        case Err(e) =>
          last := Some(e);
      }
      i := i + 1;
    }
    r := Err(TerminalError(last, plan.blocked));
  }

  // ------------------------------------------------------------ what a plan guarantees

  /** A rail may be tried: the policy names it, it exists, and it has the class of the first rail
      tried unless crossing was opted into. */
  predicate IsEligible(rails: seq<RailInfo>, order: seq<nat>, allow: bool, idx: nat) {
    var intended := Intended(rails, order);
    && idx in order && idx < |rails|
    && (allow || (intended.Some? && rails[idx].class_ == intended.value))
  }

  /** A plan names exactly the eligible rails, each as often as the policy did, starting with the
      first in-range rail; without opt-in all have its class. */
  lemma PlanRespectsClass(rails: seq<RailInfo>, order: seq<nat>, allow: bool)
    ensures var plan := PlanOf(rails, order, allow);
            && (forall i :: 0 <= i < |plan.order| ==> plan.order[i] < |rails| && plan.order[i] in order)
            && (!allow ==> forall i :: 0 <= i < |plan.order| ==>
                 rails[plan.order[i]].class_ == rails[plan.order[0]].class_)
            && (plan.order == [] <==> InRange(order, |rails|) == [])
            && (plan.order != [] ==> plan.order[0] == InRange(order, |rails|)[0])
            && (forall idx: nat :: idx in plan.order <==> IsEligible(rails, order, allow, idx))
            && (forall idx: nat :: idx in plan.order ==> multiset(plan.order)[idx] == multiset(order)[idx])
  {
    InRangeMembers(order, |rails|);
    InRangeCounts(order, |rails|);
    var candidates := InRange(order, |rails|);
    if candidates != [] && !allow {
      OfClassMembers(rails, candidates, rails[candidates[0]].class_);
      OfClassCounts(rails, candidates, rails[candidates[0]].class_);
    }
  }

  lemma {:induction false} InRangeCounts(order: seq<nat>, n: nat)
    ensures forall idx :: idx in InRange(order, n) ==> multiset(InRange(order, n))[idx] == multiset(order)[idx]
  {
    InRangeMembers(order, n);
    if order != [] {
      InRangeCounts(order[1..], n);
      InRangeMembers(order[1..], n);
      assert order == [order[0]] + order[1..];
    }
  }

  lemma {:induction false} OfClassCounts(rails: seq<RailInfo>, order: seq<nat>, c: RailClass)
    requires forall i :: 0 <= i < |order| ==> order[i] < |rails|
    ensures forall idx :: idx in OfClass(rails, order, c) ==> multiset(OfClass(rails, order, c))[idx] == multiset(order)[idx]
  {
    OfClassMembers(rails, order, c);
    if order != [] {
      OfClassCounts(rails, order[1..], c);
      OfClassMembers(rails, order[1..], c);
      assert order == [order[0]] + order[1..];
    }
  }

  lemma {:induction false} InRangeMembers(order: seq<nat>, n: nat)
    ensures forall idx :: idx in InRange(order, n) <==> idx in order && idx < n
  {
    if order != [] {
      InRangeMembers(order[1..], n);
      assert order == [order[0]] + order[1..];
    }
  }

  lemma {:induction false} OfClassMembers(rails: seq<RailInfo>, order: seq<nat>, c: RailClass)
    requires forall i :: 0 <= i < |order| ==> order[i] < |rails|
    ensures forall idx :: idx in OfClass(rails, order, c) <==> idx in order && rails[idx].class_ == c
  {
    if order != [] {
      OfClassMembers(rails, order[1..], c);
      assert order == [order[0]] + order[1..];
    }
  }

  /** The positions, increasing, at which one sequence is found in another. */
  ghost predicate LiesAt(part: seq<nat>, whole: seq<nat>, at: seq<nat>) {
    && |at| == |part|
    && (forall k: nat :: k < |at| ==> at[k] < |whole| && whole[at[k]] == part[k])
    && (forall j: nat, k: nat :: j < k < |at| ==> at[j] < at[k])
  }

  /** A plan keeps the policy's order: it is found, in increasing positions, in what the policy returned. */
  lemma PlanKeepsOrder(rails: seq<RailInfo>, order: seq<nat>, allow: bool)
    ensures exists at: seq<nat> :: LiesAt(PlanOf(rails, order, allow).order, order, at)
  {
    hide LiesAt, OfClass, FirstOther;
    var candidates := InRange(order, |rails|);
    var at := InRangeLies(order, |rails|);
    var plan := PlanOf(rails, order, allow);
    if candidates != [] && !allow {
      var within := OfClassLies(rails, candidates, rails[candidates[0]].class_);
      at := LiesWithin(plan.order, candidates, order, within, at);
    }
    assert LiesAt(plan.order, order, at);
  }

  /** Positions one place further on. */
  function Onward(at: seq<nat>): (s: seq<nat>)
    ensures |s| == |at| && forall k: nat :: k < |at| ==> s[k] == at[k] + 1
  {
    seq(|at|, k requires 0 <= k < |at| => at[k] + 1)
  }

  lemma LiesOnward(part: seq<nat>, whole: seq<nat>, at: seq<nat>)
    requires whole != [] && LiesAt(part, whole[1..], at)
    ensures LiesAt(part, whole, Onward(at))
  {
    forall k: nat | k < |at|
      ensures Onward(at)[k] < |whole| && whole[Onward(at)[k]] == part[k]
    {
      assert whole[1..][at[k]] == whole[at[k] + 1];
    }
  }

  lemma LiesFromStart(part: seq<nat>, whole: seq<nat>, at: seq<nat>)
    requires whole != [] && LiesAt(part, whole[1..], at)
    ensures LiesAt([whole[0]] + part, whole, [0] + Onward(at))
  {
    LiesOnward(part, whole, at);
    var s, t := [0] + Onward(at), [whole[0]] + part;
    assert forall k: nat :: 0 < k < |s| ==> s[k] == Onward(at)[k - 1] && t[k] == part[k - 1];
  }

  lemma {:induction false} InRangeLies(order: seq<nat>, n: nat) returns (at: seq<nat>)
    ensures LiesAt(InRange(order, n), order, at)
  {
    at := [];
    if order != [] {
      var rest := InRangeLies(order[1..], n);
      LiesOnward(InRange(order[1..], n), order, rest);
      LiesFromStart(InRange(order[1..], n), order, rest);
      at := if order[0] < n then [0] + Onward(rest) else Onward(rest);
    }
  }

  lemma {:induction false} OfClassLies(rails: seq<RailInfo>, order: seq<nat>, c: RailClass) returns (at: seq<nat>)
    requires forall i :: 0 <= i < |order| ==> order[i] < |rails|
    ensures LiesAt(OfClass(rails, order, c), order, at)
  {
    at := [];
    if order != [] {
      var rest := OfClassLies(rails, order[1..], c);
      LiesOnward(OfClass(rails, order[1..], c), order, rest);
      LiesFromStart(OfClass(rails, order[1..], c), order, rest);
      at := if rails[order[0]].class_ == c then [0] + Onward(rest) else Onward(rest);
    }
  }

  lemma LiesWithin(part: seq<nat>, middle: seq<nat>, whole: seq<nat>, within: seq<nat>, at: seq<nat>) returns (both: seq<nat>)
    requires LiesAt(part, middle, within) && LiesAt(middle, whole, at)
    ensures LiesAt(part, whole, both)
  {
    both := seq(|within|, k requires 0 <= k < |within| => at[within[k]]);
  }

  /** A boundary is reported exactly when, without opt-in, some in-range candidate has another
      class than the first one; what is reported is that pair of classes. */
  lemma BlockedIff(rails: seq<RailInfo>, order: seq<nat>, allow: bool)
    ensures var plan := PlanOf(rails, order, allow);
            && (plan.blocked.Some? <==> !allow && exists a, b ::
                  a in order && b in order && a < |rails| && b < |rails| && rails[a].class_ != rails[b].class_)
            && (plan.blocked.Some? ==>
                  plan.order != [] && plan.blocked.value.0 == rails[plan.order[0]].class_
                  && plan.blocked.value.0 != plan.blocked.value.1)
  {
    var candidates := InRange(order, |rails|);
    InRangeMembers(order, |rails|);
    if candidates != [] && !allow {
      var c := rails[candidates[0]].class_;
      FirstOtherIff(rails, candidates, c);
      assert candidates[0] in order;
    }
  }

  lemma {:induction false} FirstOtherIff(rails: seq<RailInfo>, order: seq<nat>, c: RailClass)
    requires forall i :: 0 <= i < |order| ==> order[i] < |rails|
    ensures FirstOther(rails, order, c).Some? <==> exists i :: 0 <= i < |order| && rails[order[i]].class_ != c
    ensures FirstOther(rails, order, c).Some? ==> FirstOther(rails, order, c).value != c
  {
    if order != [] {
      FirstOtherIff(rails, order[1..], c);
      if exists i :: 0 <= i < |order| && rails[order[i]].class_ != c {
        var i :| 0 <= i < |order| && rails[order[i]].class_ != c;
        assert i > 0 ==> order[1..][i - 1] == order[i];
      }
      if exists i :: 0 <= i < |order[1..]| && rails[order[1..][i]].class_ != c {
        var i :| 0 <= i < |order[1..]| && rails[order[1..][i]].class_ != c;
        assert order[i + 1] == order[1..][i];
      }
    }
  }

  // ------------------------------------------------------------ dispatch

  /** The first rail with an id; the number of rails if there is none. */
  function RailIndex(rails: seq<RailInfo>, id: string): (i: nat)
    ensures i <= |rails|
    ensures i < |rails| ==> rails[i].id == id
    ensures forall j :: 0 <= j < i ==> rails[j].id != id
  {
    if rails == [] || rails[0].id == id then 0 else 1 + RailIndex(rails[1..], id)
  }

  /** `FailoverRail::verify`: ask the rail named on the receipt; an unwrapped issuer is false. */
  method Verify<E>(rails: seq<RailInfo>, railId: string, verdict: nat -> Result<bool, E>) returns (r: Result<bool, E>)
    ensures r == if RailIndex(rails, railId) < |rails| then verdict(RailIndex(rails, railId)) else Ok(false)
  {
    hide RailIndex;
    var i := 0;
    while i < |rails|
      invariant 0 <= i <= |rails|
      invariant forall j :: 0 <= j < i ==> rails[j].id != railId
    {
      if rails[i].id == railId {
        return verdict(i);
      }
      i := i + 1;
    }
    return Ok(false);
  }

  /** A receipt goes back to the rail that issued it if and only if no earlier wrapped rail has
      the same id. */
  lemma DispatchIff(rails: seq<RailInfo>, issuer: nat)
    requires issuer < |rails|
    ensures RailIndex(rails, rails[issuer].id) == issuer <==>
            forall j :: 0 <= j < issuer ==> rails[j].id != rails[issuer].id
  {
  }
}
