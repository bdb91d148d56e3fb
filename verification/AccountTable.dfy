/** The account table of a legacy Solana message (`patala-solana/src/tx.rs`): collecting the
    keys an instruction list asks for, merging their flags and ordering them by privilege. */
module AccountTable {
  import opened Prelude
  import Radix

  datatype AccountMeta = AccountMeta(key: PubKey, signer: bool, writable: bool)

  datatype Instruction = Instruction(programId: PubKey, accounts: seq<AccountMeta>, data: Bytes)

  // ------------------------------------------------------------ account table

  /** Everything asked of the table, in the order it is asked: the payer, each instruction's
      accounts, then each program as a readonly non-signer. */
  function Requests(payer: PubKey, ixs: seq<Instruction>): seq<AccountMeta> {
    [AccountMeta(payer, true, true)] + AccountRequests(ixs) + ProgramRequests(ixs)
  }

  function AccountRequests(ixs: seq<Instruction>): seq<AccountMeta> {
    if ixs == [] then [] else AccountRequests(ixs[..|ixs| - 1]) + ixs[|ixs| - 1].accounts
  }

  function ProgramRequests(ixs: seq<Instruction>): seq<AccountMeta> {
    seq(|ixs|, i requires 0 <= i < |ixs| => AccountMeta(ixs[i].programId, false, false))
  }

  /** First position of a key; the length of the table if it is absent. */
  function IndexOf(keys: seq<AccountMeta>, k: PubKey): (i: nat)
    ensures i <= |keys|
    ensures i < |keys| ==> keys[i].key == k
    ensures forall j :: 0 <= j < i ==> keys[j].key != k
  {
    if keys == [] || keys[0].key == k then 0 else 1 + IndexOf(keys[1..], k)
  }

  /** The closure `add`: merge flags into an existing entry or append a new one. */
  function Add(keys: seq<AccountMeta>, m: AccountMeta): seq<AccountMeta> {
    var i := IndexOf(keys, m.key);
    if i < |keys| then
      keys[i := AccountMeta(m.key, keys[i].signer || m.signer, keys[i].writable || m.writable)]
    else keys + [m]
  }

  function Merge(requests: seq<AccountMeta>): seq<AccountMeta> {
    if requests == [] then [] else Add(Merge(requests[..|requests| - 1]), requests[|requests| - 1])
  }

  function Rank(m: AccountMeta): nat {
    if m.signer then (if m.writable then 0 else 1) else if m.writable then 2 else 3
  }

  function OfRank(keys: seq<AccountMeta>, r: nat): (s: seq<AccountMeta>)
    ensures |s| <= |keys|
  {
    if keys == [] then []
    else if Rank(keys[0]) == r then [keys[0]] + OfRank(keys[1..], r)
    else OfRank(keys[1..], r)
  }

  /** `keys.sort_by_key(rank)`: the stable sort, one rank after another. */
  function SortByRank(keys: seq<AccountMeta>): seq<AccountMeta> {
    OfRank(keys, 0) + OfRank(keys, 1) + OfRank(keys, 2) + OfRank(keys, 3)
  }

  function Table(payer: PubKey, ixs: seq<Instruction>): seq<AccountMeta> {
    SortByRank(Merge(Requests(payer, ixs)))
  }

  ghost predicate DistinctKeys(keys: seq<AccountMeta>) {
    forall i, j :: 0 <= i < j < |keys| ==> keys[i].key != keys[j].key
  }

  ghost predicate HasKey(keys: seq<AccountMeta>, k: PubKey) {
    exists i :: 0 <= i < |keys| && keys[i].key == k
  }

  ghost predicate AsksSigner(requests: seq<AccountMeta>, k: PubKey) {
    exists i :: 0 <= i < |requests| && requests[i].key == k && requests[i].signer
  }

  ghost predicate AsksWritable(requests: seq<AccountMeta>, k: PubKey) {
    exists i :: 0 <= i < |requests| && requests[i].key == k && requests[i].writable
  }

  /** `keys` is the merge of `requests`: no key twice, exactly the requested keys, and for
      each key the disjunction of every flag asked for it. */
  ghost predicate Merged(keys: seq<AccountMeta>, requests: seq<AccountMeta>) {
    && DistinctKeys(keys)
    && (forall k: PubKey :: HasKey(keys, k) <==> HasKey(requests, k))
    && (forall i :: 0 <= i < |keys| ==>
          && (keys[i].signer <==> AsksSigner(requests, keys[i].key))
          && (keys[i].writable <==> AsksWritable(requests, keys[i].key)))
  }

  lemma AsksStep(requests: seq<AccountMeta>, m: AccountMeta, k: PubKey)
    ensures HasKey(requests + [m], k) <==> HasKey(requests, k) || m.key == k
    ensures AsksSigner(requests + [m], k) <==> AsksSigner(requests, k) || (m.key == k && m.signer)
    ensures AsksWritable(requests + [m], k) <==> AsksWritable(requests, k) || (m.key == k && m.writable)
  {
    var all := requests + [m];
    assert all[|requests|] == m;
    if HasKey(requests, k) {
      var i :| 0 <= i < |requests| && requests[i].key == k;
      assert all[i].key == k;
    }
    if AsksSigner(requests, k) {
      var i :| 0 <= i < |requests| && requests[i].key == k && requests[i].signer;
      assert all[i].key == k && all[i].signer;
    }
    if AsksWritable(requests, k) {
      var i :| 0 <= i < |requests| && requests[i].key == k && requests[i].writable;
      assert all[i].key == k && all[i].writable;
    }
  }

  lemma IndexOfFinds(keys: seq<AccountMeta>, k: PubKey)
    ensures HasKey(keys, k) <==> IndexOf(keys, k) < |keys|
  {
  }

  lemma AddKeepsMerged(keys: seq<AccountMeta>, requests: seq<AccountMeta>, m: AccountMeta)
    requires Merged(keys, requests)
    ensures Merged(Add(keys, m), requests + [m])
  {
    var out := Add(keys, m);
    var at := IndexOf(keys, m.key);
    IndexOfFinds(keys, m.key);
    forall k: PubKey
      ensures HasKey(out, k) <==> HasKey(requests + [m], k)
    {
      AsksStep(requests, m, k);
      AddHasKey(keys, m, k);
    }
    forall i | 0 <= i < |out|
      ensures out[i].signer <==> AsksSigner(requests + [m], out[i].key)
      ensures out[i].writable <==> AsksWritable(requests + [m], out[i].key)
    {
      AsksStep(requests, m, out[i].key);
      if i == |keys| {
        assert !HasKey(requests, m.key);
      }
    }
  }

  lemma AddHasKey(keys: seq<AccountMeta>, m: AccountMeta, k: PubKey)
    ensures HasKey(Add(keys, m), k) <==> HasKey(keys, k) || m.key == k
  {
    var out := Add(keys, m);
    var at := IndexOf(keys, m.key);
    assert out[at].key == m.key;
    if HasKey(keys, k) {
      var i :| 0 <= i < |keys| && keys[i].key == k;
      assert out[i].key == k;
    }
  }

  lemma {:induction false} MergeIsMerged(requests: seq<AccountMeta>)
    ensures Merged(Merge(requests), requests)
  {
    if requests != [] {
      var front, last := requests[..|requests| - 1], requests[|requests| - 1];
      MergeIsMerged(front);
      AddKeepsMerged(Merge(front), front, last);
      assert front + [last] == requests;
    }
  }

  /** The first request keeps the first place. */
  lemma {:induction false} MergeKeepsFirst(requests: seq<AccountMeta>)
    requires requests != []
    ensures Merge(requests) != [] && Merge(requests)[0].key == requests[0].key
    ensures requests[0].signer ==> Merge(requests)[0].signer
    ensures requests[0].writable ==> Merge(requests)[0].writable
  {
    if |requests| > 1 {
      MergeKeepsFirst(requests[..|requests| - 1]);
    } else {
      assert Merge(requests[..0]) == [];
    }
  }

  // ------------------------------------------------------------ ordering

  lemma {:induction false} OfRankMembers(keys: seq<AccountMeta>, r: nat)
    ensures forall m :: m in OfRank(keys, r) <==> m in keys && Rank(m) == r
  {
    if keys != [] {
      OfRankMembers(keys[1..], r);
      assert keys == [keys[0]] + keys[1..];
    }
  }

  lemma {:induction false} OfRankDistinct(keys: seq<AccountMeta>, r: nat)
    requires DistinctKeys(keys)
    ensures DistinctKeys(OfRank(keys, r))
  {
    if keys != [] {
      OfRankDistinct(keys[1..], r);
      OfRankMembers(keys[1..], r);
      var tail := OfRank(keys[1..], r);
      forall i | 0 <= i < |tail|
        ensures tail[i].key != keys[0].key
      {
        assert tail[i] in keys[1..];
      }
    }
  }

  lemma AppendDistinct(a: seq<AccountMeta>, b: seq<AccountMeta>)
    requires DistinctKeys(a) && DistinctKeys(b)
    requires forall m, n :: m in a && n in b ==> m.key != n.key
    ensures DistinctKeys(a + b)
  {
  }

  /** In a table without repeated keys, entries of different rank have different keys. */
  lemma RanksSeparate(keys: seq<AccountMeta>, m: AccountMeta, n: AccountMeta)
    requires DistinctKeys(keys) && m in keys && n in keys && Rank(m) != Rank(n)
    ensures m.key != n.key
  {
  }

  /** Sorting rearranges a table without repeating or losing an entry. */
  lemma SortKeepsEntries(keys: seq<AccountMeta>)
    requires DistinctKeys(keys)
    ensures DistinctKeys(SortByRank(keys))
    ensures forall m :: m in SortByRank(keys) <==> m in keys
  {
    var a, b, c, d := OfRank(keys, 0), OfRank(keys, 1), OfRank(keys, 2), OfRank(keys, 3);
    forall r: nat | r <= 3
      ensures DistinctKeys(OfRank(keys, r))
      ensures forall m :: m in OfRank(keys, r) <==> m in keys && Rank(m) == r
    {
      OfRankDistinct(keys, r);
      OfRankMembers(keys, r);
    }
    forall m, n | m in keys && n in keys && Rank(m) != Rank(n)
      ensures m.key != n.key
    {
      RanksSeparate(keys, m, n);
    }
    AppendDistinct(a, b);
    AppendDistinct(a + b, c);
    AppendDistinct(a + b + c, d);
  }

  lemma MergedFollowsEntries(keys: seq<AccountMeta>, out: seq<AccountMeta>, requests: seq<AccountMeta>)
    requires Merged(keys, requests) && DistinctKeys(out)
    requires forall m :: m in out <==> m in keys
    ensures Merged(out, requests) && |out| == |keys|
  {
    forall k: PubKey
      ensures HasKey(out, k) <==> HasKey(keys, k)
    {
      if HasKey(out, k) {
        var i :| 0 <= i < |out| && out[i].key == k;
        assert out[i] in keys;
      }
      if HasKey(keys, k) {
        var i :| 0 <= i < |keys| && keys[i].key == k;
        assert keys[i] in out;
      }
    }
    forall i | 0 <= i < |out|
      ensures out[i].signer <==> AsksSigner(requests, out[i].key)
      ensures out[i].writable <==> AsksWritable(requests, out[i].key)
    {
      assert out[i] in keys;
    }
    MembersBoundSize(out, keys);
    MembersBoundSize(keys, out);
  }

  lemma {:induction false} MembersBoundSize(a: seq<AccountMeta>, b: seq<AccountMeta>)
    requires DistinctKeys(a)
    requires forall m :: m in a ==> m in b
    ensures |a| <= |b|
  {
    if a != [] {
      assert a[0] in b;
      var i :| 0 <= i < |b| && b[i] == a[0];
      var b' := b[..i] + b[i + 1..];
      forall m | m in a[1..]
        ensures m in b'
      {
        assert m in a && m != a[0];
      }
      MembersBoundSize(a[1..], b');
    }
  }

  /** The finished table: duplicate-free, exactly the payer, the accounts and the programs,
      every flag the disjunction of the requests, and the payer first and fully privileged. */
  lemma TableIsMerged(payer: PubKey, ixs: seq<Instruction>)
    ensures Merged(Table(payer, ixs), Requests(payer, ixs))
    ensures Table(payer, ixs) != []
    ensures Table(payer, ixs)[0] == AccountMeta(payer, true, true)
  {
    var requests := Requests(payer, ixs);
    var keys := Merge(requests);
    MergeIsMerged(requests);
    MergeKeepsFirst(requests);
    SortKeepsEntries(keys);
    MergedFollowsEntries(keys, SortByRank(keys), requests);
    assert OfRank(keys, 0)[0] == keys[0];
  }

  ghost predicate RankOrdered(keys: seq<AccountMeta>) {
    forall i, j :: 0 <= i < j < |keys| ==> Rank(keys[i]) <= Rank(keys[j])
  }

  lemma OfRankCons(m: AccountMeta, rest: seq<AccountMeta>, r: nat)
    ensures OfRank([m] + rest, r) == if Rank(m) == r then [m] + OfRank(rest, r) else OfRank(rest, r)
  {
    assert ([m] + rest)[1..] == rest;
  }

  lemma {:induction false} OfRankConcat(a: seq<AccountMeta>, b: seq<AccountMeta>, r: nat)
    ensures OfRank(a + b, r) == OfRank(a, r) + OfRank(b, r)
  {
    hide OfRank, Rank;
    if a == [] {
      OfRankEmpty(r);
      assert a + b == b;
    } else {
      var m, rest := a[0], a[1..];
      assert a == [m] + rest && a + b == [m] + (rest + b);
      OfRankConcat(rest, b, r);
      OfRankCons(m, rest, r);
      OfRankCons(m, rest + b, r);
      ConcatAssociates([m], OfRank(rest, r), OfRank(b, r));
    }
  }

  lemma OfRankEmpty(r: nat)
    ensures OfRank([], r) == []
  {
  }

  lemma {:induction false} OfRankUniform(a: seq<AccountMeta>, r: nat, q: nat)
    requires forall i :: 0 <= i < |a| ==> Rank(a[i]) == r
    ensures OfRank(a, q) == if q == r then a else []
  {
    if a != [] {
      OfRankUniform(a[1..], r, q);
    }
  }

  /** The entries of each rank are the same, in the same order. */
  ghost predicate SameGroups(a: seq<AccountMeta>, b: seq<AccountMeta>) {
    && OfRank(a, 0) == OfRank(b, 0) && OfRank(a, 1) == OfRank(b, 1)
    && OfRank(a, 2) == OfRank(b, 2) && OfRank(a, 3) == OfRank(b, 3)
  }

  /** `SortByRank` is the stable sort: rank-ordered, with the entries of each rank in their
      original order, and it is the only sequence that is. */
  lemma SortIsTheStableSort(keys: seq<AccountMeta>, out: seq<AccountMeta>)
    ensures out == SortByRank(keys) <==> RankOrdered(out) && SameGroups(out, keys)
  {
    hide OfRank, RankOrdered;
    SortOrdered(keys);
    if RankOrdered(out) && SameGroups(out, keys) {
      OrderedIsGrouped(out);
    }
  }

  lemma SortOrdered(keys: seq<AccountMeta>)
    ensures RankOrdered(SortByRank(keys))
    ensures SameGroups(SortByRank(keys), keys)
  {
    hide OfRank, Rank;
    var a, b, c, d := OfRank(keys, 0), OfRank(keys, 1), OfRank(keys, 2), OfRank(keys, 3);
    OfRankHasRank(keys, 0);
    OfRankHasRank(keys, 1);
    OfRankHasRank(keys, 2);
    OfRankHasRank(keys, 3);
    var out := a + b + c + d;
    assert forall i :: 0 <= i < |out| ==>
      Rank(out[i]) == if i < |a| then 0 else if i < |a + b| then 1 else if i < |a + b + c| then 2 else 3;
    GroupOfRank(a, b, c, d, 0);
    GroupOfRank(a, b, c, d, 1);
    GroupOfRank(a, b, c, d, 2);
    GroupOfRank(a, b, c, d, 3);
  }

  lemma OfRankHasRank(keys: seq<AccountMeta>, r: nat)
    ensures forall i :: 0 <= i < |OfRank(keys, r)| ==> Rank(OfRank(keys, r)[i]) == r
  {
    OfRankMembers(keys, r);
  }

  lemma GroupOfRank(a: seq<AccountMeta>, b: seq<AccountMeta>, c: seq<AccountMeta>, d: seq<AccountMeta>, r: nat)
    requires forall i :: 0 <= i < |a| ==> Rank(a[i]) == 0
    requires forall i :: 0 <= i < |b| ==> Rank(b[i]) == 1
    requires forall i :: 0 <= i < |c| ==> Rank(c[i]) == 2
    requires forall i :: 0 <= i < |d| ==> Rank(d[i]) == 3
    requires r <= 3
    ensures OfRank(a + b + c + d, r) == if r == 0 then a else if r == 1 then b else if r == 2 then c else d
  {
    hide OfRank, Rank;
    OfRankConcat(a + b + c, d, r);
    OfRankConcat(a + b, c, r);
    OfRankConcat(a, b, r);
    OfRankUniform(a, 0, r);
    OfRankUniform(b, 1, r);
    OfRankUniform(c, 2, r);
    OfRankUniform(d, 3, r);
  }

  lemma {:induction false} NoSmallerRank(keys: seq<AccountMeta>, q: nat, r: nat)
    requires r < q && forall i :: 0 <= i < |keys| ==> q <= Rank(keys[i])
    ensures OfRank(keys, r) == []
  {
    if keys != [] {
      NoSmallerRank(keys[1..], q, r);
    }
  }

  lemma {:induction false} OrderedIsGrouped(out: seq<AccountMeta>)
    requires RankOrdered(out)
    ensures out == SortByRank(out)
  {
    if out != [] {
      var x, tail := out[0], out[1..];
      var q := Rank(x);
      OrderedIsGrouped(tail);
      assert forall i :: 0 <= i < |tail| ==> q <= Rank(tail[i]);
      if q > 0 {
        NoSmallerRank(tail, q, 0);
      }
      if q > 1 {
        NoSmallerRank(tail, q, 1);
      }
      if q > 2 {
        NoSmallerRank(tail, q, 2);
      }
      var g0, g1, g2, g3 := OfRank(tail, 0), OfRank(tail, 1), OfRank(tail, 2), OfRank(tail, 3);
      assert out == [x] + tail;
      PrependGroup(x, g0, g1, g2, g3, q);
    }
  }

  lemma PrependGroup(x: AccountMeta, g0: seq<AccountMeta>, g1: seq<AccountMeta>, g2: seq<AccountMeta>, g3: seq<AccountMeta>, q: nat)
    requires q <= 3
    requires (q > 0 ==> g0 == []) && (q > 1 ==> g1 == []) && (q > 2 ==> g2 == [])
    ensures [x] + (g0 + g1 + g2 + g3) ==
            (if q == 0 then [x] + g0 else g0) + (if q == 1 then [x] + g1 else g1) +
            (if q == 2 then [x] + g2 else g2) + (if q == 3 then [x] + g3 else g3)
  {
  }

  // ------------------------------------------------------------ header counts

  /** The three counts of a message header. */
  datatype Header = Header(signers: nat, readonlySigned: nat, readonlyUnsigned: nat)

  function CountIf(keys: seq<AccountMeta>, p: AccountMeta -> bool): (n: nat)
    ensures n <= |keys|
  {
    if keys == [] then 0 else (if p(keys[0]) then 1 else 0) + CountIf(keys[1..], p)
  }

  predicate IsSigner(m: AccountMeta) { m.signer }

  predicate IsReadonlySigned(m: AccountMeta) { m.signer && !m.writable }

  predicate IsReadonlyUnsigned(m: AccountMeta) { !m.signer && !m.writable }

  /** The counts, before they are cut to a byte each. */
  function HeaderOf(keys: seq<AccountMeta>): Header {
    Header(CountIf(keys, IsSigner), CountIf(keys, IsReadonlySigned), CountIf(keys, IsReadonlyUnsigned))
  }

  /** The counts as the message carries them. */
  function HeaderBytes(h: Header): (bs: Bytes)
    ensures |bs| == 3
  {
    [h.signers % 256, h.readonlySigned % 256, h.readonlyUnsigned % 256]
  }

  function HeaderFromBytes(bs: Bytes): Header
    requires |bs| == 3
  {
    Header(bs[0], bs[1], bs[2])
  }

  /** How a runtime reads the flags of position `i` of `n` from the header alone. */
  predicate HeaderSigner(h: Header, i: nat) {
    i < h.signers
  }

  predicate HeaderWritable(h: Header, i: nat, n: nat) {
    if i < h.signers then i + h.readonlySigned < h.signers else i + h.readonlyUnsigned < n
  }

  lemma {:induction false} CountConcat(a: seq<AccountMeta>, b: seq<AccountMeta>, p: AccountMeta -> bool)
    ensures CountIf(a + b, p) == CountIf(a, p) + CountIf(b, p)
  {
    if a == [] {
      assert a + b == b;
    } else {
      CountConcat(a[1..], b, p);
      assert (a + b)[1..] == a[1..] + b;
    }
  }

  lemma {:induction false} CountUniform(a: seq<AccountMeta>, p: AccountMeta -> bool, holds: bool)
    requires forall i :: 0 <= i < |a| ==> p(a[i]) == holds
    ensures CountIf(a, p) == if holds then |a| else 0
  {
    if a != [] {
      CountUniform(a[1..], p, holds);
    }
  }

  /** Counting a property that only depends on the rank. */
  lemma CountGroups(keys: seq<AccountMeta>, p: AccountMeta -> bool, h0: bool, h1: bool, h2: bool, h3: bool)
    requires forall m: AccountMeta ::
               p(m) == if Rank(m) == 0 then h0 else if Rank(m) == 1 then h1 else if Rank(m) == 2 then h2 else h3
    ensures CountIf(SortByRank(keys), p) ==
      (if h0 then |OfRank(keys, 0)| else 0) + (if h1 then |OfRank(keys, 1)| else 0) +
      (if h2 then |OfRank(keys, 2)| else 0) + (if h3 then |OfRank(keys, 3)| else 0)
  {
    hide OfRank;
    var a, b, c, d := OfRank(keys, 0), OfRank(keys, 1), OfRank(keys, 2), OfRank(keys, 3);
    OfRankHasRank(keys, 0);
    OfRankHasRank(keys, 1);
    OfRankHasRank(keys, 2);
    OfRankHasRank(keys, 3);
    CountConcat(a + b + c, d, p);
    CountConcat(a + b, c, p);
    CountConcat(a, b, p);
    CountUniform(a, p, h0);
    CountUniform(b, p, h1);
    CountUniform(c, p, h2);
    CountUniform(d, p, h3);
  }

  /** The header of a sorted table counts its rank groups. */
  lemma HeaderCountsGroups(keys: seq<AccountMeta>)
    ensures var h := HeaderOf(SortByRank(keys));
            && h.signers == |OfRank(keys, 0)| + |OfRank(keys, 1)|
            && h.readonlySigned == |OfRank(keys, 1)|
            && h.readonlyUnsigned == |OfRank(keys, 3)|
  {
    hide OfRank;
    CountGroups(keys, IsSigner, true, true, false, false);
    CountGroups(keys, IsReadonlySigned, false, true, false, false);
    CountGroups(keys, IsReadonlyUnsigned, false, false, false, true);
  }

  /** Every flag of a sorted table is implied by its position and the three exact counts. */
  lemma CountsRecoverFlags(keys: seq<AccountMeta>, i: nat)
    requires i < |SortByRank(keys)|
    ensures var t := SortByRank(keys); var h := HeaderOf(t);
            && (t[i].signer <==> HeaderSigner(h, i))
            && (t[i].writable <==> HeaderWritable(h, i, |t|))
  {
    HeaderCountsGroups(keys);
    OfRankHasRank(keys, 0);
    OfRankHasRank(keys, 1);
    OfRankHasRank(keys, 2);
    OfRankHasRank(keys, 3);
    hide OfRank, HeaderOf;
    var a, b, c, d := OfRank(keys, 0), OfRank(keys, 1), OfRank(keys, 2), OfRank(keys, 3);
    assert Rank(SortByRank(keys)[i]) ==
      if i < |a| then 0 else if i < |a + b| then 1 else if i < |a + b + c| then 2 else 3;
  }

  ghost predicate HeaderAgrees(h: Header, t: seq<AccountMeta>) {
    forall i: nat :: i < |t| ==>
      && (t[i].signer <==> HeaderSigner(h, i))
      && (t[i].writable <==> HeaderWritable(h, i, |t|))
  }

  /** The one-byte counts of the message recover every key's flags exactly when the signers
      and the readonly non-signers each number at most 255. */
  lemma HeaderBytesRecoverFlagsIff(keys: seq<AccountMeta>)
    ensures var t := SortByRank(keys);
            var h := HeaderOf(t);
            HeaderAgrees(HeaderFromBytes(HeaderBytes(h)), t) <==>
            h.signers <= 255 && h.readonlyUnsigned <= 255
  {
    var t := SortByRank(keys);
    HeaderCountsGroups(keys);
    forall i: nat | i < |t|
      ensures t[i].signer <==> HeaderSigner(HeaderOf(t), i)
      ensures t[i].writable <==> HeaderWritable(HeaderOf(t), i, |t|)
    {
      CountsRecoverFlags(keys, i);
    }
    CutHeaderAgreesIff(HeaderOf(t), t);
  }

  lemma CutHeaderAgreesIff(h: Header, t: seq<AccountMeta>)
    requires HeaderAgrees(h, t)
    requires h.readonlySigned <= h.signers && h.signers + h.readonlyUnsigned <= |t|
    ensures HeaderAgrees(HeaderFromBytes(HeaderBytes(h)), t) <==> h.signers <= 255 && h.readonlyUnsigned <= 255
  {
    var cut := HeaderFromBytes(HeaderBytes(h));
    if h.signers > 255 {
      var i: nat := cut.signers;
      assert HeaderSigner(h, i) && !HeaderSigner(cut, i);
    } else if h.readonlyUnsigned > 255 {
      var i: nat := |t| - h.readonlyUnsigned;
      assert !HeaderWritable(h, i, |t|) && HeaderWritable(cut, i, |t|);
    } else {
      assert cut == h;
    }
  }

  // ------------------------------------------------------------ crowded tables

  /** Distinct keys for the asking. */
  function KeyNumber(i: nat): PubKey {
    LittleEndian(i, 32)
  }

  lemma KeyNumberInjective(i: nat, j: nat)
    requires i < 0x1_0000 && j < 0x1_0000 && KeyNumber(i) == KeyNumber(j)
    ensures i == j
  {
    PowerOf256To32();
    LittleEndianRoundTrip(i, 32);
    LittleEndianRoundTrip(j, 32);
  }

  lemma PowerOf256To32()
    ensures 0x1_0000 <= Power(256, 32)
  {
    assert Power(256, 2) == 0x1_0000;
    Radix.PowerMonotone(256, 2, 32);
  }

  /** An instruction with 257 distinct readonly accounts, all signers or none. */
  function CrowdedInstruction(signer: bool): Instruction {
    Instruction(KeyNumber(1), seq(257, i requires 0 <= i < 257 => AccountMeta(KeyNumber(i + 1), signer, false)), [])
  }

  lemma CrowdIsDistinct(signer: bool)
    ensures var accounts := CrowdedInstruction(signer).accounts;
            DistinctKeys(accounts) && IsUniform(accounts, KeyNumber(0), signer)
  {
    hide KeyNumber;
    var accounts := CrowdedInstruction(signer).accounts;
    forall i, j | 0 <= i < j < 257
      ensures accounts[i].key != accounts[j].key
    {
      if accounts[i].key == accounts[j].key {
        KeyNumberInjective(i + 1, j + 1);
      }
    }
    forall i | 0 <= i < 257
      ensures accounts[i].key != KeyNumber(0)
    {
      if accounts[i].key == KeyNumber(0) {
        KeyNumberInjective(i + 1, 0);
      }
    }
  }

  predicate IsUniform(accounts: seq<AccountMeta>, payer: PubKey, signer: bool) {
    forall i :: 0 <= i < |accounts| ==> accounts[i] == AccountMeta(accounts[i].key, signer, false) && accounts[i].key != payer
  }

  function PlainRequests(payer: PubKey, accounts: seq<AccountMeta>, program: PubKey): seq<AccountMeta> {
    [AccountMeta(payer, true, true)] + accounts + [AccountMeta(program, false, false)]
  }

  lemma OneInstructionRequests(payer: PubKey, ix: Instruction)
    ensures Requests(payer, [ix]) == PlainRequests(payer, ix.accounts, ix.programId)
  {
    assert AccountRequests([ix]) == ix.accounts by {
      assert [ix][..0] == [];
      assert AccountRequests([]) + ix.accounts == ix.accounts;
    }
  }

  /** Accounts that all ask for the same appear in the table just as they asked. */
  lemma UniformMember(t: seq<AccountMeta>, payer: PubKey, accounts: seq<AccountMeta>, program: PubKey, signer: bool, i: nat)
    requires Merged(t, PlainRequests(payer, accounts, program)) && IsUniform(accounts, payer, signer) && i < |accounts|
    ensures accounts[i] in t
  {
    var requests, m := PlainRequests(payer, accounts, program), accounts[i];
    assert requests[i + 1] == m;
    assert HasKey(requests, m.key);
    var at :| 0 <= at < |t| && t[at].key == m.key;
    assert AsksSigner(requests, m.key) <==> signer;
    assert !AsksWritable(requests, m.key);
    assert t[at] == m;
  }

  /** The table of such an instruction has more keys than a byte can index. */
  lemma CrowdedTable(signer: bool)
    ensures var ix := CrowdedInstruction(signer);
            var t := Table(KeyNumber(0), [ix]);
            && DistinctKeys(ix.accounts) && (forall m :: m in ix.accounts ==> m in t)
            && |t| > 256
  {
    hide KeyNumber;
    var payer, ix := KeyNumber(0), CrowdedInstruction(signer);
    var t := Table(payer, [ix]);
    TableIsMerged(payer, [ix]);
    OneInstructionRequests(payer, ix);
    CrowdIsDistinct(signer);
    assert |ix.accounts| == 257;
    hide Table, Requests, CrowdedInstruction, PlainRequests, Merged, IsUniform, DistinctKeys;
    forall i | 0 <= i < |ix.accounts|
      ensures ix.accounts[i] in t
    {
      UniformMember(t, payer, ix.accounts, ix.programId, signer, i);
    }
    MembersBoundSize(ix.accounts, t);
  }

  /** And its header overflows a byte: 257 or more signers, or as many readonly non-signers, so the
      one-byte counts no longer give the flags. */
  lemma CrowdedHeader(signer: bool)
    ensures var t := Table(KeyNumber(0), [CrowdedInstruction(signer)]);
            var h := HeaderOf(t);
            && (if signer then h.signers > 256 else h.readonlyUnsigned > 256)
            && !HeaderAgrees(HeaderFromBytes(HeaderBytes(h)), t)
  {
    var accounts := CrowdedInstruction(signer).accounts;
    var keys := Merge(Requests(KeyNumber(0), [CrowdedInstruction(signer)]));
    CrowdedTable(signer);
    HeaderCountsGroups(keys);
    HeaderBytesRecoverFlagsIff(keys);
    hide HeaderOf, HeaderAgrees, OfRank, KeyNumber, Merge, Requests;
    var r := if signer then 1 else 3;
    OfRankMembers(keys, 0);
    OfRankMembers(keys, 1);
    OfRankMembers(keys, 2);
    OfRankMembers(keys, 3);
    assert forall m :: m in accounts ==> m in OfRank(keys, r);
    MembersBoundSize(accounts, OfRank(keys, r));
  }
}
