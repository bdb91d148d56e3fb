/** Net token balance changes per owner (`mint_deltas` in `patala-solana/src/lib.rs`) and the
    demand `verify` makes of them, stated through exact per-owner totals. */
module Balances {
  import opened Prelude
  import opened Decimal
  import opened Radix

  /** One entry of a `preTokenBalances` or `postTokenBalances` array; a missing or
      ill-typed JSON field is `None`. */
  datatype TokenBalance = TokenBalance(mint: Option<string>, owner: Option<string>, amount: Option<string>)

  datatype BalanceError = NoOwner | NoAmount | NotAnInteger

  type Deltas = seq<(string, int)>

  /** i128 arithmetic of a release build. */
  function Wrap(x: int): (w: int)
    ensures -I128_MAX - 1 <= w <= I128_MAX
    ensures -I128_MAX - 1 <= x <= I128_MAX ==> w == x
  {
    (x + I128_MAX + 1) % (2 * (I128_MAX + 1)) - (I128_MAX + 1)
  }

  function Signed(negate: bool, x: int): int {
    if negate then -x else x
  }

  /** Owner and amount of an entry that counts. */
  function EntryAmount(e: TokenBalance): Result<(string, int), BalanceError> {
    if e.owner.None? then Err(NoOwner)
    else if e.amount.None? then Err(NoAmount)
    else match ParseI128(e.amount.value)
      case None => Err(NotAnInteger)
      case Some(n) => Ok((e.owner.value, n))
  }

  /** First position of an owner; the length if absent. */
  function OwnerIndex(ds: Deltas, owner: string): (i: nat)
    ensures i <= |ds| && (i < |ds| ==> ds[i].0 == owner)
    ensures forall j :: 0 <= j < i ==> ds[j].0 != owner
  {
    if ds == [] || ds[0].0 == owner then 0 else 1 + OwnerIndex(ds[1..], owner)
  }

  /** `deltas.iter().find(..).map(..).unwrap_or(0)` */
  function Lookup(ds: Deltas, owner: string): int {
    var i := OwnerIndex(ds, owner);
    if i < |ds| then ds[i].1 else 0
  }

  /** Add to the owner's delta, or start one. */
  function Bump(ds: Deltas, owner: string, d: int): Deltas {
    var i := OwnerIndex(ds, owner);
    if i < |ds| then ds[i := (owner, Wrap(ds[i].1 + d))] else ds + [(owner, d)]
  }

  /** The closure `apply`: entries of other mints are skipped, the first bad entry stops. */
  function Apply(ds: Deltas, list: seq<TokenBalance>, mint: string, negate: bool): Result<Deltas, BalanceError>
    decreases list
  {
    if list == [] then Ok(ds)
    else if list[0].mint != Some(mint) then Apply(ds, list[1..], mint, negate)
    else
      var (owner, n) :- EntryAmount(list[0]);
      Apply(Bump(ds, owner, Wrap(Signed(negate, n))), list[1..], mint, negate)
  }

  function MintDeltas(pre: seq<TokenBalance>, post: seq<TokenBalance>, mint: string): Result<Deltas, BalanceError> {
    var ds :- Apply([], pre, mint, true);
    Apply(ds, post, mint, false)
  }

  /** One of the two passes of `mint_deltas`, with its mutable accumulator. */
  method ApplyBalances(ds: Deltas, list: seq<TokenBalance>, mint: string, negate: bool)
    returns (r: Result<Deltas, BalanceError>)
    ensures r == Apply(ds, list, mint, negate)
  {
    var acc := ds;
    var i := 0;
    while i < |list|
      invariant 0 <= i <= |list|
      invariant Apply(acc, list[i..], mint, negate) == Apply(ds, list, mint, negate)
    {
      assert list[i..][1..] == list[i + 1..];
      if list[i].mint == Some(mint) {
        var entry := EntryAmount(list[i]);
        if entry.Err? {
          return Err(entry.error);
        }
        acc := Bump(acc, entry.value.0, Wrap(Signed(negate, entry.value.1)));
      }
      i := i + 1;
    }
    return Ok(acc);
  }

  /** `mint_deltas` */
  method ComputeMintDeltas(pre: seq<TokenBalance>, post: seq<TokenBalance>, mint: string)
    returns (r: Result<Deltas, BalanceError>)
    ensures r == MintDeltas(pre, post, mint)
  {
    var empty: Deltas := [];
    r := ApplyBalances(empty, pre, mint, true);
    if r.Ok? {
      r := ApplyBalances(r.value, post, mint, false);
    }
  }

  /** The three checks at the end of `verify`, in order. */
  predicate MoneyMatches(ds: Deltas, dest: string, payer: string, amount: int) {
    && Lookup(ds, dest) == amount
    && Lookup(ds, payer) == -amount
    && forall i :: 0 <= i < |ds| ==> ds[i].1 == 0 || ds[i].0 == dest || ds[i].0 == payer
  }

  // ------------------------------------------------------------ exact totals

  predicate CountsFor(e: TokenBalance, mint: string) {
    e.mint == Some(mint)
  }

  /** Every entry of the mint names an owner and an integer amount. */
  predicate WellFormed(list: seq<TokenBalance>, mint: string) {
    forall i :: 0 <= i < |list| && CountsFor(list[i], mint) ==> EntryAmount(list[i]).Ok?
  }

  /** What one entry contributes to an owner's total. */
  function Share(e: TokenBalance, mint: string, owner: string): int {
    if CountsFor(e, mint) && EntryAmount(e).Ok? && EntryAmount(e).value.0 == owner then EntryAmount(e).value.1 else 0
  }

  /** The exact sum of an owner's entries for a mint. */
  function Total(list: seq<TokenBalance>, mint: string, owner: string): int {
    if list == [] then 0 else Share(list[0], mint, owner) + Total(list[1..], mint, owner)
  }

  /** The exact change of an owner's total. */
  function Net(pre: seq<TokenBalance>, post: seq<TokenBalance>, mint: string, owner: string): int {
    Total(post, mint, owner) - Total(pre, mint, owner)
  }

  ghost predicate DistinctOwners(ds: Deltas) {
    forall i, j :: 0 <= i < j < |ds| ==> ds[i].0 != ds[j].0
  }

  ghost predicate InRange(ds: Deltas) {
    forall i :: 0 <= i < |ds| ==> -I128_MAX - 1 <= ds[i].1 <= I128_MAX
  }

  /** The wrapped value is the one congruent number in range. */
  lemma WrapUnique(x: int, w: int, k: int)
    requires -I128_MAX - 1 <= w <= I128_MAX && x == w + 2 * (I128_MAX + 1) * k
    ensures Wrap(x) == w
  {
    var m, y := 2 * (I128_MAX + 1), x + I128_MAX + 1;
    assert y == y / m * m + y % m;
    QuotientUnique(y / m, y % m, k, w + I128_MAX + 1, m);
  }

  lemma WrapShift(x: int) returns (k: int)
    ensures x == Wrap(x) + 2 * (I128_MAX + 1) * k
  {
    k := (x + I128_MAX + 1) / (2 * (I128_MAX + 1));
  }

  lemma WrapAdd(a: int, b: int)
    ensures Wrap(Wrap(a) + b) == Wrap(a + b) && Wrap(a + Wrap(b)) == Wrap(a + b)
  {
    hide Wrap;
    var i := WrapShift(a);
    var j := WrapShift(b);
    var k := WrapShift(a + b);
    WrapUnique(Wrap(a) + b, Wrap(a + b), k - i);
    WrapUnique(a + Wrap(b), Wrap(a + b), k - j);
  }

  lemma OwnerIndexOf(ds: Deltas, i: nat)
    requires DistinctOwners(ds) && i < |ds|
    ensures Lookup(ds, ds[i].0) == ds[i].1
  {
    var j := OwnerIndex(ds, ds[i].0);
    assert j == i;
  }

  lemma LookupAbsent(ds: Deltas, owner: string)
    requires forall i :: 0 <= i < |ds| ==> ds[i].0 != owner
    ensures Lookup(ds, owner) == 0
  {
  }

  lemma BumpLookup(ds: Deltas, who: string, d: int, owner: string)
    requires DistinctOwners(ds) && InRange(ds) && -I128_MAX - 1 <= d <= I128_MAX
    ensures DistinctOwners(Bump(ds, who, d)) && InRange(Bump(ds, who, d))
    ensures Lookup(Bump(ds, who, d), owner) == Wrap(Lookup(ds, owner) + if owner == who then d else 0)
  {
    hide OwnerIndex, Wrap;
    var out := Bump(ds, who, d);
    var at := OwnerIndex(ds, who);
    assert out[at].0 == who;
    if owner == who {
      OwnerIndexOf(out, at);
    } else {
      var j := OwnerIndex(ds, owner);
      if j < |ds| {
        assert out[j] == ds[j];
        OwnerIndexOf(out, j);
      } else {
        LookupAbsent(out, owner);
      }
    }
  }

  /** One pass adds the exact totals, modulo 2^128, and fails exactly on ill-formed lists. */
  lemma {:induction false} ApplyAddsTotals(ds: Deltas, list: seq<TokenBalance>, mint: string, negate: bool, owner: string)
    requires DistinctOwners(ds) && InRange(ds)
    ensures Apply(ds, list, mint, negate).Ok? <==> WellFormed(list, mint)
    ensures Apply(ds, list, mint, negate).Ok? ==>
              var out := Apply(ds, list, mint, negate).value;
              && DistinctOwners(out) && InRange(out)
              && Lookup(out, owner) == Wrap(Lookup(ds, owner) + Signed(negate, Total(list, mint, owner)))
    decreases list
  {
    hide EntryAmount, Bump, Wrap, OwnerIndex;
    if list == [] {
      LookupInRange(ds, owner);
    } else {
      WellFormedStep(list, mint);
      if !CountsFor(list[0], mint) {
        ApplyAddsTotals(ds, list[1..], mint, negate, owner);
      } else if EntryAmount(list[0]).Ok? {
        var (who, n) := EntryAmount(list[0]).value;
        var d := Wrap(Signed(negate, n));
        BumpLookup(ds, who, d, owner);
        ApplyAddsTotals(Bump(ds, who, d), list[1..], mint, negate, owner);
        WrapChain(Lookup(ds, owner), Signed(negate, n), Signed(negate, Total(list[1..], mint, owner)));
        WrapChain(Lookup(ds, owner), 0, Signed(negate, Total(list[1..], mint, owner)));
      }
    }
  }

  lemma WrapChain(a: int, b: int, c: int)
    ensures Wrap(Wrap(a + Wrap(b)) + c) == Wrap(a + (b + c))
    ensures Wrap(0) == 0
  {
    WrapAdd(a, b);
    WrapAdd(a + b, c);
  }

  lemma LookupInRange(ds: Deltas, owner: string)
    requires InRange(ds)
    ensures Wrap(Lookup(ds, owner)) == Lookup(ds, owner)
  {
  }

  lemma WellFormedStep(list: seq<TokenBalance>, mint: string)
    requires list != []
    ensures WellFormed(list, mint) <==>
            (CountsFor(list[0], mint) ==> EntryAmount(list[0]).Ok?) && WellFormed(list[1..], mint)
  {
    hide EntryAmount;
    assert forall i :: 0 < i < |list| ==> list[i] == list[1..][i - 1];
    assert forall i :: 0 <= i < |list[1..]| ==> list[1..][i] == list[i + 1];
  }

  /** `mint_deltas` succeeds exactly on well-formed lists, and then every owner's delta is the
      exact change of that owner's total modulo 2^128. */
  lemma MintDeltasAreNet(pre: seq<TokenBalance>, post: seq<TokenBalance>, mint: string, owner: string)
    ensures MintDeltas(pre, post, mint).Ok? <==> WellFormed(pre, mint) && WellFormed(post, mint)
    ensures MintDeltas(pre, post, mint).Ok? ==>
              && DistinctOwners(MintDeltas(pre, post, mint).value)
              && InRange(MintDeltas(pre, post, mint).value)
              && Lookup(MintDeltas(pre, post, mint).value, owner) == Wrap(Net(pre, post, mint, owner))
  {
    hide Wrap, WellFormed, OwnerIndex;
    var empty: Deltas := [];
    ApplyAddsTotals(empty, pre, mint, true, owner);
    LookupAbsent(empty, owner);
    if WellFormed(pre, mint) {
      ApplyAddsTotals(Apply(empty, pre, mint, true).value, post, mint, false, owner);
      WrapAdd(-Total(pre, mint, owner), Total(post, mint, owner));
    }
  }

  /** What the money demand means: the payer's total falls by the amount, the destination's
      rises by it, and nobody else's moves. */
  ghost predicate Settles(pre: seq<TokenBalance>, post: seq<TokenBalance>, mint: string, dest: string, payer: string, amount: int) {
    && Wrap(Net(pre, post, mint, dest)) == amount
    && Wrap(Net(pre, post, mint, payer)) == -amount
    && forall o: string :: o != dest && o != payer ==> Wrap(Net(pre, post, mint, o)) == 0
  }

  /** On well-formed lists the three checks hold if and only if the totals settle. */
  lemma MoneyMatchesIffSettles(pre: seq<TokenBalance>, post: seq<TokenBalance>, mint: string, dest: string, payer: string, amount: int)
    requires WellFormed(pre, mint) && WellFormed(post, mint)
    ensures MintDeltas(pre, post, mint).Ok?
    ensures MoneyMatches(MintDeltas(pre, post, mint).value, dest, payer, amount) <==>
            Settles(pre, post, mint, dest, payer, amount)
  {
    hide Wrap, MintDeltas, Net, WellFormed, Lookup;
    MintDeltasAreNet(pre, post, mint, dest);
    MintDeltasAreNet(pre, post, mint, payer);
    var ds := MintDeltas(pre, post, mint).value;
    forall o: string
      ensures Lookup(ds, o) == Wrap(Net(pre, post, mint, o))
    {
      MintDeltasAreNet(pre, post, mint, o);
    }
    OthersStill(ds, dest, payer);
  }

  lemma OthersStill(ds: Deltas, dest: string, payer: string)
    requires DistinctOwners(ds)
    ensures (forall i :: 0 <= i < |ds| ==> ds[i].1 == 0 || ds[i].0 == dest || ds[i].0 == payer) <==>
            (forall o: string :: o != dest && o != payer ==> Lookup(ds, o) == 0)
  {
    hide OwnerIndex;
    forall i | 0 <= i < |ds|
      ensures Lookup(ds, ds[i].0) == ds[i].1
    {
      OwnerIndexOf(ds, i);
    }
  }

  // ------------------------------------------------------------ the same in the fields of the report

  /** The entry names an owner, and its amount spells the number. */
  ghost predicate Reports(e: TokenBalance, owner: string, n: int) {
    e.owner == Some(owner) && e.amount.Some? && SpellsI128(e.amount.value, n)
  }

  /** What is wrong with an entry. */
  ghost predicate HasFault(e: TokenBalance, c: BalanceError) {
    match c
    case NoOwner => e.owner == None
    case NoAmount => e.owner.Some? && e.amount == None
    case NotAnInteger => e.owner.Some? && e.amount.Some? && forall n: int :: !SpellsI128(e.amount.value, n)
  }

  /** Every entry of the mint names an owner and spells an amount. */
  ghost predicate AllReadable(list: seq<TokenBalance>, mint: string) {
    forall i: nat :: i < |list| && list[i].mint == Some(mint) ==> Readable(list[i])
  }

  ghost predicate Readable(e: TokenBalance) {
    exists owner: string, n: int :: Reports(e, owner, n)
  }

  /** The first entry of the mint that cannot be read has this fault. */
  ghost predicate FirstFault(list: seq<TokenBalance>, mint: string, c: BalanceError) {
    exists i: nat :: i < |list| && list[i].mint == Some(mint) && HasFault(list[i], c) && AllReadable(list[..i], mint)
  }

  /** The numbers agree modulo 2^128. */
  predicate Congruent(x: int, y: int) {
    (x - y) % 0x1_0000_0000_0000_0000_0000_0000_0000_0000 == 0
  }

  lemma EntryIff(e: TokenBalance, owner: string, n: int, c: BalanceError)
    ensures EntryAmount(e) == Ok((owner, n)) <==> Reports(e, owner, n)
    ensures EntryAmount(e) == Err(c) <==> HasFault(e, c)
    ensures EntryAmount(e).Ok? <==> Readable(e)
  {
    hide ParseI128, SpellsI128;
    if e.amount.Some? {
      forall m: int
        ensures ParseI128(e.amount.value) == Some(m) <==> SpellsI128(e.amount.value, m)
      {
        ParseI128Iff(e.amount.value, m);
      }
      var parsed := ParseI128(e.amount.value);
      if e.owner.Some? && parsed.Some? {
        assert Reports(e, e.owner.value, parsed.value);
      }
    }
  }

  /** What an entry adds to an owner's total: the amount it spells if it is of the mint and names
      that owner, and nothing otherwise. */
  lemma ShareIff(e: TokenBalance, mint: string, owner: string, n: int)
    ensures e.mint == Some(mint) && Reports(e, owner, n) ==> Share(e, mint, owner) == n
    ensures Share(e, mint, owner) == n != 0 ==> e.mint == Some(mint) && Reports(e, owner, n)
  {
    hide EntryAmount, Reports;
    EntryIff(e, owner, n, NoOwner);
  }

  lemma WellFormedIff(list: seq<TokenBalance>, mint: string)
    ensures WellFormed(list, mint) <==> AllReadable(list, mint)
  {
    hide EntryAmount, Readable;
    forall e: TokenBalance
      ensures EntryAmount(e).Ok? <==> Readable(e)
    {
      EntryIff(e, "", 0, NoOwner);
    }
  }

  lemma {:induction false} ApplyFault(ds: Deltas, list: seq<TokenBalance>, mint: string, negate: bool, c: BalanceError)
    ensures Apply(ds, list, mint, negate) == Err(c) <==> FirstFault(list, mint, c)
    ensures Apply(ds, list, mint, negate).Ok? ==> AllReadable(list, mint)
    decreases list
  {
    hide EntryAmount, Bump, Wrap, HasFault, Readable;
    if list != [] {
      EntryIff(list[0], "", 0, c);
      FirstFaultStep(list, mint, c);
      if list[0].mint != Some(mint) {
        ApplyFault(ds, list[1..], mint, negate, c);
      } else if EntryAmount(list[0]).Ok? {
        var (who, n) := EntryAmount(list[0]).value;
        ApplyFault(Bump(ds, who, Wrap(Signed(negate, n))), list[1..], mint, negate, c);
      }
    }
  }

  lemma FirstFaultStep(list: seq<TokenBalance>, mint: string, c: BalanceError)
    requires list != []
    ensures AllReadable(list, mint) <==> (list[0].mint == Some(mint) ==> Readable(list[0])) && AllReadable(list[1..], mint)
    ensures FirstFault(list, mint, c) <==>
            || (list[0].mint == Some(mint) && HasFault(list[0], c))
            || ((list[0].mint == Some(mint) ==> Readable(list[0])) && FirstFault(list[1..], mint, c))
  {
    hide Readable, HasFault, AllReadable, FirstFault;
    ReadableStep(list, mint);
    if FirstFault(list, mint, c) {
      FaultStepForth(list, mint, c);
    }
    FaultStepBack(list, mint, c);
  }

  lemma ReadableStep(list: seq<TokenBalance>, mint: string)
    requires list != []
    ensures AllReadable(list, mint) <==> (list[0].mint == Some(mint) ==> Readable(list[0])) && AllReadable(list[1..], mint)
  {
    hide Readable;
    assert forall i: nat :: 0 < i < |list| ==> list[i] == list[1..][i - 1];
    assert forall i: nat :: i < |list[1..]| ==> list[1..][i] == list[i + 1];
  }

  lemma FaultStepForth(list: seq<TokenBalance>, mint: string, c: BalanceError)
    requires list != [] && FirstFault(list, mint, c)
    ensures || (list[0].mint == Some(mint) && HasFault(list[0], c))
            || ((list[0].mint == Some(mint) ==> Readable(list[0])) && FirstFault(list[1..], mint, c))
  {
    hide Readable, HasFault, AllReadable;
    var i: nat :| i < |list| && list[i].mint == Some(mint) && HasFault(list[i], c) && AllReadable(list[..i], mint);
    if i > 0 {
      ReadableStep(list[..i], mint);
      assert list[..i][1..] == list[1..][..i - 1];
      assert list[1..][i - 1] == list[i];
    }
  }

  lemma FaultStepBack(list: seq<TokenBalance>, mint: string, c: BalanceError)
    requires list != []
    ensures list[0].mint == Some(mint) && HasFault(list[0], c) ==> FirstFault(list, mint, c)
    ensures (list[0].mint == Some(mint) ==> Readable(list[0])) && FirstFault(list[1..], mint, c) ==> FirstFault(list, mint, c)
  {
    hide Readable, HasFault;
    assert AllReadable(list[..0], mint);
    if (list[0].mint == Some(mint) ==> Readable(list[0])) && FirstFault(list[1..], mint, c) {
      hide AllReadable;
      var i: nat :| i < |list[1..]| && list[1..][i].mint == Some(mint) && HasFault(list[1..][i], c) && AllReadable(list[1..][..i], mint);
      ReadableStep(list[..i + 1], mint);
      assert list[..i + 1][1..] == list[1..][..i];
      assert list[1..][i] == list[i + 1];
    }
  }

  /** `mint_deltas` reports the fault of the first entry it cannot read, before the payment first. */
  lemma DeltasFaultIff(pre: seq<TokenBalance>, post: seq<TokenBalance>, mint: string, c: BalanceError)
    ensures MintDeltas(pre, post, mint) == Err(c) <==>
            FirstFault(pre, mint, c) || (AllReadable(pre, mint) && FirstFault(post, mint, c))
  {
    hide Apply, FirstFault, AllReadable;
    var empty: Deltas := [];
    ApplyFault(empty, pre, mint, true, c);
    var first := Apply(empty, pre, mint, true);
    if first.Ok? {
      ApplyFault(first.value, post, mint, false, c);
    } else {
      WellFormedIff(pre, mint);
      ApplyFault(empty, pre, mint, true, first.error);
      NotBoth(pre, mint, first.error);
    }
  }

  lemma NotBoth(list: seq<TokenBalance>, mint: string, c: BalanceError)
    requires FirstFault(list, mint, c)
    ensures !AllReadable(list, mint)
  {
    hide HasFault, Readable;
    var i: nat :| i < |list| && list[i].mint == Some(mint) && HasFault(list[i], c) && AllReadable(list[..i], mint);
    EntryIff(list[i], "", 0, c);
  }

  /** Settlement, with the machine arithmetic written as congruence. */
  lemma SettlesIff(pre: seq<TokenBalance>, post: seq<TokenBalance>, mint: string, dest: string, payer: string, amount: int)
    requires 0 <= amount < U64_BOUND
    ensures Settles(pre, post, mint, dest, payer, amount) <==>
            && Congruent(Net(pre, post, mint, dest), amount)
            && Congruent(Net(pre, post, mint, payer), -amount)
            && forall o: string :: o != dest && o != payer ==> Congruent(Net(pre, post, mint, o), 0)
  {
    hide Net, Wrap, Congruent;
    forall x: int, w: int | -U64_BOUND < w < U64_BOUND
      ensures Wrap(x) == w <==> Congruent(x, w)
    {
      WrapCongruent(x, w);
    }
  }

  lemma WrapCongruent(x: int, w: int)
    requires -U64_BOUND < w < U64_BOUND
    ensures Wrap(x) == w <==> Congruent(x, w)
  {
    var m := 0x1_0000_0000_0000_0000_0000_0000_0000_0000;
    if Wrap(x) == w {
      var k := WrapShift(x);
      assert x - w == m * k + 0;
      var q := (x - w) / m;
      assert x - w == q * m + (x - w) % m;
      QuotientUnique(q, (x - w) % m, k, 0, m);
    }
    if Congruent(x, w) {
      WrapUnique(x, w, (x - w) / m);
    }
  }

  // ------------------------------------------------------------ invariance and conservation

  /** Two reports of balances in which every owner's total changes by the same amount. */
  ghost predicate SameNets(pre: seq<TokenBalance>, post: seq<TokenBalance>, pre': seq<TokenBalance>, post': seq<TokenBalance>, mint: string) {
    forall o: string :: Net(pre, post, mint, o) == Net(pre', post', mint, o)
  }

  /** The money demand sees the entries only through the net changes. */
  lemma SameNetsSameVerdict(pre: seq<TokenBalance>, post: seq<TokenBalance>, pre': seq<TokenBalance>, post': seq<TokenBalance>,
                            mint: string, dest: string, payer: string, amount: int)
    requires WellFormed(pre, mint) && WellFormed(post, mint) && WellFormed(pre', mint) && WellFormed(post', mint)
    requires SameNets(pre, post, pre', post', mint)
    ensures MintDeltas(pre, post, mint).Ok? && MintDeltas(pre', post', mint).Ok?
    ensures MoneyMatches(MintDeltas(pre, post, mint).value, dest, payer, amount) <==>
            MoneyMatches(MintDeltas(pre', post', mint).value, dest, payer, amount)
  {
    hide MintDeltas, MoneyMatches, Net, WellFormed, Wrap;
    MoneyMatchesIffSettles(pre, post, mint, dest, payer, amount);
    MoneyMatchesIffSettles(pre', post', mint, dest, payer, amount);
  }

  lemma {:induction false} TotalConcat(a: seq<TokenBalance>, b: seq<TokenBalance>, mint: string, owner: string)
    ensures Total(a + b, mint, owner) == Total(a, mint, owner) + Total(b, mint, owner)
  {
    hide Share;
    if a == [] {
      assert a + b == b;
    } else {
      TotalConcat(a[1..], b, mint, owner);
      assert (a + b)[1..] == a[1..] + b;
    }
  }

  lemma RemoveOne(a: seq<TokenBalance>, b: seq<TokenBalance>, i: nat)
    requires a != [] && i < |b| && b[i] == a[0] && multiset(a) == multiset(b)
    ensures multiset(a[1..]) == multiset(b[..i] + b[i + 1..])
  {
    var front, back := b[..i], b[i + 1..];
    assert b == front + [a[0]] + back;
    assert a == [a[0]] + a[1..];
    assert multiset(b) == multiset(front) + multiset{a[0]} + multiset(back);
    assert multiset(a) == multiset{a[0]} + multiset(a[1..]);
    assert multiset(front + back) == multiset(front) + multiset(back);
    assert multiset(a) - multiset{a[0]} == multiset(a[1..]);
    assert multiset(b) - multiset{a[0]} == multiset(front) + multiset(back);
  }

  /** Totals do not depend on the order of the entries. */
  lemma {:induction false} TotalOfPermutation(a: seq<TokenBalance>, b: seq<TokenBalance>, mint: string, owner: string)
    requires multiset(a) == multiset(b)
    ensures Total(a, mint, owner) == Total(b, mint, owner)
    decreases a
  {
    hide Share;
    if a == [] {
      assert |b| == |multiset(b)| == 0;
    } else {
      assert a[0] in multiset(b);
      var i :| 0 <= i < |b| && b[i] == a[0];
      var front, back := b[..i], b[i + 1..];
      assert b == front + ([a[0]] + back);
      assert a == [a[0]] + a[1..];
      RemoveOne(a, b, i);
      TotalOfPermutation(a[1..], front + back, mint, owner);
      TotalConcat(front, back, mint, owner);
      TotalConcat(front, [a[0]] + back, mint, owner);
      assert ([a[0]] + back)[1..] == back;
    }
  }

  /** Nor on whether an owner's balance is reported in one entry or in two. */
  lemma TotalOfSplit(a: seq<TokenBalance>, whole: TokenBalance, x: TokenBalance, y: TokenBalance, b: seq<TokenBalance>, mint: string, owner: string)
    requires CountsFor(whole, mint) && CountsFor(x, mint) && CountsFor(y, mint)
    requires EntryAmount(whole).Ok? && EntryAmount(x).Ok? && EntryAmount(y).Ok?
    requires EntryAmount(x).value.0 == EntryAmount(y).value.0 == EntryAmount(whole).value.0
    requires EntryAmount(x).value.1 + EntryAmount(y).value.1 == EntryAmount(whole).value.1
    ensures Total(a + [x, y] + b, mint, owner) == Total(a + [whole] + b, mint, owner)
  {
    hide EntryAmount;
    TotalConcat(a + [x, y], b, mint, owner);
    TotalConcat(a, [x, y], mint, owner);
    TotalConcat(a + [whole], b, mint, owner);
    TotalConcat(a, [whole], mint, owner);
    assert [x, y][1..] == [y] && [y][1..] == [] && [whole][1..] == [];
    assert Total([y], mint, owner) == Share(y, mint, owner);
    assert Total([x, y], mint, owner) == Share(x, mint, owner) + Total([y], mint, owner);
  }

  /** Two reports of one side that agree on being well formed and on every owner's total. */
  ghost predicate SameTotals(a: seq<TokenBalance>, b: seq<TokenBalance>, mint: string) {
    && (WellFormed(a, mint) <==> WellFormed(b, mint))
    && forall o: string :: Total(a, mint, o) == Total(b, mint, o)
  }

  lemma PermutationSameTotals(a: seq<TokenBalance>, b: seq<TokenBalance>, mint: string)
    requires multiset(a) == multiset(b)
    ensures SameTotals(a, b, mint)
  {
    hide EntryAmount, Total;
    assert forall e :: e in a <==> e in multiset(a);
    assert forall e :: e in b <==> e in multiset(b);
    assert WellFormed(a, mint) <==> forall e :: e in a && CountsFor(e, mint) ==> EntryAmount(e).Ok?;
    assert WellFormed(b, mint) <==> forall e :: e in b && CountsFor(e, mint) ==> EntryAmount(e).Ok?;
    forall o: string
      ensures Total(a, mint, o) == Total(b, mint, o)
    {
      TotalOfPermutation(a, b, mint, o);
    }
  }

  /** `b` reports one entry of `a` as two entries of the same owner with the same sum. */
  ghost predicate SplitsEntry(a: seq<TokenBalance>, b: seq<TokenBalance>, mint: string) {
    exists front, whole, x, y, back :: SplitsAs(a, b, mint, front, whole, x, y, back)
  }

  predicate SplitsAs(a: seq<TokenBalance>, b: seq<TokenBalance>, mint: string, front: seq<TokenBalance>,
                     whole: TokenBalance, x: TokenBalance, y: TokenBalance, back: seq<TokenBalance>) {
    && a == front + [whole] + back && b == front + [x, y] + back
    && CountsFor(whole, mint) && CountsFor(x, mint) && CountsFor(y, mint)
    && EntryAmount(whole).Ok? && EntryAmount(x).Ok? && EntryAmount(y).Ok?
    && EntryAmount(x).value.0 == EntryAmount(y).value.0 == EntryAmount(whole).value.0
    && EntryAmount(x).value.1 + EntryAmount(y).value.1 == EntryAmount(whole).value.1
  }

  lemma SplitSameTotals(a: seq<TokenBalance>, b: seq<TokenBalance>, mint: string)
    requires SplitsEntry(a, b, mint)
    ensures SameTotals(a, b, mint)
  {
    hide EntryAmount, Total;
    var front, whole, x, y, back :| SplitsAs(a, b, mint, front, whole, x, y, back);
    forall o: string
      ensures Total(a, mint, o) == Total(b, mint, o)
    {
      TotalOfSplit(front, whole, x, y, back, mint, o);
    }
    WellFormedConcat(front + [whole], back, mint);
    WellFormedConcat(front, [whole], mint);
    WellFormedConcat(front + [x, y], back, mint);
    WellFormedConcat(front, [x, y], mint);
  }

  lemma WellFormedConcat(a: seq<TokenBalance>, b: seq<TokenBalance>, mint: string)
    ensures WellFormed(a + b, mint) <==> WellFormed(a, mint) && WellFormed(b, mint)
  {
    hide EntryAmount;
    assert forall i :: 0 <= i < |a| ==> (a + b)[i] == a[i];
    assert forall i :: 0 <= i < |b| ==> (a + b)[|a| + i] == b[i];
  }

  /** The sum over all owners. */
  function GrandTotal(list: seq<TokenBalance>, mint: string): int {
    if list == [] then 0
    else (if CountsFor(list[0], mint) && EntryAmount(list[0]).Ok? then EntryAmount(list[0]).value.1 else 0)
         + GrandTotal(list[1..], mint)
  }

  function SumOf(ds: Deltas): int {
    if ds == [] then 0 else ds[0].1 + SumOf(ds[1..])
  }

  lemma {:induction false} SumUpdate(ds: Deltas, i: nat, d: (string, int))
    requires i < |ds|
    ensures SumOf(ds[i := d]) == SumOf(ds) - ds[i].1 + d.1
  {
    if i > 0 {
      SumUpdate(ds[1..], i - 1, d);
      assert ds[i := d][1..] == ds[1..][i - 1 := d];
    }
  }

  lemma {:induction false} SumAppend(ds: Deltas, d: (string, int))
    ensures SumOf(ds + [d]) == SumOf(ds) + d.1
  {
    if ds != [] {
      SumAppend(ds[1..], d);
      assert (ds + [d])[1..] == ds[1..] + [d];
    }
  }

  lemma BumpSum(ds: Deltas, who: string, d: int)
    ensures Wrap(SumOf(Bump(ds, who, d))) == Wrap(SumOf(ds) + d)
  {
    hide Wrap, OwnerIndex, SumOf;
    var i := OwnerIndex(ds, who);
    if i < |ds| {
      SumUpdate(ds, i, (who, Wrap(ds[i].1 + d)));
      WrapAdd(SumOf(ds) - ds[i].1, ds[i].1 + d);
    } else {
      SumAppend(ds, (who, d));
    }
  }

  lemma {:induction false} ApplySum(ds: Deltas, list: seq<TokenBalance>, mint: string, negate: bool)
    requires Apply(ds, list, mint, negate).Ok?
    ensures Wrap(SumOf(Apply(ds, list, mint, negate).value)) == Wrap(SumOf(ds) + Signed(negate, GrandTotal(list, mint)))
    decreases list
  {
    hide Wrap, Bump, EntryAmount, SumOf;
    if list != [] {
      if !CountsFor(list[0], mint) {
        ApplySum(ds, list[1..], mint, negate);
      } else {
        var (who, n) := EntryAmount(list[0]).value;
        var d := Wrap(Signed(negate, n));
        var rest := Signed(negate, GrandTotal(list[1..], mint));
        BumpSum(ds, who, d);
        ApplySum(Bump(ds, who, d), list[1..], mint, negate);
        WrapAdd(SumOf(Bump(ds, who, d)), rest);
        WrapAdd(SumOf(ds) + d, rest);
        WrapAdd(SumOf(ds) + rest, Signed(negate, n));
      }
    }
  }

  /** Deltas that match a positive payment cancel out. */
  lemma {:induction false} MatchingSum(ds: Deltas, dest: string, payer: string, amount: int)
    requires DistinctOwners(ds) && dest != payer
    requires forall i :: 0 <= i < |ds| ==> ds[i].1 == 0 || ds[i].0 == dest || ds[i].0 == payer
    ensures SumOf(ds) == Lookup(ds, dest) + Lookup(ds, payer)
  {
    if ds != [] {
      MatchingSum(ds[1..], dest, payer, amount);
      LookupFront(ds, dest);
      LookupFront(ds, payer);
    }
  }

  lemma LookupFront(ds: Deltas, owner: string)
    requires DistinctOwners(ds) && ds != []
    ensures Lookup(ds, owner) == if ds[0].0 == owner then ds[0].1 else Lookup(ds[1..], owner)
    ensures ds[0].0 == owner ==> Lookup(ds[1..], owner) == 0
  {
  }

  /** A settled payment conserves the mint: the grand totals agree modulo 2^128. */
  lemma SettledIsConserved(pre: seq<TokenBalance>, post: seq<TokenBalance>, mint: string, dest: string, payer: string, amount: int)
    requires MintDeltas(pre, post, mint).Ok? && dest != payer
    requires MoneyMatches(MintDeltas(pre, post, mint).value, dest, payer, amount)
    ensures Wrap(GrandTotal(post, mint) - GrandTotal(pre, mint)) == 0
  {
    hide Wrap, Apply, GrandTotal, Lookup;
    var ds := MintDeltas(pre, post, mint).value;
    MintDeltasAreNet(pre, post, mint, dest);
    MatchingSum(ds, dest, payer, amount);
    var empty: Deltas := [];
    ApplySum(empty, pre, mint, true);
    var mid := Apply(empty, pre, mint, true).value;
    ApplySum(mid, post, mint, false);
    WrapAdd(SumOf(mid), GrandTotal(post, mint));
    WrapAdd(-GrandTotal(pre, mint), GrandTotal(post, mint));
    WrapChain(0, 0, 0);
  }

  // ------------------------------------------------------------ exact payments

  /** A positive payment between two different owners, to the unit: the payer's total falls by
      the amount, the destination's rises by it, every other owner's total stays put, and
      the mint is conserved. */
  ghost predicate PaysExactly(pre: seq<TokenBalance>, post: seq<TokenBalance>, mint: string, dest: string, payer: string, amount: int) {
    && dest != payer
    && Net(pre, post, mint, payer) == -amount
    && Net(pre, post, mint, dest) == amount
    && (forall o: string :: o != dest && o != payer ==> Net(pre, post, mint, o) == 0)
    && GrandTotal(post, mint) == GrandTotal(pre, mint)
  }

  /** The entries of a mint that are not this owner's, and those of other mints. */
  function Without(list: seq<TokenBalance>, mint: string, owner: string): (rest: seq<TokenBalance>)
    ensures |rest| <= |list|
  {
    if list == [] then []
    else if CountsFor(list[0], mint) && EntryAmount(list[0]).Ok? && EntryAmount(list[0]).value.0 == owner
      then Without(list[1..], mint, owner)
    else [list[0]] + Without(list[1..], mint, owner)
  }

  lemma {:induction false} WithoutTotals(list: seq<TokenBalance>, mint: string, owner: string, o: string)
    ensures Total(Without(list, mint, owner), mint, o) == if o == owner then 0 else Total(list, mint, o)
    ensures GrandTotal(Without(list, mint, owner), mint) == GrandTotal(list, mint) - Total(list, mint, owner)
  {
    hide EntryAmount;
    if list != [] {
      WithoutTotals(list[1..], mint, owner, o);
      var rest := Without(list[1..], mint, owner);
      assert ([list[0]] + rest)[1..] == rest;
    }
  }

  /** Removing an owner that has an entry leaves a shorter list. */
  lemma {:induction false} WithoutShrinks(list: seq<TokenBalance>, mint: string, i: nat)
    requires i < |list| && CountsFor(list[i], mint) && EntryAmount(list[i]).Ok?
    ensures |Without(list, mint, EntryAmount(list[i]).value.0)| < |list|
  {
    hide EntryAmount;
    if i > 0 {
      WithoutShrinks(list[1..], mint, i - 1);
    }
  }

  predicate Counted(list: seq<TokenBalance>, mint: string, i: nat) {
    i < |list| && CountsFor(list[i], mint) && EntryAmount(list[i]).Ok?
  }

  lemma {:induction false} NothingCounted(list: seq<TokenBalance>, mint: string)
    requires forall i: nat :: !Counted(list, mint, i)
    ensures GrandTotal(list, mint) == 0
  {
    hide EntryAmount;
    if list != [] {
      assert !Counted(list, mint, 0);
      forall i: nat
        ensures !Counted(list[1..], mint, i)
      {
        assert !Counted(list, mint, i + 1);
      }
      NothingCounted(list[1..], mint);
    }
  }

  lemma WithoutNets(pre: seq<TokenBalance>, post: seq<TokenBalance>, mint: string, owner: string)
    ensures forall o: string :: Net(Without(pre, mint, owner), Without(post, mint, owner), mint, o) ==
              if o == owner then 0 else Net(pre, post, mint, o)
    ensures GrandTotal(post, mint) - GrandTotal(pre, mint) ==
            GrandTotal(Without(post, mint, owner), mint) - GrandTotal(Without(pre, mint, owner), mint) + Net(pre, post, mint, owner)
  {
    hide Total, GrandTotal, Without;
    forall o: string
      ensures Net(Without(pre, mint, owner), Without(post, mint, owner), mint, o) == if o == owner then 0 else Net(pre, post, mint, o)
    {
      WithoutTotals(pre, mint, owner, o);
      WithoutTotals(post, mint, owner, o);
    }
    WithoutTotals(pre, mint, owner, owner);
    WithoutTotals(post, mint, owner, owner);
  }

  /** If no owner's total changes, neither does the grand total: take the owners away one by one. */
  lemma {:induction false} StillOwnersStillMint(pre: seq<TokenBalance>, post: seq<TokenBalance>, mint: string)
    requires forall o: string :: Net(pre, post, mint, o) == 0
    ensures GrandTotal(post, mint) == GrandTotal(pre, mint)
    decreases |pre| + |post|
  {
    hide Net, GrandTotal, Without, EntryAmount;
    if i: nat :| Counted(pre, mint, i) {
      var owner := EntryAmount(pre[i]).value.0;
      WithoutShrinks(pre, mint, i);
      WithoutNets(pre, post, mint, owner);
      StillOwnersStillMint(Without(pre, mint, owner), Without(post, mint, owner), mint);
    } else if i: nat :| Counted(post, mint, i) {
      var owner := EntryAmount(post[i]).value.0;
      WithoutShrinks(post, mint, i);
      WithoutNets(pre, post, mint, owner);
      StillOwnersStillMint(Without(pre, mint, owner), Without(post, mint, owner), mint);
    } else {
      NothingCounted(pre, mint);
      NothingCounted(post, mint);
    }
  }

  /** If only two owners' totals change, the grand total changes by what they change together. */
  lemma TwoOwnersMove(pre: seq<TokenBalance>, post: seq<TokenBalance>, mint: string, a: string, b: string)
    requires a != b && forall o: string :: o != a && o != b ==> Net(pre, post, mint, o) == 0
    ensures GrandTotal(post, mint) - GrandTotal(pre, mint) == Net(pre, post, mint, a) + Net(pre, post, mint, b)
  {
    hide Net, GrandTotal, Without;
    WithoutNets(pre, post, mint, a);
    var pre', post' := Without(pre, mint, a), Without(post, mint, a);
    WithoutNets(pre', post', mint, b);
    StillOwnersStillMint(Without(pre', mint, b), Without(post', mint, b), mint);
  }

  /** No owner's change leaves the i128 range. */
  ghost predicate NothingWraps(pre: seq<TokenBalance>, post: seq<TokenBalance>, mint: string) {
    forall o: string :: Wrap(Net(pre, post, mint, o)) == Net(pre, post, mint, o)
  }

  /** A settled positive payment moved exactly the amount, and conserved the mint, if and only if
      nothing wrapped. */
  lemma SettledExactIff(pre: seq<TokenBalance>, post: seq<TokenBalance>, mint: string, dest: string, payer: string, amount: int)
    requires amount > 0 && Settles(pre, post, mint, dest, payer, amount)
    ensures PaysExactly(pre, post, mint, dest, payer, amount) <==> NothingWraps(pre, post, mint)
  {
    WrapSmall(amount);
    hide Net, GrandTotal, Wrap;
    if NothingWraps(pre, post, mint) {
      TwoOwnersMove(pre, post, mint, dest, payer);
    }
  }

  lemma WrapSmall(amount: int)
    requires 0 <= amount <= I128_MAX
    ensures Wrap(amount) == amount && Wrap(-amount) == -amount && Wrap(0) == 0
  {
  }

  /** An entry as a node prints it. */
  function Printed(mint: string, owner: string, n: nat): TokenBalance {
    TokenBalance(Some(mint), Some(owner), Some(PrintNat(n)))
  }

  lemma PrintedShare(mint: string, owner: string, n: nat, o: string)
    requires n <= I128_MAX
    ensures var e := Printed(mint, owner, n);
      CountsFor(e, mint) && EntryAmount(e).Ok? && Share(e, mint, o) == if o == owner then n else 0
  {
    hide PrintNat, ParseI128;
    PrintParseI128(n);
  }

  /** Three entries of one owner that sum to 2^128, which the accumulator cannot tell from nothing. */
  function FullTurn(mint: string, owner: string): (es: seq<TokenBalance>)
    ensures |es| == 3
  {
    [Printed(mint, owner, I128_MAX), Printed(mint, owner, I128_MAX), Printed(mint, owner, 2)]
  }

  lemma FullTurnTotals(mint: string, owner: string, o: string)
    ensures WellFormed(FullTurn(mint, owner), mint)
    ensures Total(FullTurn(mint, owner), mint, o) == if o == owner then 2 * (I128_MAX + 1) else 0
  {
    hide Printed, EntryAmount, Share;
    PrintedShare(mint, owner, I128_MAX, o);
    PrintedShare(mint, owner, 2, o);
    ThreeEntries(FullTurn(mint, owner), mint, o);
  }

  lemma ThreeEntries(es: seq<TokenBalance>, mint: string, o: string)
    requires |es| == 3
    ensures Total(es, mint, o) == Share(es[0], mint, o) + Share(es[1], mint, o) + Share(es[2], mint, o)
  {
    hide Share;
    var tail := es[1..];
    var last := tail[1..];
    assert last == [es[2]] && last[1..] == [];
    assert Total(last, mint, o) == Share(es[2], mint, o) + Total([], mint, o);
    assert Total(tail, mint, o) == Share(es[1], mint, o) + Total(last, mint, o);
  }

  /** Without the u64 bound exactness is lost: add such entries for a third party to a settled
      report, and it still settles though that party's total rose by 2^128. */
  lemma FullTurnUnnoticed(pre: seq<TokenBalance>, post: seq<TokenBalance>, mint: string,
                          dest: string, payer: string, amount: int, other: string)
    requires WellFormed(post, mint) && Settles(pre, post, mint, dest, payer, amount)
    requires other != dest && other != payer && Net(pre, post, mint, other) == 0
    ensures var more := post + FullTurn(mint, other);
            && WellFormed(more, mint) && Settles(pre, more, mint, dest, payer, amount)
            && !PaysExactly(pre, more, mint, dest, payer, amount)
  {
    hide FullTurn, Total, GrandTotal, WellFormed;
    var more := post + FullTurn(mint, other);
    WellFormedConcat(post, FullTurn(mint, other), mint);
    forall o: string
      ensures Net(pre, more, mint, o) == Net(pre, post, mint, o) + if o == other then 2 * (I128_MAX + 1) else 0
    {
      TotalConcat(post, FullTurn(mint, other), mint, o);
      FullTurnTotals(mint, other, o);
    }
    FullTurnTotals(mint, other, other);
    assert Wrap(2 * (I128_MAX + 1)) == 0;
    hide Wrap, Net;
  }

  // ------------------------------------------------------------ real token amounts

  /** Amounts are u64, as the token program stores them, and there are fewer than 2^62 entries. */
  predicate Realistic(list: seq<TokenBalance>, mint: string) {
    && |list| < 0x4000_0000_0000_0000
    && forall i :: 0 <= i < |list| && CountsFor(list[i], mint) && EntryAmount(list[i]).Ok? ==>
         0 <= EntryAmount(list[i]).value.1 < U64_BOUND
  }

  lemma {:induction false} TotalBound(list: seq<TokenBalance>, mint: string, owner: string)
    requires forall i :: 0 <= i < |list| && CountsFor(list[i], mint) && EntryAmount(list[i]).Ok? ==>
               0 <= EntryAmount(list[i]).value.1 < U64_BOUND
    ensures 0 <= Total(list, mint, owner) <= |list| * U64_BOUND
  {
    hide EntryAmount;
    if list != [] {
      TotalBound(list[1..], mint, owner);
    }
  }

  /** For real amounts nothing wraps. */
  lemma NetDoesNotWrap(pre: seq<TokenBalance>, post: seq<TokenBalance>, mint: string, owner: string)
    requires Realistic(pre, mint) && Realistic(post, mint)
    ensures Wrap(Net(pre, post, mint, owner)) == Net(pre, post, mint, owner)
  {
    TotalBound(pre, mint, owner);
    TotalBound(post, mint, owner);
  }

  /** For real amounts a settled positive payment moves exact totals and conserves the mint. */
  lemma SettlesExactly(pre: seq<TokenBalance>, post: seq<TokenBalance>, mint: string, dest: string, payer: string, amount: int)
    requires amount > 0 && Settles(pre, post, mint, dest, payer, amount)
    requires Realistic(pre, mint) && Realistic(post, mint)
    ensures PaysExactly(pre, post, mint, dest, payer, amount)
  {
    hide Net, GrandTotal, Realistic, Wrap;
    forall o: string
      ensures Wrap(Net(pre, post, mint, o)) == Net(pre, post, mint, o)
    {
      NetDoesNotWrap(pre, post, mint, o);
    }
    SettledExactIff(pre, post, mint, dest, payer, amount);
  }
}
