/** Multidimensional fees: base cost over resource dimensions and the split of the priority fee. */
module Fees {
  import opened Common

  const U128_MAX: nat := 0xFFFF_FFFF_FFFF_FFFF_FFFF_FFFF_FFFF_FFFF
  type u128 = n: nat | n <= U128_MAX

  datatype Dimension = Computation | Calldata | BlobData | Storage

  datatype Params = Params(dimension: Dimension, baseFee: u128, targetUsage: u64, maxUsage: u64)

  datatype Usage = Usage(dimension: Dimension, amount: u64)

  datatype Transaction = Transaction(maxFee: u128, usage: seq<Usage>, priorityFee: u128)

  datatype Allocation = Allocation(dimension: Dimension, baseCost: u128, allocatedFee: u128, amount: u64)

  datatype FeeResult = FeeResult(totalBaseCost: u128, totalFee: u128, priorityFeePaid: u128,
                                 allocations: seq<Allocation>)

  datatype Error =
    | InsufficientFee(required: u128, provided: u128)
    | ExceedsMaxUsage(dimension: Dimension, amount: u64, max: u64)
    | ZeroBaseFee(dimension: Dimension)
    | DuplicateDimension(dimension: Dimension)
    | NoResourceUsage

  /** Saturation at the `u128` range. */
  function Saturated(n: nat): u128 {
    if n <= U128_MAX then n else U128_MAX
  }

  function FindParams(params: seq<Params>, d: Dimension): Option<Params> {
    if params == [] then None
    else if params[0].dimension == d then Some(params[0])
    else FindParams(params[1..], d)
  }

  // ---- specification ----

  /** Saturated base cost of one entry; an unpriced dimension costs nothing. */
  function Cost(params: seq<Params>, u: Usage): u128 {
    var p := FindParams(params, u.dimension);
    if p.None? then 0 else Saturated(p.value.baseFee * u.amount)
  }

  function CostSum(params: seq<Params>, usage: seq<Usage>): nat {
    if usage == [] then 0
    else CostSum(params, usage[..|usage| - 1]) + Cost(params, usage[|usage| - 1])
  }

  predicate DistinctDimensions(usage: seq<Usage>) {
    forall i, j :: 0 <= i < j < |usage| ==> usage[i].dimension != usage[j].dimension
  }

  /** The dimension is known and has a price. */
  predicate Priced(params: seq<Params>, u: Usage) {
    var p := FindParams(params, u.dimension);
    p.Some? && p.value.baseFee > 0
  }

  predicate WithinMaximum(params: seq<Params>, u: Usage) {
    var p := FindParams(params, u.dimension);
    p.Some? ==> u.amount <= p.value.maxUsage
  }

  predicate Billable(params: seq<Params>, usage: seq<Usage>) {
    && usage != [] && DistinctDimensions(usage)
    && forall i :: 0 <= i < |usage| ==> Priced(params, usage[i]) && WithinMaximum(params, usage[i])
  }

  /** Entry `i` repeats an earlier dimension. */
  predicate Repeats(usage: seq<Usage>, i: nat)
    requires i < |usage|
  {
    exists j :: 0 <= j < i && usage[j].dimension == usage[i].dimension
  }

  /** The first complaint about entry `i`, if any. */
  function Complaint(params: seq<Params>, usage: seq<Usage>, i: nat): Option<Error>
    requires i < |usage|
  {
    var u := usage[i];
    var p := FindParams(params, u.dimension);
    if Repeats(usage, i) then Some(DuplicateDimension(u.dimension))
    else if p.None? || p.value.baseFee == 0 then Some(ZeroBaseFee(u.dimension))
    else if u.amount > p.value.maxUsage then Some(ExceedsMaxUsage(u.dimension, u.amount, p.value.maxUsage))
    else None
  }

  predicate CleanUpTo(params: seq<Params>, usage: seq<Usage>, n: nat)
    requires n <= |usage|
  {
    forall i :: 0 <= i < n ==> Complaint(params, usage, i) == None
  }

  /** `e` is the complaint about the first entry that has one. */
  ghost predicate FirstComplaint(params: seq<Params>, usage: seq<Usage>, e: Error) {
    exists i :: 0 <= i < |usage| && CleanUpTo(params, usage, i) && Complaint(params, usage, i) == Some(e)
  }

  /** Billable means that there is something to bill and nothing to complain about. */
  lemma {:induction false} BillableIffClean(params: seq<Params>, usage: seq<Usage>)
    ensures Billable(params, usage) <==> usage != [] && CleanUpTo(params, usage, |usage|)
  {
    if Billable(params, usage) {
      forall i | 0 <= i < |usage| ensures Complaint(params, usage, i) == None {
        assert Priced(params, usage[i]) && WithinMaximum(params, usage[i]);
      }
    }
    if CleanUpTo(params, usage, |usage|) {
      forall i | 0 <= i < |usage|
        ensures Priced(params, usage[i]) && WithinMaximum(params, usage[i]) && !Repeats(usage, i)
      {
        assert Complaint(params, usage, i) == None;
      }
      forall i, j | 0 <= i < j < |usage| ensures usage[i].dimension != usage[j].dimension {
        assert !Repeats(usage, j);
      }
    }
  }

  function AllocatedSum(allocations: seq<Allocation>): nat {
    if allocations == [] then 0
    else AllocatedSum(allocations[..|allocations| - 1]) + allocations[|allocations| - 1].allocatedFee
  }

  function BaseSum(allocations: seq<Allocation>): nat {
    if allocations == [] then 0
    else BaseSum(allocations[..|allocations| - 1]) + allocations[|allocations| - 1].baseCost
  }

  /** One allocation per usage entry, for its dimension, amount and base cost, covering that cost. */
  predicate Covers(params: seq<Params>, usage: seq<Usage>, allocations: seq<Allocation>) {
    && |allocations| == |usage|
    && forall i :: 0 <= i < |usage| ==>
         && allocations[i].dimension == usage[i].dimension && allocations[i].amount == usage[i].amount
         && allocations[i].baseCost == Cost(params, usage[i]) <= allocations[i].allocatedFee
  }

  /** Nothing has been added to any base cost yet. */
  predicate AtBaseCost(allocations: seq<Allocation>) {
    forall i :: 0 <= i < |allocations| ==> allocations[i].allocatedFee == allocations[i].baseCost
  }

  // ---- compute_base_cost ----

  method ComputeBaseCost(params: seq<Params>, tx: Transaction) returns (r: Result<u128, Error>)
    ensures r.Ok? <==> Billable(params, tx.usage)
    ensures r.Ok? ==> r.value == Saturated(CostSum(params, tx.usage))
    ensures tx.usage == [] ==> r == Err(NoResourceUsage)
    ensures r.Err? && tx.usage != [] ==> FirstComplaint(params, tx.usage, r.error)
  {
    BillableIffClean(params, tx.usage);
    if tx.usage == [] {
      return Err(NoResourceUsage);
    }
    var seen: set<Dimension> := {};
    var total: u128 := 0;
    for i := 0 to |tx.usage|
      invariant forall d :: d in seen <==> exists j :: 0 <= j < i && tx.usage[j].dimension == d
      invariant total == Saturated(CostSum(params, tx.usage[..i]))
      invariant CleanUpTo(params, tx.usage, i)
    {
      var u := tx.usage[i];
      assert u.dimension in seen <==> Repeats(tx.usage, i);
      var p := FindParams(params, u.dimension);
      if u.dimension in seen {
        r := Err(DuplicateDimension(u.dimension));
      } else if p.None? {
        r := Err(ZeroBaseFee(u.dimension));
      } else if p.value.baseFee == 0 {
        r := Err(ZeroBaseFee(u.dimension));
      } else if u.amount > p.value.maxUsage {
        r := Err(ExceedsMaxUsage(u.dimension, u.amount, p.value.maxUsage));
      } else {
        r := Ok(0);
      }
      assert Complaint(params, tx.usage, i) == if r.Err? then Some(r.error) else None;
      if r.Err? {
        return;
      }
      seen := seen + {u.dimension};
      CostSumStep(params, tx.usage, i);
      total := Saturated(total + Saturated(p.value.baseFee * u.amount));
    }
    assert tx.usage[..|tx.usage|] == tx.usage;
    return Ok(total);
  }

  lemma {:induction false} CostSumStep(params: seq<Params>, usage: seq<Usage>, i: nat)
    requires i < |usage|
    ensures CostSum(params, usage[..i + 1]) == CostSum(params, usage[..i]) + Cost(params, usage[i])
  {
    assert usage[..i + 1][..i] == usage[..i];
  }

  // ---- compute_fee_allocation ----

  lemma {:induction false} BaseSumIsCostSum(params: seq<Params>, usage: seq<Usage>, allocations: seq<Allocation>)
    requires |allocations| == |usage|
    requires forall i :: 0 <= i < |usage| ==> allocations[i].baseCost == Cost(params, usage[i])
    ensures BaseSum(allocations) == CostSum(params, usage)
  {
    if usage != [] {
      BaseSumIsCostSum(params, usage[..|usage| - 1], allocations[..|usage| - 1]);
    }
  }

  lemma {:induction false} AllocatedIsBase(allocations: seq<Allocation>)
    requires AtBaseCost(allocations)
    ensures AllocatedSum(allocations) == BaseSum(allocations)
  {
    if allocations != [] {
      AllocatedIsBase(allocations[..|allocations| - 1]);
    }
  }

  /** Raising one allocation raises the sum by as much. */
  lemma {:induction false} RaiseOne(allocations: seq<Allocation>, i: nat, more: nat)
    requires i < |allocations| && allocations[i].allocatedFee + more <= U128_MAX
    ensures var after := allocations[i := allocations[i].(allocatedFee := allocations[i].allocatedFee + more)];
            AllocatedSum(after) == AllocatedSum(allocations) + more && BaseSum(after) == BaseSum(allocations)
  {
    var n := |allocations| - 1;
    var after := allocations[i := allocations[i].(allocatedFee := allocations[i].allocatedFee + more)];
    if i < n {
      RaiseOne(allocations[..n], i, more);
      assert after[..n] == allocations[..n][i := allocations[i].(allocatedFee := allocations[i].allocatedFee + more)];
    } else {
      assert after[..n] == allocations[..n];
    }
  }

  lemma {:induction false} BaseAtMostSum(allocations: seq<Allocation>, i: nat)
    requires i <= |allocations|
    ensures BaseSum(allocations[..i]) <= BaseSum(allocations)
    ensures i < |allocations| ==> BaseSum(allocations[..i]) + allocations[i].baseCost == BaseSum(allocations[..i + 1])
    ensures i < |allocations| ==> allocations[i].baseCost <= BaseSum(allocations)
    decreases |allocations| - i
  {
    if i < |allocations| {
      BaseAtMostSum(allocations, i + 1);
      assert allocations[..i + 1][..i] == allocations[..i];
    } else {
      assert allocations[..i] == allocations;
    }
  }

  /** A floored share never exceeds its exact proportion, saturated product or not. */
  lemma {:induction false} ShareBound(paid: nat, base: nat, total: nat, sum: nat, distributed: nat)
    requires total > 0 && total * distributed <= paid * sum
    ensures total * (distributed + Saturated(paid * base) / total) <= paid * (sum + base)
  {
    var share := Saturated(paid * base) / total;
    assert total * share <= Saturated(paid * base);
    assert total * (distributed + share) == total * distributed + total * share;
    assert paid * (sum + base) == paid * sum + paid * base;
  }

  lemma {:induction false} CancelTotal(total: nat, distributed: nat, paid: nat)
    requires total > 0 && total * distributed <= paid * total
    ensures distributed <= paid
  {
  }

  /** The floored share in `paid` of an entry with this base cost. */
  function Share(paid: nat, base: nat, total: nat): nat {
    if total == 0 then 0 else Saturated(paid * base) / total
  }

  lemma {:induction false} NothingToShare(base: nat, total: nat)
    ensures Share(0, base, total) == 0
  {
  }

  /** The floored share of each entry in `paid`. */
  function Shares(allocations: seq<Allocation>, paid: nat, total: nat): (shares: seq<nat>)
    requires total > 0
    ensures |shares| == |allocations|
    ensures forall i :: 0 <= i < |shares| ==> shares[i] == Share(paid, allocations[i].baseCost, total)
  {
    seq(|allocations|, i requires 0 <= i < |allocations| => Share(paid, allocations[i].baseCost, total))
  }

  lemma {:induction false} SharesProportional(allocations: seq<Allocation>, paid: nat, total: nat)
    requires total > 0
    ensures total * Sum(Shares(allocations, paid, total)) <= paid * BaseSum(allocations)
  {
    if allocations != [] {
      var n := |allocations| - 1;
      var init := allocations[..n];
      SharesProportional(init, paid, total);
      assert Shares(allocations, paid, total)[..n] == Shares(init, paid, total);
      ShareBound(paid, allocations[n].baseCost, total, BaseSum(init), Sum(Shares(init, paid, total)));
    }
  }

  lemma {:induction false} SumPrefix(xs: seq<nat>, i: nat)
    requires i <= |xs|
    ensures Sum(xs[..i]) <= Sum(xs)
    ensures i < |xs| ==> Sum(xs[..i + 1]) == Sum(xs[..i]) + xs[i] <= Sum(xs)
    decreases |xs| - i
  {
    if i < |xs| {
      SumPrefix(xs, i + 1);
      assert xs[..i + 1][..i] == xs[..i];
    } else {
      assert xs[..i] == xs;
    }
  }

  /** The shares never add up to more than what there is to share. */
  lemma {:induction false} SharesWithin(allocations: seq<Allocation>, paid: nat, total: nat)
    requires 0 < total == BaseSum(allocations)
    ensures Sum(Shares(allocations, paid, total)) <= paid
  {
    SharesProportional(allocations, paid, total);
    CancelTotal(total, Sum(Shares(allocations, paid, total)), paid);
  }

  /** `after` gives the first `i` entries their shares and leaves the others alone. */
  ghost predicate SharedUpTo(allocations: seq<Allocation>, after: seq<Allocation>, shares: seq<nat>, i: nat)
    requires |shares| == |allocations| && i <= |shares|
  {
    && |after| == |allocations|
    && (forall j :: i <= j < |after| ==> after[j] == allocations[j])
    && (forall j :: 0 <= j < i ==>
          after[j] == allocations[j].(allocatedFee := after[j].allocatedFee)
          && after[j].allocatedFee == allocations[j].baseCost + shares[j])
  }

  method GiveShares(allocations: seq<Allocation>, paid: u128, total: u128)
    returns (after: seq<Allocation>, distributed: u128)
    requires 0 < total == BaseSum(allocations) && total + paid <= U128_MAX
    requires AtBaseCost(allocations)
    ensures SharedUpTo(allocations, after, Shares(allocations, paid, total), |allocations|)
    ensures AllocatedSum(after) == total + distributed && distributed <= paid
  {
    after, distributed := allocations, 0;
    AllocatedIsBase(allocations);
    ghost var shares := Shares(allocations, paid, total);
    SharesWithin(allocations, paid, total);
    for i := 0 to |allocations|
      invariant SharedUpTo(allocations, after, shares, i)
      invariant AllocatedSum(after) == total + distributed
      invariant distributed == Sum(shares[..i])
    {
      SumPrefix(shares, i);
      var share := Saturated(paid * allocations[i].baseCost) / total;
      assert share == shares[i];
      AllocatedAtMostSum(after, i);
      RaiseOne(after, i, share);
      after := after[i := after[i].(allocatedFee := Saturated(after[i].allocatedFee + share))];
      distributed := Saturated(distributed + share);
    }
    SumPrefix(shares, |shares|);
  }

  /** Hands `paid` out in proportion to base cost, the rounding remainder to the first entry. */
  method Distribute(allocations: seq<Allocation>, paid: u128, total: u128) returns (after: seq<Allocation>)
    requires allocations != [] && 0 < total == BaseSum(allocations) && total + paid <= U128_MAX
    requires AtBaseCost(allocations)
    ensures AllocatedSum(after) == total + paid && |after| == |allocations|
    ensures forall i :: 0 <= i < |after| ==> after[i] == allocations[i].(allocatedFee := after[i].allocatedFee)
    ensures forall i :: 0 < i < |after| ==>
              after[i].allocatedFee == allocations[i].baseCost + Shares(allocations, paid, total)[i]
    ensures after[0].allocatedFee >= allocations[0].baseCost + Shares(allocations, paid, total)[0]
  {
    var distributed;
    after, distributed := GiveShares(allocations, paid, total);
    var remainder := paid - distributed;
    AllocatedAtMostSum(after, 0);
    RaiseOne(after, 0, remainder);
    after := after[0 := after[0].(allocatedFee := Saturated(after[0].allocatedFee + remainder))];
  }

  lemma {:induction false} AllocatedAtMostSum(allocations: seq<Allocation>, i: nat)
    requires i < |allocations|
    ensures allocations[i].allocatedFee <= AllocatedSum(allocations)
  {
    if i < |allocations| - 1 {
      AllocatedAtMostSum(allocations[..|allocations| - 1], i);
    }
  }

  method BaseAllocations(params: seq<Params>, usage: seq<Usage>) returns (allocations: seq<Allocation>)
    requires forall i :: 0 <= i < |usage| ==> Priced(params, usage[i])
    ensures Covers(params, usage, allocations)
    ensures AtBaseCost(allocations)
  {
    allocations := [];
    for i := 0 to |usage|
      invariant |allocations| == i
      invariant forall j :: 0 <= j < i ==>
                  allocations[j] == Allocation(usage[j].dimension, Cost(params, usage[j]), Cost(params, usage[j]),
                                               usage[j].amount)
    {
      var u := usage[i];
      assert Priced(params, u);
      var cost := Saturated(FindParams(params, u.dimension).value.baseFee * u.amount);
      allocations := allocations + [Allocation(u.dimension, cost, cost, u.amount)];
    }
  }

  /** Every entry but the first gets its floored share of the priority fee; the first gets the rest. */
  predicate SplitsFairly(params: seq<Params>, usage: seq<Usage>, allocations: seq<Allocation>, paid: nat, total: nat) {
    && |allocations| == |usage|
    && forall i :: 0 < i < |usage| ==>
         allocations[i].allocatedFee ==
         Cost(params, usage[i]) + Share(paid, Cost(params, usage[i]), total)
  }

  method AddPriorityFee(params: seq<Params>, usage: seq<Usage>, allocations: seq<Allocation>, paid: u128, total: u128)
    returns (after: seq<Allocation>)
    requires Covers(params, usage, allocations) && allocations != []
    requires AtBaseCost(allocations)
    requires total == Saturated(BaseSum(allocations)) && total + paid <= U128_MAX
    ensures Covers(params, usage, after) && SplitsFairly(params, usage, after, paid, total)
    ensures AllocatedSum(after) == BaseSum(allocations) + paid
  {
    after := allocations;
    AllocatedIsBase(allocations);
    forall i | 0 < i < |usage| ensures Share(0, Cost(params, usage[i]), total) == 0 {
      NothingToShare(Cost(params, usage[i]), total);
    }
    if paid > 0 {
      if total > 0 {
        after := Distribute(allocations, paid, total);
      } else {
        BaseAtMostSum(allocations, 0);
        RaiseOne(allocations, 0, paid);
        after := allocations[0 := allocations[0].(allocatedFee := Saturated(allocations[0].allocatedFee + paid))];
      }
    }
  }

  function PriorityPaid(tx: Transaction, total: nat): nat
    requires total <= tx.maxFee
  {
    if tx.priorityFee <= tx.maxFee - total then tx.priorityFee else tx.maxFee - total
  }

  /** What is wrong with a transaction that allocation refuses: nothing to bill, the first entry with a
      complaint, or a fee limit below the base cost. */
  ghost predicate RefusedFor(params: seq<Params>, tx: Transaction, e: Error) {
    if tx.usage == [] then e == NoResourceUsage
    else if !Billable(params, tx.usage) then FirstComplaint(params, tx.usage, e)
    else e == InsufficientFee(Saturated(CostSum(params, tx.usage)), tx.maxFee) && e.required > e.provided
  }

  /** Base cost plus as much of the priority fee as the limit allows, split over the entries. */
  predicate IsAllocation(params: seq<Params>, tx: Transaction, r: FeeResult) {
    && Covers(params, tx.usage, r.allocations)
    && r.totalBaseCost == Saturated(CostSum(params, tx.usage)) <= tx.maxFee
    && r.priorityFeePaid == PriorityPaid(tx, r.totalBaseCost)
    && r.totalFee == r.totalBaseCost + r.priorityFeePaid <= tx.maxFee
    && SplitsFairly(params, tx.usage, r.allocations, r.priorityFeePaid, r.totalBaseCost)
  }

  ghost predicate Allocates(params: seq<Params>, tx: Transaction, r: Result<FeeResult, Error>) {
    match r
    case Ok(result) => Billable(params, tx.usage) && IsAllocation(params, tx, result)
    case Err(e) => RefusedFor(params, tx, e)
  }

  /** Accepts exactly the billable transactions whose fee limit covers the base cost. An accepted
      transaction's allocations add up to base cost plus priority fee exactly when the saturated costs
      fit in 128 bits, which holds whenever the fee limit is below the `u128` maximum. */
  method ComputeFeeAllocation(params: seq<Params>, tx: Transaction) returns (r: Result<FeeResult, Error>)
    ensures Allocates(params, tx, r)
    ensures r.Ok? <==> Billable(params, tx.usage) && Saturated(CostSum(params, tx.usage)) <= tx.maxFee
    ensures r.Ok? ==> AllocatedSum(r.value.allocations) == CostSum(params, tx.usage) + r.value.priorityFeePaid
    ensures r.Ok? ==> (AllocatedSum(r.value.allocations) == r.value.totalFee <==> CostSum(params, tx.usage) <= U128_MAX)
    ensures r.Ok? && tx.maxFee < U128_MAX ==> CostSum(params, tx.usage) <= U128_MAX
  {
    var cost := ComputeBaseCost(params, tx);
    if cost.Err? {
      return Err(cost.error);
    }
    var total := cost.value;
    if !(tx.maxFee >= total) {
      return Err(InsufficientFee(total, tx.maxFee));
    }
    var remaining := tx.maxFee - total;
    var paid := if tx.priorityFee <= remaining then tx.priorityFee else remaining;
    var allocations := BaseAllocations(params, tx.usage);
    BaseSumIsCostSum(params, tx.usage, allocations);
    AllocatedIsBase(allocations);
    allocations := AddPriorityFee(params, tx.usage, allocations, paid, total);
    return Ok(FeeResult(total, Saturated(total + paid), paid, allocations));
  }

  // ---- validate_multidim_transaction ----

  /** What validation asks for: it skips unpriced dimensions. */
  predicate Valid(params: seq<Params>, tx: Transaction) {
    && tx.usage != [] && DistinctDimensions(tx.usage)
    && (forall i :: 0 <= i < |tx.usage| ==> WithinMaximum(params, tx.usage[i]))
    && Saturated(CostSum(params, tx.usage)) <= tx.maxFee
  }

  /** Entry `i` is the second one with its dimension. */
  predicate SecondUse(usage: seq<Usage>, i: nat)
    requires i < |usage|
  {
    Repeats(usage, i) && forall j :: 0 <= j < i && usage[j].dimension == usage[i].dimension ==> !Repeats(usage, j)
  }

  function EntryErrors(params: seq<Params>, usage: seq<Usage>, i: nat): seq<Error>
    requires i < |usage|
  {
    var u := usage[i];
    var p := FindParams(params, u.dimension);
    (if SecondUse(usage, i) then [DuplicateDimension(u.dimension)] else [])
    + (if p.Some? && u.amount > p.value.maxUsage
       then [ExceedsMaxUsage(u.dimension, u.amount, p.value.maxUsage)] else [])
  }

  function ErrorsUpTo(params: seq<Params>, usage: seq<Usage>, n: nat): seq<Error>
    requires n <= |usage|
  {
    if n == 0 then [] else ErrorsUpTo(params, usage, n - 1) + EntryErrors(params, usage, n - 1)
  }

  /** Everything validation reports, in order. */
  function ValidationErrors(params: seq<Params>, tx: Transaction): seq<Error> {
    (if tx.usage == [] then [NoResourceUsage] else [])
    + ErrorsUpTo(params, tx.usage, |tx.usage|)
    + (if Saturated(CostSum(params, tx.usage)) > tx.maxFee
       then [InsufficientFee(Saturated(CostSum(params, tx.usage)), tx.maxFee)] else [])
  }

  ghost function DimensionsOf(usage: seq<Usage>, n: nat): set<Dimension>
    requires n <= |usage|
  {
    set j | 0 <= j < n :: usage[j].dimension
  }

  ghost function RepeatedDimensions(usage: seq<Usage>, n: nat): set<Dimension>
    requires n <= |usage|
  {
    set j: nat | j < n && Repeats(usage, j) :: usage[j].dimension
  }

  /** The two sets the loop keeps tell second uses from later ones. */
  lemma {:induction false} DimensionsStep(usage: seq<Usage>, i: nat)
    requires i < |usage|
    ensures usage[i].dimension in DimensionsOf(usage, i) <==> Repeats(usage, i)
    ensures SecondUse(usage, i) <==>
            usage[i].dimension in DimensionsOf(usage, i) && usage[i].dimension !in RepeatedDimensions(usage, i)
    ensures DimensionsOf(usage, i + 1) == DimensionsOf(usage, i) + {usage[i].dimension}
    ensures RepeatedDimensions(usage, i + 1) ==
            RepeatedDimensions(usage, i) + if Repeats(usage, i) then {usage[i].dimension} else {}
  {
  }

  /** The pass over the entries: what it reports and the base cost it adds up. */
  method ValidateEntries(params: seq<Params>, usage: seq<Usage>) returns (errors: seq<Error>, required: u128)
    ensures errors == ErrorsUpTo(params, usage, |usage|)
    ensures required == Saturated(CostSum(params, usage))
  {
    errors, required := [], 0;
    var seen: set<Dimension>, reported: set<Dimension> := {}, {};
    for i := 0 to |usage|
      invariant seen == DimensionsOf(usage, i) && reported == RepeatedDimensions(usage, i)
      invariant required == Saturated(CostSum(params, usage[..i]))
      invariant errors == ErrorsUpTo(params, usage, i)
    {
      var u := usage[i];
      DimensionsStep(usage, i);
      if u.dimension in seen && u.dimension !in reported {
        reported := reported + {u.dimension};
        errors := errors + [DuplicateDimension(u.dimension)];
      }
      seen := seen + {u.dimension};
      var p := FindParams(params, u.dimension);
      CostSumStep(params, usage, i);
      if p.Some? {
        if u.amount > p.value.maxUsage {
          errors := errors + [ExceedsMaxUsage(u.dimension, u.amount, p.value.maxUsage)];
        }
        required := Saturated(required + Saturated(p.value.baseFee * u.amount));
      }
    }
    assert usage[..|usage|] == usage;
  }

  method ValidateTransaction(params: seq<Params>, tx: Transaction) returns (r: Result<(), seq<Error>>)
    ensures r == if ValidationErrors(params, tx) == [] then Ok(()) else Err(ValidationErrors(params, tx))
    ensures r.Ok? <==> Valid(params, tx)
  {
    var errors := if tx.usage == [] then [NoResourceUsage] else [];
    var found, required := ValidateEntries(params, tx.usage);
    errors := errors + found;
    if required > tx.maxFee {
      errors := errors + [InsufficientFee(required, tx.maxFee)];
    }
    assert errors == ValidationErrors(params, tx);
    NoErrorsIffValid(params, tx);
    if errors == [] {
      return Ok(());
    } else {
      return Err(errors);
    }
  }

  lemma {:induction false} Reported(params: seq<Params>, usage: seq<Usage>, n: nat, i: nat, e: Error)
    requires i < n <= |usage| && e in EntryErrors(params, usage, i)
    ensures e in ErrorsUpTo(params, usage, n)
  {
    if i < n - 1 {
      Reported(params, usage, n - 1, i, e);
    }
  }

  /** The first repetition is a second use. */
  lemma {:induction false} FirstRepetition(usage: seq<Usage>, i: nat) returns (k: nat)
    requires i < |usage| && Repeats(usage, i)
    ensures k <= i && SecondUse(usage, k) && usage[k].dimension == usage[i].dimension
  {
    if SecondUse(usage, i) {
      k := i;
    } else {
      var j: nat :| j < i && usage[j].dimension == usage[i].dimension && Repeats(usage, j);
      k := FirstRepetition(usage, j);
    }
  }

  lemma {:induction false} NoEntryErrors(params: seq<Params>, usage: seq<Usage>, n: nat)
    requires n <= |usage| && DistinctDimensions(usage)
    requires forall i :: 0 <= i < n ==> WithinMaximum(params, usage[i])
    ensures ErrorsUpTo(params, usage, n) == []
  {
    if n > 0 {
      NoEntryErrors(params, usage, n - 1);
      assert !Repeats(usage, n - 1);
    }
  }

  /** Validation reports nothing exactly about valid transactions. */
  lemma {:induction false} NoErrorsIffValid(params: seq<Params>, tx: Transaction)
    ensures ValidationErrors(params, tx) == [] <==> Valid(params, tx)
  {
    var usage, n := tx.usage, |tx.usage|;
    if Valid(params, tx) {
      NoEntryErrors(params, usage, n);
    } else if !DistinctDimensions(usage) {
      var i: nat, j: nat :| i < j < n && usage[i].dimension == usage[j].dimension;
      assert Repeats(usage, j);
      var k := FirstRepetition(usage, j);
      Reported(params, usage, n, k, DuplicateDimension(usage[k].dimension));
    } else if i: nat :| i < n && !WithinMaximum(params, usage[i]) {
      var p := FindParams(params, usage[i].dimension).value;
      Reported(params, usage, n, i, ExceedsMaxUsage(usage[i].dimension, usage[i].amount, p.maxUsage));
    }
  }

  // ---- the two entry points compared ----

  predicate AllPriced(params: seq<Params>, usage: seq<Usage>) {
    forall i :: 0 <= i < |usage| ==> Priced(params, usage[i])
  }

  /** Allocation accepts exactly when validation has nothing to report and every dimension has a price. */
  lemma {:induction false} AcceptedIffValidAndPriced(params: seq<Params>, tx: Transaction, r: Result<FeeResult, Error>)
    requires Allocates(params, tx, r)
    ensures r.Ok? <==> ValidationErrors(params, tx) == [] && AllPriced(params, tx.usage)
  {
    NoErrorsIffValid(params, tx);
    if r.Err? && tx.usage != [] && !Billable(params, tx.usage) {
      BillableIffClean(params, tx.usage);
    }
  }

  /** Whatever allocation refuses a transaction for, other than a missing price, validation reports too. */
  lemma {:induction false} RefusalsReported(params: seq<Params>, tx: Transaction, r: Result<FeeResult, Error>)
    requires Allocates(params, tx, r) && r.Err? && !r.error.ZeroBaseFee?
    ensures r.error in ValidationErrors(params, tx)
  {
    var usage, n, e := tx.usage, |tx.usage|, r.error;
    if usage != [] && !Billable(params, usage) {
      var i: nat :| i < n && CleanUpTo(params, usage, i) && Complaint(params, usage, i) == Some(e);
      if Repeats(usage, i) {
        var k := FirstRepetition(usage, i);
        Reported(params, usage, n, k, e);
      } else {
        Reported(params, usage, n, i, e);
      }
    }
  }

  /** Two saturated costs: accepted, and allocating more than the total fee. */
  method OverflowingCosts() returns (params: seq<Params>, tx: Transaction, r: Result<FeeResult, Error>)
    ensures Allocates(params, tx, r) && r.Ok? && AllocatedSum(r.value.allocations) > r.value.totalFee
  {
    params := [Params(Computation, U128_MAX, 0, 1), Params(Storage, U128_MAX, 0, 1)];
    tx := Transaction(U128_MAX, [Usage(Computation, 1), Usage(Storage, 1)], 0);
    assert FindParams(params, Computation) == Some(params[0]);
    assert FindParams(params, Storage) == FindParams(params[1..], Storage) == Some(params[1]);
    assert tx.usage[..2] == tx.usage && tx.usage[..0] == [];
    CostSumStep(params, tx.usage, 0);
    CostSumStep(params, tx.usage, 1);
    r := ComputeFeeAllocation(params, tx);
  }

  /** A dimension nobody priced: valid, and refused. */
  method UnpricedDimension() returns (params: seq<Params>, tx: Transaction, v: Result<(), seq<Error>>,
                                      r: Result<FeeResult, Error>)
    ensures Allocates(params, tx, r) && ValidationErrors(params, tx) == [] && v == Ok(()) && r.Err?
  {
    params, tx := [], Transaction(0, [Usage(Computation, 0)], 0);
    assert tx.usage[..0] == [] && !Priced(params, tx.usage[0]);
    v := ValidateTransaction(params, tx);
    r := ComputeFeeAllocation(params, tx);
  }
}
