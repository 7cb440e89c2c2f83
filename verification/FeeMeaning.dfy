/** What fee allocation and validation answer, told from positions in the two lists. */
module FeeMeaning {
  import opened Common
  import opened Fees

  /** Entry `k` of the parameters is the first one for this dimension. */
  predicate FirstFor(params: seq<Params>, d: Dimension, k: nat) {
    k < |params| && params[k].dimension == d && forall j :: 0 <= j < k ==> params[j].dimension != d
  }

  predicate NoneFor(params: seq<Params>, d: Dimension) {
    forall k :: 0 <= k < |params| ==> params[k].dimension != d
  }

  /** The lesser of `n` and the largest 128-bit number. */
  function Cut(n: nat): nat {
    if n < 0x1_0000_0000_0000_0000_0000_0000_0000_0000 then n else 0xFFFF_FFFF_FFFF_FFFF_FFFF_FFFF_FFFF_FFFF
  }

  lemma {:induction false} LookupMeans(params: seq<Params>, d: Dimension)
    ensures FindParams(params, d).None? <==> NoneFor(params, d)
    ensures FindParams(params, d).Some? ==>
              exists k: nat :: FirstFor(params, d, k) && FindParams(params, d).value == params[k]
    ensures forall k: nat :: FirstFor(params, d, k) ==> FindParams(params, d) == Some(params[k])
  {
    if params != [] && params[0].dimension != d {
      LookupMeans(params[1..], d);
      assert forall k :: 1 <= k < |params| ==> params[k] == params[1..][k - 1];
      forall k: nat | FirstFor(params, d, k) ensures FindParams(params, d) == Some(params[k]) {
        assert FirstFor(params[1..], d, k - 1);
      }
      if FindParams(params, d).Some? {
        var k: nat :| FirstFor(params[1..], d, k) && FindParams(params[1..], d).value == params[1..][k];
        assert FirstFor(params, d, k + 1);
      }
    } else if params != [] {
      assert FirstFor(params, d, 0);
    }
  }

  lemma {:induction false} FirstUnique(params: seq<Params>, d: Dimension, k: nat, l: nat)
    requires FirstFor(params, d, k) && FirstFor(params, d, l)
    ensures k == l
  {
  }

  // ---- prices ----

  /** `c` is the price of the entry: its amount at the first listed fee of its dimension, or nothing. */
  ghost predicate PriceIs(params: seq<Params>, u: Usage, c: nat) {
    || (NoneFor(params, u.dimension) && c == 0)
    || exists k: nat :: FirstFor(params, u.dimension, k) && c == Cut(params[k].baseFee * u.amount)
  }

  lemma {:induction false} CostMeans(params: seq<Params>, u: Usage)
    ensures PriceIs(params, u, Cost(params, u))
  {
    LookupMeans(params, u.dimension);
  }

  /** `prices` are the prices of the entries. */
  ghost predicate PricesAre(params: seq<Params>, usage: seq<Usage>, prices: seq<nat>) {
    |prices| == |usage| && forall i :: 0 <= i < |usage| ==> PriceIs(params, usage[i], prices[i])
  }

  function Costs(params: seq<Params>, usage: seq<Usage>): seq<nat> {
    seq(|usage|, i requires 0 <= i < |usage| => Cost(params, usage[i]))
  }

  lemma {:induction false} CostSumIsSum(params: seq<Params>, usage: seq<Usage>)
    ensures CostSum(params, usage) == Sum(Costs(params, usage)) && PricesAre(params, usage, Costs(params, usage))
  {
    forall i | 0 <= i < |usage| ensures PriceIs(params, usage[i], Costs(params, usage)[i]) {
      CostMeans(params, usage[i]);
    }
    if usage != [] {
      var n := |usage| - 1;
      CostSumIsSum(params, usage[..n]);
      assert Costs(params, usage)[..n] == Costs(params, usage[..n]);
    }
  }

  // ---- allocation ----

  /** Each entry is billed at the first listed fee of its dimension, within that dimension's maximum, and
      gets its floored share of the priority fee, the first entry the rest of it. */
  ghost predicate BilledAt(params: seq<Params>, u: Usage, a: Allocation, paid: nat, total: nat, first: bool) {
    exists k: nat ::
      && FirstFor(params, u.dimension, k) && params[k].baseFee > 0 && u.amount <= params[k].maxUsage
      && a.dimension == u.dimension && a.amount == u.amount
      && a.baseCost == Cut(params[k].baseFee * u.amount) <= a.allocatedFee
      && (!first && total > 0 ==> a.allocatedFee == a.baseCost + Cut(paid * a.baseCost) / total)
      && (!first && total == 0 ==> a.allocatedFee == a.baseCost)
  }

  ghost predicate Bills(params: seq<Params>, tx: Transaction, r: FeeResult) {
    && tx.usage != [] && |r.allocations| == |tx.usage|
    && (forall i, j :: 0 <= i < j < |tx.usage| ==> tx.usage[i].dimension != tx.usage[j].dimension)
    && (forall i :: 0 <= i < |tx.usage| ==>
          BilledAt(params, tx.usage[i], r.allocations[i], r.priorityFeePaid, r.totalBaseCost, i == 0))
    && r.totalBaseCost == Cut(BaseSum(r.allocations)) <= tx.maxFee
    && r.priorityFeePaid <= tx.priorityFee && r.totalBaseCost + r.priorityFeePaid <= tx.maxFee
    && (r.priorityFeePaid == tx.priorityFee || r.totalBaseCost + r.priorityFeePaid == tx.maxFee)
    && r.totalFee == r.totalBaseCost + r.priorityFeePaid
  }

  lemma {:induction false} AllocationMeans(params: seq<Params>, tx: Transaction, r: FeeResult)
    requires Allocates(params, tx, Ok(r))
    ensures Bills(params, tx, r)
  {
    BaseSumIsCostSum(params, tx.usage, r.allocations);
    forall i | 0 <= i < |tx.usage|
      ensures BilledAt(params, tx.usage[i], r.allocations[i], r.priorityFeePaid, r.totalBaseCost, i == 0)
    {
      var u := tx.usage[i];
      LookupMeans(params, u.dimension);
      assert Priced(params, u) && WithinMaximum(params, u);
      var k: nat :| FirstFor(params, u.dimension, k) && FindParams(params, u.dimension).value == params[k];
      assert r.allocations[i].baseCost == Cut(params[k].baseFee * u.amount);
    }
  }

  // ---- refusals ----

  /** The complaint about entry `i`, whatever the others are. */
  ghost predicate Objectionable(params: seq<Params>, usage: seq<Usage>, i: nat, e: Error)
    requires i < |usage|
  {
    var u := usage[i];
    var repeated := exists j :: 0 <= j < i && usage[j].dimension == u.dimension;
    match e
    case DuplicateDimension(d) => d == u.dimension && repeated
    case ZeroBaseFee(d) =>
      && d == u.dimension && !repeated
      && (NoneFor(params, d) || exists k: nat :: FirstFor(params, d, k) && params[k].baseFee == 0)
    case ExceedsMaxUsage(d, amount, max) =>
      && d == u.dimension && !repeated && amount == u.amount > max
      && exists k: nat :: FirstFor(params, d, k) && params[k].baseFee > 0 && params[k].maxUsage == max
    case InsufficientFee(_, _) => false
    case NoResourceUsage => false
  }

  lemma {:induction false} ComplaintMeans(params: seq<Params>, usage: seq<Usage>, i: nat, e: Error)
    requires i < |usage|
    ensures Complaint(params, usage, i) == Some(e) <==> Objectionable(params, usage, i, e)
  {
    LookupMeans(params, usage[i].dimension);
    assert Repeats(usage, i) <==> exists j :: 0 <= j < i && usage[j].dimension == usage[i].dimension;
  }

  ghost predicate Unobjectionable(params: seq<Params>, usage: seq<Usage>, n: nat)
    requires n <= |usage|
  {
    forall i, e :: 0 <= i < n ==> !Objectionable(params, usage, i, e)
  }

  lemma {:induction false} NoComplaint(params: seq<Params>, usage: seq<Usage>, i: nat)
    requires i < |usage| && forall e :: !Objectionable(params, usage, i, e)
    ensures Complaint(params, usage, i) == None
  {
    var c := Complaint(params, usage, i);
    if c.Some? {
      ComplaintMeans(params, usage, i, c.value);
      assert false;
    }
  }

  lemma {:induction false} CleanMeans(params: seq<Params>, usage: seq<Usage>, n: nat)
    requires n <= |usage|
    ensures CleanUpTo(params, usage, n) <==> Unobjectionable(params, usage, n)
  {
    forall i, e | 0 <= i < n ensures Complaint(params, usage, i) == Some(e) <==> Objectionable(params, usage, i, e) {
      ComplaintMeans(params, usage, i, e);
    }
    if Unobjectionable(params, usage, n) {
      forall i | 0 <= i < n ensures Complaint(params, usage, i) == None {
        NoComplaint(params, usage, i);
      }
    }
  }

  /** The limit is below the sum of the prices. */
  ghost predicate TooLittle(params: seq<Params>, tx: Transaction, e: Error) {
    exists prices :: PricesAre(params, tx.usage, prices)
                     && e == InsufficientFee(Cut(Sum(prices)), tx.maxFee) && tx.maxFee < Cut(Sum(prices))
  }

  lemma {:induction false} TooLittleMeans(params: seq<Params>, tx: Transaction, e: Error)
    ensures TooLittle(params, tx, e) <==>
            e == InsufficientFee(Saturated(CostSum(params, tx.usage)), tx.maxFee)
            && tx.maxFee < Saturated(CostSum(params, tx.usage))
  {
    CostSumIsSum(params, tx.usage);
    if prices :| PricesAre(params, tx.usage, prices) && e == InsufficientFee(Cut(Sum(prices)), tx.maxFee) {
      PricesUnique(params, tx.usage, prices, Costs(params, tx.usage));
    }
  }

  /** Allocation refuses a transaction for having no usage, for its first objectionable entry, or for a fee
      limit below the sum of its prices. */
  lemma {:induction false} RefusalMeans(params: seq<Params>, tx: Transaction, e: Error)
    ensures RefusedFor(params, tx, e) <==>
            || (tx.usage == [] && e == NoResourceUsage)
            || (exists i :: 0 <= i < |tx.usage| && Unobjectionable(params, tx.usage, i)
                            && Objectionable(params, tx.usage, i, e))
            || (tx.usage != [] && Unobjectionable(params, tx.usage, |tx.usage|) && TooLittle(params, tx, e))
  {
    var usage, n := tx.usage, |tx.usage|;
    BillableIffClean(params, usage);
    CleanMeans(params, usage, n);
    TooLittleMeans(params, tx, e);
    forall i | 0 <= i < n
      ensures CleanUpTo(params, usage, i) <==> Unobjectionable(params, usage, i)
      ensures Complaint(params, usage, i) == Some(e) <==> Objectionable(params, usage, i, e)
    {
      CleanMeans(params, usage, i);
      ComplaintMeans(params, usage, i, e);
    }
  }

  lemma {:induction false} PricesUnique(params: seq<Params>, usage: seq<Usage>, a: seq<nat>, b: seq<nat>)
    requires PricesAre(params, usage, a) && PricesAre(params, usage, b)
    ensures a == b
  {
    forall i | 0 <= i < |usage| ensures a[i] == b[i] {
      LookupMeans(params, usage[i].dimension);
      assert PriceIs(params, usage[i], a[i]) && PriceIs(params, usage[i], b[i]);
    }
  }

  // ---- validation ----

  /** Something to report, told from the lists. */
  ghost predicate Reportable(params: seq<Params>, tx: Transaction, e: Error) {
    var usage := tx.usage;
    match e
    case NoResourceUsage => usage == []
    case DuplicateDimension(d) =>
      exists i, j :: 0 <= i < j < |usage| && usage[i].dimension == usage[j].dimension == d
    case ExceedsMaxUsage(d, amount, max) =>
      exists i, k: nat :: 0 <= i < |usage| && usage[i] == Usage(d, amount) && FirstFor(params, d, k)
                     && params[k].maxUsage == max < amount
    case InsufficientFee(_, _) => TooLittle(params, tx, e)
    case ZeroBaseFee(_) => false
  }

  lemma {:induction false} InEither<T>(a: seq<T>, b: seq<T>, x: T)
    ensures x in a + b <==> x in a || x in b
  {
  }

  function Count(errors: seq<Error>, e: Error): nat {
    multiset(errors)[e]
  }

  lemma {:induction false} InPart<T>(parts: seq<seq<T>>, x: T) returns (i: nat)
    requires x in Concat(parts)
    ensures i < |parts| && x in parts[i]
  {
    i := |parts| - 1;
    InEither(Concat(parts[..i]), parts[i], x);
    if x !in parts[i] {
      i := InPart(parts[..i], x);
    }
  }

  lemma {:induction false} EntryParts(params: seq<Params>, usage: seq<Usage>, n: nat) returns (parts: seq<seq<Error>>)
    requires n <= |usage|
    ensures |parts| == n && Concat(parts) == ErrorsUpTo(params, usage, n)
    ensures forall i :: 0 <= i < n ==> parts[i] == EntryErrors(params, usage, i)
  {
    parts := [];
    if n > 0 {
      var before := EntryParts(params, usage, n - 1);
      parts := before + [EntryErrors(params, usage, n - 1)];
      assert parts[..n - 1] == before;
    }
  }

  lemma {:induction false} FromEntry(params: seq<Params>, usage: seq<Usage>, n: nat, e: Error) returns (i: nat)
    requires n <= |usage| && e in ErrorsUpTo(params, usage, n)
    ensures i < n && e in EntryErrors(params, usage, i)
  {
    var parts := EntryParts(params, usage, n);
    i := InPart(parts, e);
  }

  lemma {:induction false} EntryMeans(params: seq<Params>, tx: Transaction, i: nat, e: Error)
    requires i < |tx.usage| && e in EntryErrors(params, tx.usage, i)
    ensures Reportable(params, tx, e) && (e.DuplicateDimension? || e.ExceedsMaxUsage?)
  {
    LookupMeans(params, tx.usage[i].dimension);
    if e.DuplicateDimension? {
      var j :| 0 <= j < i && tx.usage[j].dimension == tx.usage[i].dimension;
    } else {
      assert tx.usage[i] == Usage(e.dimension, e.amount);
    }
  }

  lemma {:induction false} ReportedEntry(params: seq<Params>, tx: Transaction, e: Error)
    requires Reportable(params, tx, e) && (e.DuplicateDimension? || e.ExceedsMaxUsage?)
    ensures e in ErrorsUpTo(params, tx.usage, |tx.usage|)
  {
    var usage, n := tx.usage, |tx.usage|;
    if e.DuplicateDimension? {
      var i: nat, j: nat :| i < j < n && usage[i].dimension == usage[j].dimension == e.dimension;
      assert Repeats(usage, j);
      var k := FirstRepetition(usage, j);
      Reported(params, usage, n, k, e);
    } else {
      var i: nat, k: nat :| i < n && usage[i] == Usage(e.dimension, e.amount) && FirstFor(params, e.dimension, k)
                            && params[k].maxUsage == e.max < e.amount;
      LookupMeans(params, e.dimension);
      Reported(params, usage, n, i, e);
    }
  }

  /** Validation reports exactly what there is to report. */
  lemma {:induction false} ValidationMeans(params: seq<Params>, tx: Transaction, e: Error)
    ensures e in ValidationErrors(params, tx) <==> Reportable(params, tx, e)
  {
    var usage, n := tx.usage, |tx.usage|;
    TooLittleMeans(params, tx, e);
    if e in ErrorsUpTo(params, usage, n) {
      var i := FromEntry(params, usage, n, e);
      EntryMeans(params, tx, i, e);
    } else if Reportable(params, tx, e) && (e.DuplicateDimension? || e.ExceedsMaxUsage?) {
      ReportedEntry(params, tx, e);
    }
  }

  lemma {:induction false} SecondUseUnique(usage: seq<Usage>, i: nat, j: nat)
    requires i < |usage| && j < |usage| && usage[i].dimension == usage[j].dimension
    requires SecondUse(usage, i) && SecondUse(usage, j)
    ensures i == j
  {
  }

  lemma {:induction false} EntryDuplicates(params: seq<Params>, usage: seq<Usage>, i: nat, d: Dimension)
    requires i < |usage|
    ensures Count(EntryErrors(params, usage, i), DuplicateDimension(d)) ==
            if SecondUse(usage, i) && usage[i].dimension == d then 1 else 0
  {
    var errors := EntryErrors(params, usage, i);
    assert SecondUse(usage, i) ==> errors == [errors[0]] + errors[1..];
  }

  /** A repeated dimension is reported by one entry only, and once by it. */
  lemma {:induction false} DuplicatesReportedOnce(params: seq<Params>, usage: seq<Usage>, i: nat, j: nat, d: Dimension)
    requires i < |usage| && j < |usage|
    requires DuplicateDimension(d) in EntryErrors(params, usage, i)
    requires DuplicateDimension(d) in EntryErrors(params, usage, j)
    ensures i == j && Count(EntryErrors(params, usage, i), DuplicateDimension(d)) == 1
  {
    EntryDuplicates(params, usage, i, d);
    SecondUseUnique(usage, i, j);
  }
}
