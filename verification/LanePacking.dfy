/** Packing lanes on workers, largest first onto the least loaded: never worse than 4/3 of optimal. */
module LanePacking {
  import opened Common
  import opened Lanes
  import Orders

  // ---- packings ----

  /** Sum of `jobs` that `packing` puts on worker `w`. */
  function LoadOn(jobs: seq<nat>, packing: seq<nat>, w: nat): nat
    requires |packing| == |jobs|
  {
    if jobs == [] then 0
    else
      var n := |jobs| - 1;
      LoadOn(jobs[..n], packing[..n], w) + (if packing[n] == w then jobs[n] else 0)
  }

  /** Sum of the loads of workers `0..m`. */
  ghost function TotalLoad(jobs: seq<nat>, packing: seq<nat>, m: nat): nat
    requires |packing| == |jobs|
  {
    if m == 0 then 0 else TotalLoad(jobs, packing, m - 1) + LoadOn(jobs, packing, m - 1)
  }

  /** `packing` sends every job to one of `m` workers and loads none beyond `bound`. */
  ghost predicate Fits(jobs: seq<nat>, packing: seq<nat>, m: nat, bound: nat) {
    && |packing| == |jobs|
    && (forall i :: 0 <= i < |packing| ==> packing[i] < m)
    && (forall w: nat :: w < m ==> LoadOn(jobs, packing, w) <= bound)
  }

  /** The largest load of a packing. */
  ghost predicate IsMakespan(jobs: seq<nat>, packing: seq<nat>, m: nat, makespan: nat) {
    Fits(jobs, packing, m, makespan) && exists w: nat :: w < m && LoadOn(jobs, packing, w) == makespan
  }

  /** No packing whatsoever has a makespan below `3m / (4m - 1)` of `load`. */
  ghost predicate NearOptimal(jobs: seq<nat>, m: nat, load: nat) {
    forall packing, bound: nat :: Fits(jobs, packing, m, bound) ==> 3 * m * load <= (4 * m - 1) * bound
  }

  lemma {:induction false} TotalLoadStep(jobs: seq<nat>, packing: seq<nat>, m: nat)
    requires |packing| == |jobs| > 0
    ensures var n := |jobs| - 1;
            TotalLoad(jobs, packing, m) ==
            TotalLoad(jobs[..n], packing[..n], m) + (if packing[n] < m then jobs[n] else 0)
  {
    if m > 0 {
      TotalLoadStep(jobs, packing, m - 1);
    }
  }

  lemma {:induction false} TotalLoadIsSum(jobs: seq<nat>, packing: seq<nat>, m: nat)
    requires |packing| == |jobs| && forall i :: 0 <= i < |packing| ==> packing[i] < m
    ensures TotalLoad(jobs, packing, m) == Sum(jobs)
  {
    if jobs == [] {
      TotalLoadEmpty(packing, m);
    } else {
      TotalLoadStep(jobs, packing, m);
      TotalLoadIsSum(jobs[..|jobs| - 1], packing[..|jobs| - 1], m);
    }
  }

  lemma {:induction false} TotalLoadEmpty(packing: seq<nat>, m: nat)
    requires |packing| == 0
    ensures TotalLoad([], packing, m) == 0
  {
    if m > 0 {
      TotalLoadEmpty(packing, m - 1);
    }
  }

  lemma {:induction false} TotalLoadAtMost(jobs: seq<nat>, packing: seq<nat>, m: nat, bound: nat)
    requires |packing| == |jobs| && forall w: nat :: w < m ==> LoadOn(jobs, packing, w) <= bound
    ensures TotalLoad(jobs, packing, m) <= m * bound
  {
    if m > 0 {
      TotalLoadAtMost(jobs, packing, m - 1, bound);
      assert m * bound == (m - 1) * bound + bound;
    }
  }

  lemma {:induction false} TotalLoadAtLeast(jobs: seq<nat>, packing: seq<nat>, m: nat, bound: nat)
    requires |packing| == |jobs| && forall w: nat :: w < m ==> LoadOn(jobs, packing, w) >= bound
    ensures TotalLoad(jobs, packing, m) >= m * bound
  {
    if m > 0 {
      TotalLoadAtLeast(jobs, packing, m - 1, bound);
      assert m * bound == (m - 1) * bound + bound;
    }
  }

  // ---- counting big jobs twice ----

  /** Jobs too big to share a worker with even the smallest job `least` within `bound`. */
  function Count(job: nat, least: nat, bound: nat): nat {
    if job + least > bound then 2 else 1
  }

  function Counts(jobs: seq<nat>, least: nat, bound: nat): (c: seq<nat>)
    ensures |c| == |jobs|
    ensures forall i :: 0 <= i < |jobs| ==> c[i] == Count(jobs[i], least, bound)
  {
    seq(|jobs|, i requires 0 <= i < |jobs| => Count(jobs[i], least, bound))
  }

  lemma {:induction false} CountsPrefix(jobs: seq<nat>, least: nat, bound: nat, n: nat)
    requires n <= |jobs|
    ensures Counts(jobs, least, bound)[..n] == Counts(jobs[..n], least, bound)
  {
  }

  /** A worker loaded within `bound` has a count of at most 2 when three jobs never fit. */
  lemma {:induction false} CountAtMostTwo(jobs: seq<nat>, packing: seq<nat>, w: nat, least: nat, bound: nat)
    requires |packing| == |jobs| && 3 * least > bound
    requires forall i :: 0 <= i < |jobs| ==> jobs[i] >= least
    requires LoadOn(jobs, packing, w) <= bound
    ensures var c, load := LoadOn(Counts(jobs, least, bound), packing, w), LoadOn(jobs, packing, w);
            (c == 0 && load == 0) || (c == 1 && load >= least) || (c == 2 && load + least > bound)
  {
    if jobs != [] {
      var n := |jobs| - 1;
      CountAtMostTwo(jobs[..n], packing[..n], w, least, bound);
      CountsPrefix(jobs, least, bound, n);
    }
  }

  /** A worker on which `least` no longer fits has a count of at least 2. */
  lemma {:induction false} CountAtLeastTwo(jobs: seq<nat>, packing: seq<nat>, w: nat, least: nat, bound: nat)
    requires |packing| == |jobs| && least <= bound
    ensures var c, load := LoadOn(Counts(jobs, least, bound), packing, w), LoadOn(jobs, packing, w);
            c >= 2 || load + least <= bound
    ensures LoadOn(Counts(jobs, least, bound), packing, w) == 0 ==> LoadOn(jobs, packing, w) == 0
  {
    if jobs != [] {
      var n := |jobs| - 1;
      CountAtLeastTwo(jobs[..n], packing[..n], w, least, bound);
      CountsPrefix(jobs, least, bound, n);
    }
  }

  /** If three jobs never fit within `bound`, a least-loaded worker always has room for the next job. */
  lemma {:induction false} RoomForNext(jobs: seq<nat>, job: nat, m: nat, greedy: seq<nat>, low: nat,
                                       packing: seq<nat>, bound: nat)
    requires |greedy| == |jobs| && (forall i :: 0 <= i < |greedy| ==> greedy[i] < m)
    requires forall w: nat :: w < m ==> LoadOn(jobs, greedy, w) >= low
    requires forall i :: 0 <= i < |jobs| ==> jobs[i] >= job
    requires Fits(jobs + [job], packing, m, bound) && 3 * job > bound
    ensures low + job <= bound
  {
    var all := jobs + [job];
    var counts := Counts(all, job, bound);
    assert all[..|jobs|] == jobs;
    CountsPrefix(all, job, bound, |jobs|);
    LastFits(jobs, job, packing, m, bound);
    assert Sum(counts) >= Sum(Counts(jobs, job, bound)) + 1;
    if low + job > bound {
      forall w: nat | w < m ensures LoadOn(counts, packing, w) <= 2 {
        CountAtMostTwo(all, packing, w, job, bound);
      }
      TotalLoadAtMost(counts, packing, m, 2);
      TotalLoadIsSum(counts, packing, m);
      forall w: nat | w < m ensures LoadOn(Counts(jobs, job, bound), greedy, w) >= 2 {
        CountAtLeastTwo(jobs, greedy, w, job, bound);
      }
      TotalLoadAtLeast(Counts(jobs, job, bound), greedy, m, 2);
      TotalLoadIsSum(Counts(jobs, job, bound), greedy, m);
    }
  }

  lemma {:induction false} LastFits(jobs: seq<nat>, job: nat, packing: seq<nat>, m: nat, bound: nat)
    requires Fits(jobs + [job], packing, m, bound)
    ensures job <= bound && Fits(jobs, packing[..|jobs|], m, bound)
    ensures Sum(jobs) + job <= m * bound
  {
    var all := jobs + [job];
    assert all[..|jobs|] == jobs;
    assert LoadOn(all, packing, packing[|jobs|]) <= bound;
    forall w: nat | w < m ensures LoadOn(jobs, packing[..|jobs|], w) <= bound {
      assert LoadOn(all, packing, w) <= bound;
    }
    TotalLoadIsSum(all, packing, m);
    TotalLoadAtMost(all, packing, m, bound);
  }

  /** One placement keeps every worker near optimal. */
  lemma {:induction false} PlaceNearOptimal(jobs: seq<nat>, job: nat, m: nat, greedy: seq<nat>, low: nat)
    requires m > 0 && |greedy| == |jobs| && (forall i :: 0 <= i < |greedy| ==> greedy[i] < m)
    requires forall w: nat :: w < m ==> LoadOn(jobs, greedy, w) >= low
    requires forall i :: 0 <= i < |jobs| ==> jobs[i] >= job
    ensures NearOptimal(jobs + [job], m, low + job)
  {
    forall packing, bound: nat | Fits(jobs + [job], packing, m, bound)
      ensures 3 * m * (low + job) <= (4 * m - 1) * bound
    {
      if 3 * job > bound {
        RoomForNext(jobs, job, m, greedy, low, packing, bound);
        ScaleFit(m, low + job, bound);
      } else {
        LastFits(jobs, job, packing, m, bound);
        TotalLoadIsSum(jobs, greedy, m);
        TotalLoadAtLeast(jobs, greedy, m, low);
        ScaleAverage(m, low, job, Sum(jobs), bound);
      }
    }
  }

  lemma {:induction false} ScaleFit(m: nat, load: nat, bound: nat)
    requires m > 0 && load <= bound
    ensures 3 * m * load <= (4 * m - 1) * bound
  {
    MulMonotone(3 * m, load, bound);
    MulMonotone(bound, 3 * m, 4 * m - 1);
  }

  lemma {:induction false} ScaleAverage(m: nat, low: nat, job: nat, sum: nat, bound: nat)
    requires m > 0 && m * low <= sum && sum + job <= m * bound && 3 * job <= bound
    ensures 3 * m * (low + job) <= (4 * m - 1) * bound
  {
    Regroup(m, low, job);
    MulPred(m, job);
    MulPred(m, bound);
    MulMonotone(m - 1, 3 * job, bound);
    assert (m - 1) * (3 * job) == 3 * ((m - 1) * job);
    assert (4 * m - 1) * bound == 4 * (m * bound) - bound;
  }

  lemma {:induction false} Regroup(m: nat, a: nat, b: nat)
    ensures 3 * m * (a + b) == 3 * (m * a) + 3 * (m * b)
  {
  }

  lemma {:induction false} NearOptimalGrows(jobs: seq<nat>, job: nat, m: nat, load: nat)
    requires NearOptimal(jobs, m, load)
    ensures NearOptimal(jobs + [job], m, load)
  {
    forall packing, bound: nat | Fits(jobs + [job], packing, m, bound)
      ensures 3 * m * load <= (4 * m - 1) * bound
    {
      LastFits(jobs, job, packing, m, bound);
    }
  }

  // ---- the packing loop ----

  /** The first worker with the least load. */
  method LeastLoaded(workers: seq<nat>) returns (index: nat)
    requires workers != []
    ensures index < |workers|
    ensures forall w :: 0 <= w < |workers| ==> workers[index] <= workers[w]
    ensures forall w :: 0 <= w < index ==> workers[index] < workers[w]
  {
    index := 0;
    for i := 1 to |workers|
      invariant index < i
      invariant forall w :: 0 <= w < i ==> workers[index] <= workers[w]
      invariant forall w :: 0 <= w < index ==> workers[index] < workers[w]
    {
      if workers[i] < workers[index] {
        index := i;
      }
    }
  }

  /** After placing `jobs`: the workers' loads, all near optimal and near the average. */
  ghost predicate Packed(jobs: seq<nat>, packing: seq<nat>, m: nat, largest: nat, loads: seq<nat>) {
    && |packing| == |jobs| && |loads| == m
    && (forall k :: 0 <= k < |packing| ==> packing[k] < m)
    && (forall w :: 0 <= w < m ==> loads[w] == LoadOn(jobs, packing, w))
    && (forall w :: 0 <= w < m ==> NearOptimal(jobs, m, loads[w]))
    && (forall w :: 0 <= w < m ==> NearAverage(jobs, m, largest, loads[w]))
  }

  /** The list-scheduling bound. */
  ghost predicate NearAverage(jobs: seq<nat>, m: nat, largest: nat, load: nat) {
    load <= Sum(jobs) && m * load <= Sum(jobs) + (m - 1) * largest
  }

  lemma {:induction false} PackStep(jobs: seq<nat>, job: nat, packing: seq<nat>, m: nat, largest: nat,
                                    loads: seq<nat>, index: nat)
    requires m > 0 && Packed(jobs, packing, m, largest, loads) && job <= largest
    requires forall i :: 0 <= i < |jobs| ==> jobs[i] >= job
    requires index < m && forall w :: 0 <= w < m ==> loads[index] <= loads[w]
    ensures Packed(jobs + [job], packing + [index], m, largest, loads[index := loads[index] + job])
  {
    var all, packing', loads' := jobs + [job], packing + [index], loads[index := loads[index] + job];
    assert all[..|jobs|] == jobs && packing'[..|jobs|] == packing;
    PlaceNearOptimal(jobs, job, m, packing, loads[index]);
    PlaceAverage(jobs, job, m, packing, loads[index], largest);
    forall w | 0 <= w < m ensures NearOptimal(all, m, loads'[w]) && NearAverage(all, m, largest, loads'[w]) {
      if w != index {
        NearOptimalGrows(jobs, job, m, loads[w]);
        assert NearAverage(jobs, m, largest, loads[w]);
      }
    }
  }

  lemma {:induction false} PackStart(m: nat, largest: nat, loads: seq<nat>)
    requires m > 0 && |loads| == m && forall w :: 0 <= w < m ==> loads[w] == 0
    ensures Packed([], [], m, largest, loads)
  {
    forall w | 0 <= w < m ensures NearOptimal([], m, loads[w]) && NearAverage([], m, largest, loads[w]) {
      forall packing, bound: nat | Fits([], packing, m, bound) ensures 3 * m * 0 <= (4 * m - 1) * bound {
        MulMonotone(4 * m - 1, 0, bound);
      }
      MulMonotone(m - 1, 0, largest);
    }
  }

  /** Largest first, each lane onto the least loaded worker. */
  method PackLanes(depths: seq<nat>, m: nat) returns (makespan: nat, ghost packing: seq<nat>)
    requires m > 0
    requires forall i, j :: 0 <= i < j < |depths| ==> depths[i] >= depths[j]
    ensures IsMakespan(depths, packing, m, makespan)
    ensures Sum(depths) <= m * makespan && makespan <= Sum(depths)
    ensures depths != [] ==> m * makespan <= Sum(depths) + (m - 1) * depths[0]
    ensures NearOptimal(depths, m, makespan)
  {
    var workers := new nat[m](_ => 0);
    packing := [];
    ghost var largest := if depths == [] then 0 else depths[0];
    PackStart(m, largest, workers[..]);
    for i := 0 to |depths|
      invariant Packed(depths[..i], packing, m, largest, workers[..])
    {
      var index := LeastLoaded(workers[..]);
      ghost var before := workers[..];
      PackStep(depths[..i], depths[i], packing, m, largest, before, index);
      workers[index] := workers[index] + depths[i];
      packing := packing + [index];
      assert workers[..] == before[index := before[index] + depths[i]];
      assert depths[..i + 1] == depths[..i] + [depths[i]];
    }
    assert depths[..|depths|] == depths;
    makespan := Largest(workers[..]);
    ghost var w :| 0 <= w < m && workers[w] == makespan;
    assert LoadOn(depths, packing, w) == makespan;
    assert NearAverage(depths, m, largest, makespan);
    TotalLoadIsSum(depths, packing, m);
    TotalLoadAtMost(depths, packing, m, makespan);
  }

  method Largest(loads: seq<nat>) returns (max: nat)
    requires loads != []
    ensures max in loads && forall w :: 0 <= w < |loads| ==> loads[w] <= max
  {
    max := loads[0];
    for w := 1 to |loads|
      invariant max in loads && forall v :: 0 <= v < w ==> loads[v] <= max
    {
      if loads[w] > max {
        max := loads[w];
      }
    }
  }

  /** The classic list-scheduling step: the new load is at most the average plus one largest job. */
  lemma {:induction false} PlaceAverage(jobs: seq<nat>, job: nat, m: nat, greedy: seq<nat>, low: nat, largest: nat)
    requires m > 0 && |greedy| == |jobs| && (forall i :: 0 <= i < |greedy| ==> greedy[i] < m)
    requires forall w: nat :: w < m ==> LoadOn(jobs, greedy, w) >= low
    requires job <= largest
    ensures m * (low + job) <= Sum(jobs + [job]) + (m - 1) * largest
    ensures Sum(jobs + [job]) == Sum(jobs) + job && low <= Sum(jobs)
  {
    assert (jobs + [job])[..|jobs|] == jobs;
    TotalLoadIsSum(jobs, greedy, m);
    TotalLoadAtLeast(jobs, greedy, m, low);
    MulPred(m, low);
    MulPred(m, low + job);
    MulMonotone(m - 1, job, largest);
    assert (m - 1) * (low + job) == (m - 1) * low + (m - 1) * job;
    MulMonotone(m - 1, 0, low);
  }

  lemma {:induction false} MulPred(m: nat, x: nat)
    requires m > 0
    ensures m * x == (m - 1) * x + x
  {
  }

  lemma {:induction false} MulMonotone(k: nat, a: nat, b: nat)
    requires a <= b
    ensures k * a <= k * b
  {
  }

  // ---- lane depths ----

  ghost predicate DepthTable(txs: seq<Assignment>, depths: map<LaneId, nat>) {
    forall lane :: (lane in depths <==> LaneIndices(txs, lane) != []) &&
                   (lane in depths ==> depths[lane] == |LaneIndices(txs, lane)|)
  }

  method LaneDepths(txs: seq<Assignment>) returns (depths: map<LaneId, nat>)
    ensures DepthTable(txs, depths)
  {
    depths := map[];
    for i := 0 to |txs|
      invariant DepthTable(txs[..i], depths)
    {
      assert txs[..i + 1] == txs[..i] + [txs[i]];
      forall lane
        ensures LaneIndices(txs[..i + 1], lane) ==
                LaneIndices(txs[..i], lane) + (if txs[i].lane == lane then [i] else [])
      {
        LaneStep(txs[..i], txs[i], lane);
      }
      var lane := txs[i].lane;
      depths := depths[lane := (if lane in depths then depths[lane] else 0) + 1];
    }
    assert txs[..|txs|] == txs;
  }

  /** `lanes` lists the lanes in use once each, deepest first, and `depths` their depths. */
  ghost predicate Listing(table: map<LaneId, nat>, lanes: seq<LaneId>, depths: seq<nat>) {
    && |lanes| == |depths|
    && (forall i, j :: 0 <= i < j < |lanes| ==> lanes[i] != lanes[j])
    && (forall lane :: lane in table <==> lane in lanes)
    && (forall i :: 0 <= i < |lanes| ==> lanes[i] in table && depths[i] == table[lanes[i]])
  }

  /** The depths in descending order: the library sort of the collected values. */
  method SortedDepths(table: map<LaneId, nat>) returns (depths: seq<nat>, ghost lanes: seq<LaneId>)
    ensures forall i, j :: 0 <= i < j < |depths| ==> depths[i] >= depths[j]
    ensures Listing(table, lanes, depths)
  {
    var deeper := (a: LaneId, b: LaneId) => DepthIn(table, a) >= DepthIn(table, b);
    var order := Orders.SortedElements(deeper, table.Keys);
    lanes, depths := order, [];
    for i := 0 to |order|
      invariant |depths| == i && forall j :: 0 <= j < i ==> order[j] in table && depths[j] == table[order[j]]
    {
      assert order[i] in table;
      depths := depths + [table[order[i]]];
    }
    forall i, j | 0 <= i < j < |depths| ensures depths[i] >= depths[j] {
      assert deeper(order[i], order[j]);
    }
  }

  function DepthIn(table: map<LaneId, nat>, lane: LaneId): nat {
    if lane in table then table[lane] else 0
  }

  function Occurrences(lanes: seq<LaneId>, lane: LaneId): nat {
    if lanes == [] then 0
    else Occurrences(lanes[..|lanes| - 1], lane) + (if lanes[|lanes| - 1] == lane then 1 else 0)
  }

  /** Depths of the listed lanes, summed. */
  ghost function DepthSum(txs: seq<Assignment>, lanes: seq<LaneId>): nat {
    if lanes == [] then 0
    else DepthSum(txs, lanes[..|lanes| - 1]) + |LaneIndices(txs, lanes[|lanes| - 1])|
  }

  lemma {:induction false} DepthSumStep(txs: seq<Assignment>, tx: Assignment, lanes: seq<LaneId>)
    ensures DepthSum(txs + [tx], lanes) == DepthSum(txs, lanes) + Occurrences(lanes, tx.lane)
  {
    if lanes != [] {
      DepthSumStep(txs, tx, lanes[..|lanes| - 1]);
      LaneStep(txs, tx, lanes[|lanes| - 1]);
    }
  }

  lemma {:induction false} OccursOnce(lanes: seq<LaneId>, lane: LaneId)
    requires forall i, j :: 0 <= i < j < |lanes| ==> lanes[i] != lanes[j]
    ensures Occurrences(lanes, lane) == if lane in lanes then 1 else 0
  {
    if lanes != [] {
      var init := lanes[..|lanes| - 1];
      assert lanes == init + [lanes[|lanes| - 1]];
      OccursOnce(init, lane);
    }
  }

  lemma {:induction false} DepthSumIsTotal(txs: seq<Assignment>, lanes: seq<LaneId>)
    requires forall i, j :: 0 <= i < j < |lanes| ==> lanes[i] != lanes[j]
    requires forall i :: 0 <= i < |txs| ==> txs[i].lane in lanes
    ensures DepthSum(txs, lanes) == |txs|
  {
    if txs == [] {
      DepthSumEmpty(lanes);
    } else {
      var init, last := txs[..|txs| - 1], txs[|txs| - 1];
      assert txs == init + [last];
      DepthSumIsTotal(init, lanes);
      DepthSumStep(init, last, lanes);
      OccursOnce(lanes, last.lane);
    }
  }

  lemma {:induction false} DepthSumEmpty(lanes: seq<LaneId>)
    ensures DepthSum([], lanes) == 0
  {
    if lanes != [] {
      DepthSumEmpty(lanes[..|lanes| - 1]);
    }
  }

  lemma {:induction false} SumIsDepthSum(txs: seq<Assignment>, lanes: seq<LaneId>, depths: seq<nat>)
    requires |lanes| == |depths| && forall i :: 0 <= i < |lanes| ==> depths[i] == |LaneIndices(txs, lanes[i])|
    ensures Sum(depths) == DepthSum(txs, lanes)
  {
    if lanes != [] {
      SumIsDepthSum(txs, lanes[..|lanes| - 1], depths[..|lanes| - 1]);
    }
  }

  lemma {:induction false} LaneOfTx(txs: seq<Assignment>, i: nat)
    requires i < |txs|
    ensures LaneIndices(txs, txs[i].lane) != []
  {
    if i < |txs| - 1 {
      LaneOfTx(txs[..|txs| - 1], i);
    }
  }

  /** The lanes in use together hold every transaction once. */
  lemma {:induction false} ListedDepthsCoverBlock(txs: seq<Assignment>, table: map<LaneId, nat>, lanes: seq<LaneId>,
                                                  depths: seq<nat>)
    requires DepthTable(txs, table) && Listing(table, lanes, depths)
    ensures Sum(depths) == |txs|
  {
    SumIsDepthSum(txs, lanes, depths);
    forall i | 0 <= i < |txs| ensures txs[i].lane in lanes {
      LaneOfTx(txs, i);
    }
    DepthSumIsTotal(txs, lanes);
  }

  function Workers(config: Config): nat {
    if config.parallelLanes == 0 then 1 else config.parallelLanes
  }

  /** The speed-up of a block: at least 1, at most the number of workers, and within 4/3 of the best
      that any assignment of whole lanes to workers achieves. */
  ghost predicate GoodRatio(total: nat, m: nat, depths: seq<nat>, makespan: nat, ratio: real) {
    && ratio * makespan as real == total as real
    && 1.0 <= ratio <= m as real
    && (exists packing :: IsMakespan(depths, packing, m, makespan))
    && NearOptimal(depths, m, makespan)
  }

  method RatioOf(total: nat, depths: seq<nat>, m: nat) returns (ratio: real, ghost makespan: nat)
    requires m > 0 && Sum(depths) == total > 0
    requires forall i, j :: 0 <= i < j < |depths| ==> depths[i] >= depths[j]
    ensures GoodRatio(total, m, depths, makespan, ratio)
  {
    var span;
    ghost var packing;
    span, packing := PackLanes(depths, m);
    makespan := span;
    PositiveSpan(total, span, m);
    if span == 0 {
      ratio := 0.0;
    } else {
      ratio := total as real / span as real;
      MakespanRatio(total, depths, packing, m, span);
    }
  }

  lemma {:induction false} PositiveSpan(total: nat, span: nat, m: nat)
    requires 0 < total <= m * span
    ensures span > 0
  {
    assert span == 0 ==> m * span == 0;
  }

  lemma {:induction false} MakespanRatio(total: nat, depths: seq<nat>, packing: seq<nat>, m: nat, span: nat)
    requires 0 < span <= total <= m * span && IsMakespan(depths, packing, m, span) && NearOptimal(depths, m, span)
    ensures GoodRatio(total, m, depths, span, total as real / span as real)
  {
    RatioBounds(total, span, m);
  }

  method ParallelismRatio(txs: seq<Assignment>, config: Config)
    returns (ratio: real, ghost table: map<LaneId, nat>, ghost lanes: seq<LaneId>, ghost depths: seq<nat>,
             ghost makespan: nat)
    ensures DepthTable(txs, table) && Listing(table, lanes, depths) && Sum(depths) == |txs|
    ensures txs == [] ==> ratio == 0.0
    ensures txs != [] ==>
              GoodRatio(|txs|, if config.parallelLanes > 1 then config.parallelLanes else 1, depths, makespan, ratio)
  {
    var depthOf := LaneDepths(txs);
    var sorted;
    sorted, lanes := SortedDepths(depthOf);
    table, depths := depthOf, sorted;
    ListedDepthsCoverBlock(txs, table, lanes, depths);
    if |txs| == 0 {
      return 0.0, table, lanes, depths, 0;
    }
    ratio, makespan := RatioOf(|txs|, sorted, Workers(config));
  }

  lemma {:induction false} QuotientWithin(n: real, span: real, m: real)
    requires 0.0 < span <= n <= m * span
    ensures (n / span) * span == n && 1.0 <= n / span <= m
  {
    var ratio := n / span;
    assert ratio * span == n;
    assert (m - ratio) * span >= 0.0;
    assert (ratio - 1.0) * span >= 0.0;
  }

  lemma {:induction false} RatioBounds(n: nat, span: nat, m: nat)
    requires 0 < span <= n <= m * span
    ensures var ratio := n as real / span as real;
            ratio * span as real == n as real && 1.0 <= ratio <= m as real
  {
    assert (m * span) as real == m as real * span as real;
    QuotientWithin(n as real, span as real, m as real);
  }
}
