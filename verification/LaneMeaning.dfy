/** What lane assignment accepts, groups and reports, told from the fields of the transactions alone. */
module LaneMeaning {
  import opened Common
  import opened Lanes
  import Orders

  /** The transaction names the key in its key list or in its conflict set. */
  predicate Touches(tx: Assignment, k: Key) {
    k in tx.stateKeys || k in tx.conflictSet
  }

  /** It has a hash, and no key it names is zero. */
  predicate Genuine(tx: Assignment) {
    tx.txHash != 0 && !Touches(tx, 0)
  }

  lemma {:induction false} KeysAreTouched(tx: Assignment)
    ensures Enters(tx) <==> Genuine(tx)
    ensures NormalizeKeys(tx).Ok? <==> !Touches(tx, 0)
    ensures forall k: Key :: k in KeysOf(tx) <==> !Touches(tx, 0) && Touches(tx, k)
    ensures NormalizeKeys(tx).Err? ==> NormalizeKeys(tx).error == InvalidStateKeys
  {
  }

  // ---- what a lane holds ----

  /** The exact gas of the genuine transactions of a lane. */
  function GasOf(txs: seq<Assignment>, lane: LaneId): nat {
    if txs == [] then 0
    else
      var last := txs[|txs| - 1];
      GasOf(txs[..|txs| - 1], lane) + if last.lane == lane && Genuine(last) then last.gas else 0
  }

  function MembersOf(txs: seq<Assignment>, lane: LaneId): set<nat> {
    set i: nat | i < |txs| && txs[i].lane == lane && Genuine(txs[i])
  }

  lemma {:induction false} MembersStep(txs: seq<Assignment>, lane: LaneId)
    requires txs != []
    ensures var n := |txs| - 1;
            MembersOf(txs, lane) ==
            MembersOf(txs[..n], lane) + if txs[n].lane == lane && Genuine(txs[n]) then {n} else {}
  {
  }

  /** The counts and gas totals kept for a lane are those of its genuine transactions, gas cut off at the
      64-bit maximum. */
  lemma {:induction false} TablesMean(txs: seq<Assignment>, lane: LaneId)
    ensures |LaneIndices(Entering(txs), lane)| == |MembersOf(txs, lane)|
    ensures LaneGas(Entering(txs), lane) == Capped(GasOf(txs, lane))
  {
    if txs == [] {
      assert MembersOf(txs, lane) == {};
    } else {
      var n := |txs| - 1;
      TablesMean(txs[..n], lane);
      MembersStep(txs, lane);
      KeysAreTouched(txs[n]);
      assert n !in MembersOf(txs[..n], lane);
      if Enters(txs[n]) {
        LaneStep(Entering(txs[..n]), txs[n], lane);
      } else {
        assert Entering(txs) == Entering(txs[..n]);
      }
    }
  }

  /** The indices of a lane ascend, and are exactly those of its transactions. */
  lemma {:induction false} IndicesMean(txs: seq<Assignment>, lane: LaneId)
    ensures forall a, b :: 0 <= a < b < |LaneIndices(txs, lane)| ==>
              LaneIndices(txs, lane)[a] < LaneIndices(txs, lane)[b]
    ensures forall i: nat :: i in LaneIndices(txs, lane) <==> i < |txs| && txs[i].lane == lane
  {
    if txs != [] {
      var n := |txs| - 1;
      IndicesMean(txs[..n], lane);
      var before := LaneIndices(txs[..n], lane);
      forall a | 0 <= a < |before| ensures before[a] < n {
        assert before[a] in before;
      }
    }
  }

  lemma {:induction false} IndicesOfSome(txs: seq<Assignment>, lane: LaneId)
    ensures LaneIndices(txs, lane) != [] <==> exists i :: 0 <= i < |txs| && txs[i].lane == lane
  {
    IndicesMean(txs, lane);
    var indices := LaneIndices(txs, lane);
    if indices != [] {
      assert indices[0] in indices;
    }
  }

  // ---- success ----

  /** Every transaction is genuine, each lane keeps its limits, and, if conflicts are detected, no two
      transactions of one lane with different hashes name a common key. */
  ghost predicate Admissible(txs: seq<Assignment>, config: Config) {
    && (forall i :: 0 <= i < |txs| ==> txs[i].txHash != 0 && 0 !in txs[i].stateKeys && 0 !in txs[i].conflictSet)
    && (forall lane :: |MembersOf(txs, lane)| <= config.maxTxsPerLane)
    && (forall lane :: GasOf(txs, lane) <= config.maxGasPerLane || config.maxGasPerLane == 0xFFFF_FFFF_FFFF_FFFF)
    && (config.detectConflicts ==>
          forall i, j, k: Key :: 0 <= i < j < |txs| && txs[i].lane == txs[j].lane && txs[i].txHash != txs[j].txHash ==>
            !(Touches(txs[i], k) && Touches(txs[j], k)))
  }

  lemma {:induction false} WellFormedMeans(txs: seq<Assignment>)
    ensures WellFormed(txs) <==> forall i :: 0 <= i < |txs| ==> Genuine(txs[i])
  {
    forall i | 0 <= i < |txs| ensures txs[i].txHash != 0 && NormalizeKeys(txs[i]).Ok? <==> Genuine(txs[i]) {
      KeysAreTouched(txs[i]);
    }
  }

  lemma {:induction false} DisjointMeans(txs: seq<Assignment>)
    requires WellFormed(txs)
    ensures LanesDisjoint(txs) <==>
            forall i, j, k: Key ::
              0 <= i < j < |txs| && txs[i].lane == txs[j].lane && txs[i].txHash != txs[j].txHash ==>
                !(Touches(txs[i], k) && Touches(txs[j], k))
  {
    forall i | 0 <= i < |txs| ensures forall k: Key :: k in KeysOf(txs[i]) <==> Touches(txs[i], k) {
      KeysAreTouched(txs[i]);
    }
  }

  /** A block is accepted exactly when it is admissible. */
  lemma {:induction false} AcceptableMeans(txs: seq<Assignment>, config: Config)
    ensures Acceptable(txs, config) <==> Admissible(txs, config)
  {
    WellFormedMeans(txs);
    if WellFormed(txs) {
      DisjointMeans(txs);
      AllEnter(txs);
      forall lane
        ensures |LaneIndices(txs, lane)| == |MembersOf(txs, lane)| && LaneGas(txs, lane) == Capped(GasOf(txs, lane))
      {
        TablesMean(txs, lane);
      }
    }
  }

  /** A successful grouping lists, for each lane in use, exactly its transactions, ascending. */
  lemma {:induction false} GroupsMean(txs: seq<Assignment>, grouped: map<LaneId, seq<nat>>)
    requires Groups(txs, grouped)
    ensures forall lane :: lane in grouped <==> exists i :: 0 <= i < |txs| && txs[i].lane == lane
    ensures forall lane, a, b :: lane in grouped && 0 <= a < b < |grouped[lane]| ==> grouped[lane][a] < grouped[lane][b]
    ensures forall lane, i: nat :: lane in grouped ==> (i in grouped[lane] <==> i < |txs| && txs[i].lane == lane)
  {
    forall lane
      ensures lane in grouped <==> exists i :: 0 <= i < |txs| && txs[i].lane == lane
      ensures lane in grouped ==> forall a, b :: 0 <= a < b < |grouped[lane]| ==> grouped[lane][a] < grouped[lane][b]
      ensures lane in grouped ==> forall i: nat :: i in grouped[lane] <==> i < |txs| && txs[i].lane == lane
    {
      IndicesMean(txs, lane);
      IndicesOfSome(txs, lane);
    }
  }

  // ---- failure ----

  /** Before transaction `j`, `h` is the hash of the first genuine transaction of the lane to name `k`. */
  ghost predicate FirstUse(txs: seq<Assignment>, j: nat, lane: LaneId, k: Key, h: Key)
    requires j <= |txs|
  {
    exists i: nat :: i < j && txs[i].txHash == h && UsesKey(txs[i], lane, k)
                     && forall l: nat :: l < i ==> !UsesKey(txs[l], lane, k)
  }

  predicate UsesKey(tx: Assignment, lane: LaneId, k: Key) {
    tx.lane == lane && Genuine(tx) && Touches(tx, k)
  }

  /** Transaction `j` gives cause for this error. */
  ghost predicate Causes(txs: seq<Assignment>, config: Config, j: nat, e: Error)
    requires j < |txs|
  {
    var tx := txs[j];
    match e
    case EmptyTransaction => tx.txHash == 0
    case InvalidStateKeys => tx.txHash != 0 && Touches(tx, 0)
    case ConflictDetected(a, b, k) =>
      config.detectConflicts && UsesKey(tx, tx.lane, k) && b == tx.txHash != a && FirstUse(txs, j, tx.lane, k, a)
    case LaneCapacityExceeded(lane, current, max) =>
      && Genuine(tx) && lane == tx.lane && current > max
      && ((max == config.maxTxsPerLane && current == |MembersOf(txs[..j], lane)| + 1)
          || (max == config.maxGasPerLane && current == Capped(GasOf(txs[..j], lane) + tx.gas)))
  }

  lemma {:induction false} FirstUseStep(txs: seq<Assignment>, j: nat, lane: LaneId, k: Key, h: Key)
    requires j < |txs|
    ensures FirstUse(txs, j + 1, lane, k, h) <==>
            || FirstUse(txs, j, lane, k, h)
            || (UsesKey(txs[j], lane, k) && h == txs[j].txHash && !UsedBefore(txs, j, lane, k))
  {
  }

  lemma {:induction false} UsedHasFirst(txs: seq<Assignment>, j: nat, lane: LaneId, k: Key, i: nat) returns (h: Key)
    requires i < j <= |txs| && UsesKey(txs[i], lane, k)
    ensures FirstUse(txs, j, lane, k, h)
  {
    if l: nat :| l < i && UsesKey(txs[l], lane, k) {
      h := UsedHasFirst(txs, j, lane, k, l);
    } else {
      h := txs[i].txHash;
    }
  }

  predicate UsedBefore(txs: seq<Assignment>, j: nat, lane: LaneId, k: Key)
    requires j <= |txs|
  {
    exists i: nat :: i < j && UsesKey(txs[i], lane, k)
  }

  /** `holders` has the first user of `k` among the first `j` transactions, if there is one. */
  ghost predicate HoldsFirst(holders: map<Key, Key>, txs: seq<Assignment>, j: nat, lane: LaneId, k: Key)
    requires j <= |txs|
  {
    forall h :: HeldBy(holders, k, h) <==> FirstUse(txs, j, lane, k, h)
  }

  predicate HeldBy(holders: map<Key, Key>, k: Key, h: Key) {
    k in holders && holders[k] == h
  }

  lemma {:induction false} HeldIffUsed(holders: map<Key, Key>, txs: seq<Assignment>, j: nat, lane: LaneId, k: Key)
    requires j <= |txs| && HoldsFirst(holders, txs, j, lane, k)
    ensures k in holders <==> UsedBefore(txs, j, lane, k)
  {
    if UsedBefore(txs, j, lane, k) {
      var i: nat :| i < j && UsesKey(txs[i], lane, k);
      var h := UsedHasFirst(txs, j, lane, k, i);
      assert HeldBy(holders, k, h);
    }
    if k in holders {
      assert HeldBy(holders, k, holders[k]) && FirstUse(txs, j, lane, k, holders[k]);
    }
  }

  lemma {:induction false} HoldersStep(txs: seq<Assignment>, j: nat, lane: LaneId)
    requires j < |txs|
    ensures var before, after := Holders(Entering(txs[..j]), lane), Holders(Entering(txs[..j + 1]), lane);
            after == if Genuine(txs[j]) && txs[j].lane == lane then WithKeys(before, KeysOf(txs[j]), txs[j].txHash)
                     else before
  {
    EnteringStep(txs, j);
    KeysAreTouched(txs[j]);
    if Enters(txs[j]) {
      assert Entering(txs[..j + 1])[..|Entering(txs[..j])|] == Entering(txs[..j]);
    }
  }

  lemma {:induction false} HoldsFirstStep(before: map<Key, Key>, after: map<Key, Key>, txs: seq<Assignment>, j: nat,
                                          lane: LaneId, k: Key)
    requires j < |txs| && HoldsFirst(before, txs, j, lane, k)
    requires after == if Genuine(txs[j]) && txs[j].lane == lane
                      then WithKeys(before, KeysOf(txs[j]), txs[j].txHash) else before
    ensures HoldsFirst(after, txs, j + 1, lane, k)
  {
    HeldIffUsed(before, txs, j, lane, k);
    KeysAreTouched(txs[j]);
    forall h ensures HeldBy(after, k, h) <==> FirstUse(txs, j + 1, lane, k, h) {
      assert HeldBy(before, k, h) <==> FirstUse(txs, j, lane, k, h);
      FirstUseStep(txs, j, lane, k, h);
    }
  }

  /** The recorded holder of a key is its first user. */
  lemma {:induction false} HoldersMean(txs: seq<Assignment>, j: nat, lane: LaneId, k: Key)
    requires j <= |txs|
    ensures HoldsFirst(Holders(Entering(txs[..j]), lane), txs, j, lane, k)
  {
    if j > 0 {
      HoldersMean(txs, j - 1, lane, k);
      HoldersStep(txs, j - 1, lane);
      HoldsFirstStep(Holders(Entering(txs[..j - 1]), lane), Holders(Entering(txs[..j]), lane), txs, j - 1, lane, k);
    }
  }

  lemma {:induction false} CapacityMeans(txs: seq<Assignment>, config: Config, j: nat, e: Error)
    requires j < |txs| && Genuine(txs[j])
    ensures e in CapacityErrors(Entering(txs[..j]), txs[j], config) <==>
            e.LaneCapacityExceeded? && Causes(txs, config, j, e)
  {
    TablesMean(txs[..j], txs[j].lane);
    SatAddCapped(GasOf(txs[..j], txs[j].lane), txs[j].gas);
  }

  lemma {:induction false} SatAddCapped(a: nat, b: u64)
    ensures SatAdd(Capped(a), b) == Capped(a + b)
  {
  }

  lemma {:induction false} ClashesMean(txs: seq<Assignment>, config: Config, j: nat, e: Error)
    requires j < |txs| && Genuine(txs[j]) && config.detectConflicts
    ensures var tx := txs[j];
            e in Clashes(Holders(Entering(txs[..j]), tx.lane), KeysOf(tx), tx.txHash) <==>
            e.ConflictDetected? && Causes(txs, config, j, e)
  {
    var tx := txs[j];
    var holders := Holders(Entering(txs[..j]), tx.lane);
    KeysAreTouched(tx);
    if e.ConflictDetected? {
      HoldersMean(txs, j, tx.lane, e.key);
      assert HeldBy(holders, e.key, e.txA) <==> FirstUse(txs, j, tx.lane, e.key, e.txA);
      if e in Clashes(holders, KeysOf(tx), tx.txHash) {
        assert e.key in holders && holders[e.key] == e.txA;
      }
      if Causes(txs, config, j, e) {
        assert e == ConflictDetected(holders[e.key], tx.txHash, e.key);
      }
    }
  }

  lemma {:induction false} TxReportMeans(txs: seq<Assignment>, config: Config, j: nat, errors: seq<Error>, e: Error)
    requires j < |txs| && TxReport(Entering(txs[..j]), txs[j], config, errors)
    ensures e in errors <==> Causes(txs, config, j, e)
  {
    var seen, tx := Entering(txs[..j]), txs[j];
    KeysAreTouched(tx);
    if Enters(tx) {
      var capacity := CapacityErrors(seen, tx, config);
      assert errors == capacity + errors[|capacity|..];
      CapacityMeans(txs, config, j, e);
      if config.detectConflicts {
        ClashesMean(txs, config, j, e);
      }
    }
  }

  lemma {:induction false} CausesKept(txs: seq<Assignment>, config: Config, n: nat, j: nat, e: Error)
    requires j < n <= |txs|
    ensures Causes(txs[..n], config, j, e) <==> Causes(txs, config, j, e)
  {
    assert txs[..n][..j] == txs[..j];
    if e.ConflictDetected? {
      FirstUseKept(txs, n, j, txs[j].lane, e.key, e.txA);
    }
  }

  lemma {:induction false} FirstUseKept(txs: seq<Assignment>, n: nat, j: nat, lane: LaneId, k: Key, h: Key)
    requires j <= n <= |txs|
    ensures FirstUse(txs[..n], j, lane, k, h) <==> FirstUse(txs, j, lane, k, h)
  {
    assert forall i: nat :: i < n ==> txs[..n][i] == txs[i];
    if FirstUse(txs[..n], j, lane, k, h) {
      var i: nat :| i < j && txs[..n][i].txHash == h && UsesKey(txs[..n][i], lane, k)
                    && forall l: nat :: l < i ==> !UsesKey(txs[..n][l], lane, k);
      assert forall l: nat :: l < i ==> txs[l] == txs[..n][l];
      assert UsesKey(txs[i], lane, k);
    }
  }

  /** The error list names exactly what some transaction gives cause for. */
  lemma {:induction false} ReportsMean(txs: seq<Assignment>, config: Config, errors: seq<Error>, e: Error)
    requires Reports(txs, config, errors)
    ensures e in errors <==> exists j: nat :: j < |txs| && Causes(txs, config, j, e)
  {
    if txs != [] {
      var n := |txs| - 1;
      var k: nat :| k <= |errors| && Reports(txs[..n], config, errors[..k])
                    && TxReport(Entering(txs[..n]), txs[n], config, errors[k..]);
      ReportsMean(txs[..n], config, errors[..k], e);
      TxReportMeans(txs, config, n, errors[k..], e);
      assert errors == errors[..k] + errors[k..];
      forall j: nat | j < n ensures Causes(txs[..n], config, j, e) <==> Causes(txs, config, j, e) {
        CausesKept(txs, config, n, j, e);
      }
    }
  }

  // ---- conflicts between lanes ----

  /** The pairs of different lanes, neither naming the zero key, that name a common key, and their least one. */
  ghost predicate ConflictAt(txs: seq<Assignment>, i: nat, j: nat, k: Key) {
    && i < j < |txs| && txs[i].lane != txs[j].lane && !Touches(txs[i], 0) && !Touches(txs[j], 0)
    && Touches(txs[i], k) && Touches(txs[j], k)
    && forall l: Key :: l < k ==> !(Touches(txs[i], l) && Touches(txs[j], l))
  }

  /** Exactly these are reported, in order. */
  lemma {:induction false} ConflictsMean(txs: seq<Assignment>, conflicts: seq<Conflict>)
    requires Sound(txs, conflicts)
    requires forall i: nat, j: nat :: CrossConflict(txs, i, j) ==> Reported(conflicts, i, j)
    ensures forall i: nat, j: nat, k: Key :: Conflict(i, j, k) in conflicts <==> ConflictAt(txs, i, j, k)
    ensures forall m, n :: 0 <= m < n < |conflicts| ==>
              conflicts[m].i < conflicts[n].i || (conflicts[m].i == conflicts[n].i && conflicts[m].j < conflicts[n].j)
  {
    forall i: nat, j: nat, k: Key ensures Conflict(i, j, k) in conflicts <==> ConflictAt(txs, i, j, k) {
      if Conflict(i, j, k) in conflicts {
        var n :| 0 <= n < |conflicts| && conflicts[n] == Conflict(i, j, k);
        ConflictMeans(txs, i, j, k);
      }
      if ConflictAt(txs, i, j, k) {
        ConflictMeans(txs, i, j, k);
        assert k in KeysOf(txs[i]) * KeysOf(txs[j]);
        var n :| 0 <= n < |conflicts| && conflicts[n].i == i && conflicts[n].j == j;
        ConflictMeans(txs, i, j, conflicts[n].key);
        assert conflicts[n] == Conflict(i, j, k);
      }
    }
  }

  lemma {:induction false} ConflictMeans(txs: seq<Assignment>, i: nat, j: nat, k: Key)
    ensures ConflictAt(txs, i, j, k) <==>
            CrossConflict(txs, i, j) && LeastCommon(KeysOf(txs[i]), KeysOf(txs[j]), k)
  {
    if i < j < |txs| {
      KeysAreTouched(txs[i]);
      KeysAreTouched(txs[j]);
      if LeastCommon(KeysOf(txs[i]), KeysOf(txs[j]), k) {
        assert k in KeysOf(txs[i]) * KeysOf(txs[j]);
      }
    }
  }

  /** Without a conflict, genuine transactions of different lanes name no common key. */
  lemma {:induction false} NoConflictMeans(txs: seq<Assignment>, conflicts: seq<Conflict>, i: nat, j: nat, k: Key)
    requires forall i: nat, j: nat :: CrossConflict(txs, i, j) ==> Reported(conflicts, i, j)
    requires conflicts == [] && i < j < |txs| && txs[i].lane != txs[j].lane
    requires 0 !in txs[i].stateKeys && 0 !in txs[i].conflictSet && 0 !in txs[j].stateKeys && 0 !in txs[j].conflictSet
    ensures !((k in txs[i].stateKeys || k in txs[i].conflictSet) && (k in txs[j].stateKeys || k in txs[j].conflictSet))
  {
    assert !CrossConflict(txs, i, j);
    KeysAreTouched(txs[i]);
    KeysAreTouched(txs[j]);
    assert k !in KeysOf(txs[i]) * KeysOf(txs[j]);
  }
}
