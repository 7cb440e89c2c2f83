/** Grouping transactions into lanes and looking for key conflicts between lanes. */
module Lanes {
  import opened Common
  import Orders

  /** A 32-byte state key or hash, read as a big-endian number; 0 is the all-zero string. */
  type Key = nat

  datatype LaneId = Transfer | TokenOps | DeFi | StateHeavy | SystemOps | BlobCarrying | Uncategorized

  datatype Assignment = Assignment(txHash: Key, lane: LaneId, stateKeys: seq<Key>, conflictSet: set<Key>, gas: u64)

  datatype Error =
    | EmptyTransaction
    | ConflictDetected(txA: Key, txB: Key, key: Key)
    | LaneCapacityExceeded(lane: LaneId, current: nat, max: nat)
    | InvalidStateKeys

  datatype Config = Config(maxTxsPerLane: nat, maxGasPerLane: u64, detectConflicts: bool, parallelLanes: nat)

  function NormalizeKeys(a: Assignment): Result<set<Key>, Error> {
    if 0 in a.stateKeys || 0 in a.conflictSet then Err(InvalidStateKeys)
    else Ok((set k: Key | k in a.stateKeys) + a.conflictSet)
  }

  /** Keys a transaction is taken to touch; none when its key list is malformed. */
  function KeysOf(a: Assignment): set<Key> {
    if NormalizeKeys(a).Ok? then NormalizeKeys(a).value else {}
  }

  // ---- what a lane holds ----

  /** Indices of the transactions of `lane`, ascending. */
  function LaneIndices(txs: seq<Assignment>, lane: LaneId): seq<nat> {
    if txs == [] then []
    else
      var n := |txs| - 1;
      LaneIndices(txs[..n], lane) + (if txs[n].lane == lane then [n] else [])
  }

  function LaneGas(txs: seq<Assignment>, lane: LaneId): u64 {
    if txs == [] then 0
    else
      var n := |txs| - 1;
      var before := LaneGas(txs[..n], lane);
      if txs[n].lane == lane then SatAdd(before, txs[n].gas) else before
  }

  /** Every transaction is well formed. */
  predicate WellFormed(txs: seq<Assignment>) {
    forall i :: 0 <= i < |txs| ==> txs[i].txHash != 0 && NormalizeKeys(txs[i]).Ok?
  }

  /** Distinct transactions of one lane share no key. */
  predicate LanesDisjoint(txs: seq<Assignment>) {
    forall i, j, k :: 0 <= i < j < |txs| && txs[i].lane == txs[j].lane && k in KeysOf(txs[i]) && k in KeysOf(txs[j]) ==>
      txs[i].txHash == txs[j].txHash
  }

  predicate WithinCapacity(txs: seq<Assignment>, config: Config) {
    && (forall lane :: |LaneIndices(txs, lane)| <= config.maxTxsPerLane)
    && (forall lane :: LaneGas(txs, lane) <= config.maxGasPerLane)
  }

  predicate Acceptable(txs: seq<Assignment>, config: Config) {
    && WellFormed(txs)
    && WithinCapacity(txs, config)
    && (config.detectConflicts ==> LanesDisjoint(txs))
  }

  // ---- assign_to_lanes ----

  /** `grouped` maps exactly the lanes in use to their indices. */
  predicate Groups(txs: seq<Assignment>, grouped: map<LaneId, seq<nat>>) {
    forall lane :: (lane in grouped <==> LaneIndices(txs, lane) != []) &&
                   (lane in grouped ==> grouped[lane] == LaneIndices(txs, lane))
  }

  predicate GasTable(txs: seq<Assignment>, gas: map<LaneId, u64>) {
    forall lane :: (if lane in gas then gas[lane] else 0) == LaneGas(txs, lane)
  }

  type KeyIndex = map<LaneId, map<Key, Key>>

  function IndexOf(keys: KeyIndex, lane: LaneId): map<Key, Key> {
    if lane in keys then keys[lane] else map[]
  }

  /** The index once `keys` are recorded: present entries win. */
  function WithKeys(index: map<Key, Key>, keys: set<Key>, txHash: Key): map<Key, Key> {
    map k | k in index.Keys + keys :: if k in index then index[k] else txHash
  }

  /** Each key used in a lane, with the hash of the first transaction to use it. */
  function Holders(txs: seq<Assignment>, lane: LaneId): map<Key, Key> {
    if txs == [] then map[]
    else
      var n := |txs| - 1;
      var before := Holders(txs[..n], lane);
      if txs[n].lane == lane then WithKeys(before, KeysOf(txs[n]), txs[n].txHash) else before
  }

  /** One error for each key that another hash holds. */
  function Clashes(index: map<Key, Key>, keys: set<Key>, txHash: Key): set<Error> {
    set k | k in keys && k in index && index[k] != txHash :: ConflictDetected(index[k], txHash, k)
  }

  /** The elements of a set, each once, in any order. */
  ghost predicate Lists(errors: seq<Error>, all: set<Error>) {
    Orders.Distinct(errors) && forall e :: e in errors <==> e in all
  }

  // ---- what assign_to_lanes reports ----

  predicate Enters(tx: Assignment) {
    tx.txHash != 0 && NormalizeKeys(tx).Ok?
  }

  /** The well-formed transactions; the others are reported and skipped. */
  function Entering(txs: seq<Assignment>): seq<Assignment> {
    if txs == [] then []
    else Entering(txs[..|txs| - 1]) + if Enters(txs[|txs| - 1]) then [txs[|txs| - 1]] else []
  }

  function CapacityErrors(seen: seq<Assignment>, tx: Assignment, config: Config): seq<Error> {
    var count, gas := |LaneIndices(seen, tx.lane)| + 1, SatAdd(LaneGas(seen, tx.lane), tx.gas);
    (if count > config.maxTxsPerLane then [LaneCapacityExceeded(tx.lane, count, config.maxTxsPerLane)] else [])
    + (if gas > config.maxGasPerLane then [LaneCapacityExceeded(tx.lane, gas, config.maxGasPerLane)] else [])
  }

  /** `errors` is what `tx` causes after the transactions `seen` have entered: one error if it is
      malformed, otherwise its capacity errors and then its key conflicts, in hash-set order. */
  ghost predicate TxReport(seen: seq<Assignment>, tx: Assignment, config: Config, errors: seq<Error>) {
    if tx.txHash == 0 then errors == [EmptyTransaction]
    else if NormalizeKeys(tx).Err? then errors == [InvalidStateKeys]
    else
      var capacity := CapacityErrors(seen, tx, config);
      && capacity <= errors
      && Lists(errors[|capacity|..],
               if config.detectConflicts then Clashes(Holders(seen, tx.lane), KeysOf(tx), tx.txHash) else {})
  }

  /** `errors` is the concatenation of what each transaction causes. */
  ghost predicate Reports(txs: seq<Assignment>, config: Config, errors: seq<Error>) {
    if txs == [] then errors == []
    else
      var n := |txs| - 1;
      exists k: nat :: k <= |errors| && Reports(txs[..n], config, errors[..k])
                       && TxReport(Entering(txs[..n]), txs[n], config, errors[k..])
  }

  // ---- the loops ----

  lemma {:induction false} WithKeysStep(index: map<Key, Key>, keys: set<Key>, key: Key, txHash: Key)
    ensures WithKeys(index, keys + {key}, txHash) ==
            if key in index.Keys + keys then WithKeys(index, keys, txHash)
            else WithKeys(index, keys, txHash)[key := txHash]
  {
    if key in index.Keys + keys {
      assert index.Keys + (keys + {key}) == index.Keys + keys;
    }
  }

  lemma {:induction false} ClashesStep(index: map<Key, Key>, keys: set<Key>, key: Key, txHash: Key, errors: seq<Error>)
    requires key !in keys && Lists(errors, Clashes(index, keys, txHash))
    ensures Lists(if key in index && index[key] != txHash
                  then errors + [ConflictDetected(index[key], txHash, key)] else errors,
                  Clashes(index, keys + {key}, txHash))
  {
    var before, after := Clashes(index, keys, txHash), Clashes(index, keys + {key}, txHash);
    if key in index && index[key] != txHash {
      var e := ConflictDetected(index[key], txHash, key);
      assert e !in before;
      assert after == before + {e};
    } else {
      assert after == before;
    }
  }

  /** The key part of one transaction: report each key held by another hash, record the free ones. */
  method RecordKeys(index: map<Key, Key>, keys: set<Key>, txHash: Key)
    returns (index': map<Key, Key>, errors: seq<Error>)
    ensures index' == WithKeys(index, keys, txHash)
    ensures Lists(errors, Clashes(index, keys, txHash))
  {
    index', errors := index, [];
    var done := {};
    while keys - done != {}
      invariant done <= keys
      invariant index' == WithKeys(index, done, txHash)
      invariant Lists(errors, Clashes(index, done, txHash))
      decreases keys - done
    {
      var key :| key in keys - done;
      WithKeysStep(index, done, key, txHash);
      ClashesStep(index, done, key, txHash, errors);
      if key in index' {
        if index'[key] != txHash {
          errors := errors + [ConflictDetected(index'[key], txHash, key)];
        }
      } else {
        index' := index'[key := txHash];
      }
      done := done + {key};
    }
    assert done == keys by {
      forall key | key in keys ensures key in done {
        assert key in done || key in keys - done;
      }
    }
  }

  ghost predicate CountTable(txs: seq<Assignment>, grouped: map<LaneId, seq<nat>>) {
    forall lane :: (if lane in grouped then |grouped[lane]| else 0) == |LaneIndices(txs, lane)|
  }

  ghost predicate KeyTable(txs: seq<Assignment>, keys: KeyIndex) {
    forall lane :: IndexOf(keys, lane) == Holders(txs, lane)
  }

  /** The tables after the transactions in `seen` have entered. */
  ghost predicate Tracks(seen: seq<Assignment>, config: Config, grouped: map<LaneId, seq<nat>>,
                         laneGas: map<LaneId, u64>, laneKeys: KeyIndex)
  {
    CountTable(seen, grouped) && GasTable(seen, laneGas) && (config.detectConflicts ==> KeyTable(seen, laneKeys))
  }

  /** Checks one transaction against its lane and enters it. */
  method AddToLane(ghost seen: seq<Assignment>, index: nat, tx: Assignment, keys: set<Key>, config: Config,
                   grouped0: map<LaneId, seq<nat>>, laneGas0: map<LaneId, u64>, laneKeys0: KeyIndex)
    returns (grouped: map<LaneId, seq<nat>>, laneGas: map<LaneId, u64>, laneKeys: KeyIndex, errors: seq<Error>)
    requires tx.txHash != 0 && NormalizeKeys(tx) == Ok(keys)
    requires Tracks(seen, config, grouped0, laneGas0, laneKeys0)
    ensures Tracks(seen + [tx], config, grouped, laneGas, laneKeys)
    ensures grouped == grouped0[tx.lane := (if tx.lane in grouped0 then grouped0[tx.lane] else []) + [index]]
    ensures TxReport(seen, tx, config, errors)
  {
    errors := [];
    var lane := tx.lane;
    var entries := if lane in grouped0 then grouped0[lane] else [];
    var count := |entries| + 1;
    if count > config.maxTxsPerLane {
      errors := errors + [LaneCapacityExceeded(lane, count, config.maxTxsPerLane)];
    }
    var nextGas := SatAdd(if lane in laneGas0 then laneGas0[lane] else 0, tx.gas);
    if nextGas > config.maxGasPerLane {
      errors := errors + [LaneCapacityExceeded(lane, nextGas, config.maxGasPerLane)];
    }
    assert errors == CapacityErrors(seen, tx, config);
    laneKeys := laneKeys0;
    var conflicts: seq<Error> := [];
    if config.detectConflicts {
      var held;
      held, conflicts := RecordKeys(IndexOf(laneKeys0, lane), keys, tx.txHash);
      laneKeys := laneKeys0[lane := held];
      KeyStep(seen, tx, laneKeys0, laneKeys);
    }
    TxReportParts(seen, tx, config, conflicts);
    errors := errors + conflicts;
    laneGas := laneGas0[lane := nextGas];
    grouped := grouped0[lane := entries + [index]];
    CountStep(seen, tx, index, grouped0, grouped);
    GasStep(seen, tx, laneGas0, laneGas);
  }

  lemma {:induction false} TxReportParts(seen: seq<Assignment>, tx: Assignment, config: Config, conflicts: seq<Error>)
    requires Enters(tx)
    requires Lists(conflicts,
                   if config.detectConflicts then Clashes(Holders(seen, tx.lane), KeysOf(tx), tx.txHash) else {})
    ensures TxReport(seen, tx, config, CapacityErrors(seen, tx, config) + conflicts)
  {
    var capacity := CapacityErrors(seen, tx, config);
    assert (capacity + conflicts)[|capacity|..] == conflicts;
  }

  lemma {:induction false} ReportsStep(txs: seq<Assignment>, i: nat, config: Config, errors: seq<Error>,
                                       found: seq<Error>)
    requires i < |txs| && Reports(txs[..i], config, errors)
    requires TxReport(Entering(txs[..i]), txs[i], config, found)
    ensures Reports(txs[..i + 1], config, errors + found)
  {
    var next, all := txs[..i + 1], errors + found;
    assert next[..i] == txs[..i];
    assert all[..|errors|] == errors && all[|errors|..] == found;
  }

  /** What holds after the first `i` transactions. */
  ghost predicate Processed(txs: seq<Assignment>, i: nat, config: Config, grouped: map<LaneId, seq<nat>>,
                            laneGas: map<LaneId, u64>, laneKeys: KeyIndex, errors: seq<Error>)
    requires i <= |txs|
  {
    && Reports(txs[..i], config, errors)
    && Tracks(Entering(txs[..i]), config, grouped, laneGas, laneKeys)
    && (WellFormed(txs[..i]) ==> Groups(txs[..i], grouped))
  }

  lemma {:induction false} SkipStep(txs: seq<Assignment>, i: nat, config: Config, grouped: map<LaneId, seq<nat>>,
                                   laneGas: map<LaneId, u64>, laneKeys: KeyIndex, errors: seq<Error>, e: Error)
    requires i < |txs| && Processed(txs, i, config, grouped, laneGas, laneKeys, errors)
    requires !Enters(txs[i]) && TxReport(Entering(txs[..i]), txs[i], config, [e])
    ensures Processed(txs, i + 1, config, grouped, laneGas, laneKeys, errors + [e])
  {
    EnteringStep(txs, i);
    NotWellFormed(txs, i);
    ReportsStep(txs, i, config, errors, [e]);
  }

  lemma {:induction false} EnterStep(txs: seq<Assignment>, i: nat, config: Config, before: map<LaneId, seq<nat>>,
                                    grouped: map<LaneId, seq<nat>>, laneGas: map<LaneId, u64>, laneKeys: KeyIndex,
                                    errors: seq<Error>, found: seq<Error>)
    requires i < |txs| && Enters(txs[i]) && Reports(txs[..i], config, errors)
    requires WellFormed(txs[..i]) ==> Groups(txs[..i], before)
    requires TxReport(Entering(txs[..i]), txs[i], config, found)
    requires Tracks(Entering(txs[..i]) + [txs[i]], config, grouped, laneGas, laneKeys)
    requires var lane := txs[i].lane; grouped == before[lane := (if lane in before then before[lane] else []) + [i]]
    ensures Processed(txs, i + 1, config, grouped, laneGas, laneKeys, errors + found)
  {
    EnteringStep(txs, i);
    if WellFormed(txs[..i + 1]) {
      assert forall j :: 0 <= j < i ==> txs[..i][j] == txs[..i + 1][j];
      GroupStep(txs[..i], txs[i], before, grouped);
    }
    ReportsStep(txs, i, config, errors, found);
  }

  /** A success groups the block's indices by lane; a failure lists everything wrong with the block. */
  method AssignToLanes(txs: seq<Assignment>, config: Config) returns (r: Result<map<LaneId, seq<nat>>, seq<Error>>)
    ensures r.Ok? <==> Acceptable(txs, config)
    ensures r.Ok? ==> Groups(txs, r.value)
    ensures r.Err? ==> r.error != [] && Reports(txs, config, r.error)
  {
    var grouped: map<LaneId, seq<nat>> := map[];
    var laneGas: map<LaneId, u64> := map[];
    var laneKeys: KeyIndex := map[];
    var errors: seq<Error> := [];
    for i := 0 to |txs|
      invariant Processed(txs, i, config, grouped, laneGas, laneKeys, errors)
    {
      var tx := txs[i];
      if tx.txHash == 0 {
        SkipStep(txs, i, config, grouped, laneGas, laneKeys, errors, EmptyTransaction);
        errors := errors + [EmptyTransaction];
        continue;
      }
      var normalized := NormalizeKeys(tx);
      if normalized.Err? {
        SkipStep(txs, i, config, grouped, laneGas, laneKeys, errors, normalized.error);
        errors := errors + [normalized.error];
        continue;
      }
      ghost var before := grouped;
      var found;
      grouped, laneGas, laneKeys, found :=
        AddToLane(Entering(txs[..i]), i, tx, normalized.value, config, grouped, laneGas, laneKeys);
      EnterStep(txs, i, config, before, grouped, laneGas, laneKeys, errors, found);
      errors := errors + found;
    }
    assert txs[..|txs|] == txs;
    ReportsIff(txs, config, errors);
    if errors == [] {
      return Ok(grouped);
    } else {
      return Err(errors);
    }
  }

  lemma {:induction false} EnteringStep(txs: seq<Assignment>, i: nat)
    requires i < |txs|
    ensures txs[..i + 1] == txs[..i] + [txs[i]]
    ensures Entering(txs[..i + 1]) == if Enters(txs[i]) then Entering(txs[..i]) + [txs[i]] else Entering(txs[..i])
  {
    assert txs[..i + 1][..i] == txs[..i];
    assert Entering(txs[..i]) + [] == Entering(txs[..i]);
  }

  lemma {:induction false} NotWellFormed(txs: seq<Assignment>, i: nat)
    requires i < |txs| && !Enters(txs[i])
    ensures !WellFormed(txs[..i + 1])
  {
    assert txs[..i + 1][i] == txs[i];
  }

  // ---- nothing is reported exactly about acceptable blocks ----

  lemma {:induction false} AllEnter(txs: seq<Assignment>)
    requires WellFormed(txs)
    ensures Entering(txs) == txs
  {
    if txs != [] {
      AllEnter(txs[..|txs| - 1]);
    }
  }

  ghost predicate UsedIn(txs: seq<Assignment>, lane: LaneId, k: Key, h: Key) {
    exists i :: 0 <= i < |txs| && txs[i].lane == lane && k in KeysOf(txs[i]) && txs[i].txHash == h
  }

  lemma {:induction false} UsedInMore(txs: seq<Assignment>, lane: LaneId, k: Key, h: Key)
    requires txs != []
    ensures UsedIn(txs, lane, k, h) <==>
            || UsedIn(txs[..|txs| - 1], lane, k, h)
            || var tx := txs[|txs| - 1]; tx.lane == lane && k in KeysOf(tx) && tx.txHash == h
  {
    var n := |txs| - 1;
    var init := txs[..n];
    if UsedIn(init, lane, k, h) {
      var i :| 0 <= i < |init| && init[i].lane == lane && k in KeysOf(init[i]) && init[i].txHash == h;
      assert txs[i] == init[i];
    }
    if UsedIn(txs, lane, k, h) {
      var i :| 0 <= i < |txs| && txs[i].lane == lane && k in KeysOf(txs[i]) && txs[i].txHash == h;
      assert i < n ==> init[i] == txs[i];
    }
  }

  /** A holder uses its key, and every used key has a holder. */
  lemma {:induction false} HolderUses(txs: seq<Assignment>, lane: LaneId, k: Key)
    ensures k in Holders(txs, lane) ==> UsedIn(txs, lane, k, Holders(txs, lane)[k])
    ensures forall h :: UsedIn(txs, lane, k, h) ==> k in Holders(txs, lane)
  {
    if txs != [] {
      HolderUses(txs[..|txs| - 1], lane, k);
      forall h
        ensures UsedIn(txs, lane, k, h) ==> k in Holders(txs, lane)
        ensures k in Holders(txs, lane) && h == Holders(txs, lane)[k] ==> UsedIn(txs, lane, k, h)
      {
        UsedInMore(txs, lane, k, h);
      }
    }
  }

  /** A transaction clashes exactly when another hash uses one of its keys in its lane. */
  lemma {:induction false} ClashIffUsed(seen: seq<Assignment>, tx: Assignment)
    requires LanesDisjoint(seen)
    ensures Clashes(Holders(seen, tx.lane), KeysOf(tx), tx.txHash) == {} <==> KeysFree(seen, tx)
  {
    var index, clashes := Holders(seen, tx.lane), Clashes(Holders(seen, tx.lane), KeysOf(tx), tx.txHash);
    if KeysFree(seen, tx) {
      forall k | k in KeysOf(tx) && k in index ensures index[k] == tx.txHash {
        HolderUses(seen, tx.lane, k);
        var i :| 0 <= i < |seen| && seen[i].lane == tx.lane && k in KeysOf(seen[i]) && seen[i].txHash == index[k];
      }
    } else {
      var i, k :| 0 <= i < |seen| && seen[i].lane == tx.lane && k in KeysOf(seen[i]) && k in KeysOf(tx)
                  && seen[i].txHash != tx.txHash;
      HolderUses(seen, tx.lane, k);
      assert UsedIn(seen, tx.lane, k, seen[i].txHash);
      var j :| 0 <= j < |seen| && seen[j].lane == tx.lane && k in KeysOf(seen[j]) && seen[j].txHash == index[k];
      assert seen[j].txHash == seen[i].txHash;
      assert ConflictDetected(index[k], tx.txHash, k) in clashes;
    }
  }

  lemma {:induction false} TxReportIff(seen: seq<Assignment>, tx: Assignment, config: Config, errors: seq<Error>)
    requires Acceptable(seen, config) && TxReport(seen, tx, config, errors)
    ensures errors == [] <==> Admits(seen, tx, config)
  {
    if Enters(tx) {
      var capacity := CapacityErrors(seen, tx, config);
      var rest := errors[|capacity|..];
      assert errors == capacity + rest;
      var clashes := Clashes(Holders(seen, tx.lane), KeysOf(tx), tx.txHash);
      if config.detectConflicts {
        ClashIffUsed(seen, tx);
        ListsNothing(rest, clashes);
      } else {
        ListsNothing(rest, {});
      }
    }
  }

  lemma {:induction false} ListsNothing(errors: seq<Error>, all: set<Error>)
    requires Lists(errors, all)
    ensures errors == [] <==> all == {}
  {
    if errors != [] {
      assert errors[0] in errors;
    }
    if all != {} {
      var e :| e in all;
      assert e in errors;
    }
  }

  /** Nothing is reported exactly about acceptable blocks. */
  lemma {:induction false} ReportsIff(txs: seq<Assignment>, config: Config, errors: seq<Error>)
    requires Reports(txs, config, errors)
    ensures errors == [] <==> Acceptable(txs, config)
  {
    if txs != [] {
      var n := |txs| - 1;
      var k: nat :| k <= |errors| && Reports(txs[..n], config, errors[..k])
                    && TxReport(Entering(txs[..n]), txs[n], config, errors[k..]);
      ReportsIff(txs[..n], config, errors[..k]);
      assert txs == txs[..n] + [txs[n]];
      PrefixAcceptable(txs[..n], txs[n], config);
      if Acceptable(txs[..n], config) {
        AllEnter(txs[..n]);
        TxReportIff(txs[..n], txs[n], config, errors[k..]);
        AdmitStep(txs[..n], txs[n], config);
      }
    }
  }

  /** No other hash uses a key of `tx` in its lane. */
  predicate KeysFree(seen: seq<Assignment>, tx: Assignment) {
    forall i, k :: 0 <= i < |seen| && seen[i].lane == tx.lane && k in KeysOf(seen[i]) && k in KeysOf(tx) ==>
      seen[i].txHash == tx.txHash
  }

  /** What admitting `tx` after `seen` asks for. */
  predicate Admits(seen: seq<Assignment>, tx: Assignment, config: Config) {
    && Enters(tx)
    && |LaneIndices(seen, tx.lane)| + 1 <= config.maxTxsPerLane
    && SatAdd(LaneGas(seen, tx.lane), tx.gas) <= config.maxGasPerLane
    && (config.detectConflicts ==> KeysFree(seen, tx))
  }

  lemma {:induction false} LaneStep(seen: seq<Assignment>, tx: Assignment, lane: LaneId)
    ensures LaneIndices(seen + [tx], lane) == LaneIndices(seen, lane) + (if tx.lane == lane then [|seen|] else [])
    ensures LaneGas(seen + [tx], lane) ==
            if tx.lane == lane then SatAdd(LaneGas(seen, lane), tx.gas) else LaneGas(seen, lane)
  {
    assert (seen + [tx])[..|seen|] == seen;
  }

  /** Acceptance never recovers: an unacceptable prefix has no acceptable extension. */
  lemma {:induction false} PrefixAcceptable(seen: seq<Assignment>, tx: Assignment, config: Config)
    ensures Acceptable(seen + [tx], config) ==> Acceptable(seen, config)
    ensures Acceptable(seen + [tx], config) ==> tx.txHash != 0 && NormalizeKeys(tx).Ok?
  {
    var next := seen + [tx];
    if Acceptable(next, config) {
      assert next[|seen|] == tx;
      forall i | 0 <= i < |seen| ensures next[i] == seen[i] {
      }
      forall lane
        ensures |LaneIndices(seen, lane)| <= config.maxTxsPerLane && LaneGas(seen, lane) <= config.maxGasPerLane
      {
        LaneStep(seen, tx, lane);
        assert |LaneIndices(next, lane)| <= config.maxTxsPerLane && LaneGas(next, lane) <= config.maxGasPerLane;
      }
    }
  }

  lemma {:induction false} AdmitStep(seen: seq<Assignment>, tx: Assignment, config: Config)
    requires Acceptable(seen, config)
    ensures Acceptable(seen + [tx], config) <==> Admits(seen, tx, config)
  {
    var next := seen + [tx];
    assert next[|seen|] == tx;
    assert forall i :: 0 <= i < |seen| ==> next[i] == seen[i];
    forall lane
      ensures LaneIndices(next, lane) == LaneIndices(seen, lane) + (if tx.lane == lane then [|seen|] else [])
      ensures LaneGas(next, lane) ==
              if tx.lane == lane then SatAdd(LaneGas(seen, lane), tx.gas) else LaneGas(seen, lane)
    {
      LaneStep(seen, tx, lane);
    }
    if Acceptable(next, config) {
      assert |LaneIndices(next, tx.lane)| <= config.maxTxsPerLane && LaneGas(next, tx.lane) <= config.maxGasPerLane;
    }
  }

  lemma {:induction false} GroupStep(seen: seq<Assignment>, tx: Assignment, before: map<LaneId, seq<nat>>,
                                     after: map<LaneId, seq<nat>>)
    requires Groups(seen, before)
    requires after == before[tx.lane := (if tx.lane in before then before[tx.lane] else []) + [|seen|]]
    ensures Groups(seen + [tx], after)
  {
    forall lane
      ensures (lane in after <==> LaneIndices(seen + [tx], lane) != []) &&
              (lane in after ==> after[lane] == LaneIndices(seen + [tx], lane))
    {
      LaneStep(seen, tx, lane);
      assert lane in before <==> LaneIndices(seen, lane) != [];
    }
  }

  lemma {:induction false} GasStep(seen: seq<Assignment>, tx: Assignment, before: map<LaneId, u64>,
                                   after: map<LaneId, u64>)
    requires GasTable(seen, before)
    requires after == before[tx.lane := SatAdd(if tx.lane in before then before[tx.lane] else 0, tx.gas)]
    ensures GasTable(seen + [tx], after)
  {
    forall lane ensures (if lane in after then after[lane] else 0) == LaneGas(seen + [tx], lane) {
      LaneStep(seen, tx, lane);
    }
  }

  lemma {:induction false} CountStep(seen: seq<Assignment>, tx: Assignment, index: nat,
                                    before: map<LaneId, seq<nat>>, after: map<LaneId, seq<nat>>)
    requires CountTable(seen, before)
    requires after == before[tx.lane := (if tx.lane in before then before[tx.lane] else []) + [index]]
    ensures CountTable(seen + [tx], after)
  {
    forall lane ensures (if lane in after then |after[lane]| else 0) == |LaneIndices(seen + [tx], lane)| {
      LaneStep(seen, tx, lane);
    }
  }

  lemma {:induction false} KeyStep(seen: seq<Assignment>, tx: Assignment, before: KeyIndex, after: KeyIndex)
    requires KeyTable(seen, before)
    requires after == before[tx.lane := WithKeys(IndexOf(before, tx.lane), KeysOf(tx), tx.txHash)]
    ensures KeyTable(seen + [tx], after)
  {
    assert (seen + [tx])[..|seen|] == seen;
  }

  // ---- detect_cross_lane_conflicts ----

  datatype Conflict = Conflict(i: nat, j: nat, key: Key)

  predicate CrossConflict(txs: seq<Assignment>, i: nat, j: nat) {
    i < j < |txs| && txs[i].lane != txs[j].lane && KeysOf(txs[i]) * KeysOf(txs[j]) != {}
  }

  predicate LeastCommon(a: set<Key>, b: set<Key>, key: Key) {
    key in a && key in b && forall k :: k in a && k in b ==> key <= k
  }

  predicate Before(c: Conflict, d: Conflict) {
    c.i < d.i || (c.i == d.i && c.j < d.j)
  }

  predicate Sound(txs: seq<Assignment>, conflicts: seq<Conflict>) {
    && (forall n :: 0 <= n < |conflicts| ==>
          && CrossConflict(txs, conflicts[n].i, conflicts[n].j)
          && LeastCommon(KeysOf(txs[conflicts[n].i]), KeysOf(txs[conflicts[n].j]), conflicts[n].key))
    && (forall m, n :: 0 <= m < n < |conflicts| ==> Before(conflicts[m], conflicts[n]))
  }

  ghost predicate Reported(conflicts: seq<Conflict>, i: nat, j: nat) {
    exists n :: 0 <= n < |conflicts| && conflicts[n].i == i && conflicts[n].j == j
  }

  method FirstCommon(a: set<Key>, b: set<Key>) returns (r: Option<Key>)
    ensures r.Some? ==> LeastCommon(a, b, r.value)
    ensures r.None? ==> a * b == {}
  {
    var keys := Orders.SortedElements(Orders.NumberLe, a);
    for n := 0 to |keys|
      invariant forall m :: 0 <= m < n ==> keys[m] !in b
    {
      if keys[n] in b {
        forall k | k in a && k in b ensures keys[n] <= k {
          assert k in keys;
          var m :| 0 <= m < |keys| && keys[m] == k;
          assert m > n ==> Orders.NumberLe(keys[n], keys[m]);
        }
        return Some(keys[n]);
      }
    }
    forall k | k in a ensures k !in b {
      assert k in keys;
    }
    return None;
  }

  /** Every conflict among the pairs before `(i, j)` has been found, and nothing else. */
  ghost predicate FoundBefore(txs: seq<Assignment>, conflicts: seq<Conflict>, i: nat, j: nat) {
    && Sound(txs, conflicts)
    && (forall n :: 0 <= n < |conflicts| ==> conflicts[n].i < i || (conflicts[n].i == i && conflicts[n].j < j))
    && (forall x: nat, y: nat :: (x < i || (x == i && y < j)) && CrossConflict(txs, x, y) ==> Reported(conflicts, x, y))
  }

  lemma {:induction false} FoundNone(txs: seq<Assignment>, conflicts: seq<Conflict>, i: nat, j: nat)
    requires FoundBefore(txs, conflicts, i, j) && !CrossConflict(txs, i, j)
    ensures FoundBefore(txs, conflicts, i, j + 1)
  {
  }

  lemma {:induction false} FoundOne(txs: seq<Assignment>, conflicts: seq<Conflict>, i: nat, j: nat, key: Key)
    requires FoundBefore(txs, conflicts, i, j) && CrossConflict(txs, i, j)
    requires LeastCommon(KeysOf(txs[i]), KeysOf(txs[j]), key)
    ensures FoundBefore(txs, conflicts + [Conflict(i, j, key)], i, j + 1)
  {
    var after := conflicts + [Conflict(i, j, key)];
    forall x: nat, y: nat | (x < i || (x == i && y <= j)) && CrossConflict(txs, x, y) ensures Reported(after, x, y) {
      if x == i && y == j {
        assert after[|conflicts|] == Conflict(i, j, key);
      } else {
        var n :| 0 <= n < |conflicts| && conflicts[n].i == x && conflicts[n].j == y;
        assert after[n] == conflicts[n];
      }
    }
  }

  method DetectCrossLaneConflicts(txs: seq<Assignment>) returns (conflicts: seq<Conflict>)
    ensures Sound(txs, conflicts)
    ensures forall i: nat, j: nat :: CrossConflict(txs, i, j) ==> Reported(conflicts, i, j)
  {
    conflicts := [];
    for i := 0 to |txs|
      invariant FoundBefore(txs, conflicts, i, i + 1)
    {
      for j := i + 1 to |txs|
        invariant FoundBefore(txs, conflicts, i, j)
      {
        if txs[i].lane == txs[j].lane {
          FoundNone(txs, conflicts, i, j);
          continue;
        }
        var common := FirstCommon(KeysOf(txs[i]), KeysOf(txs[j]));
        if common.Some? {
          assert common.value in KeysOf(txs[i]) * KeysOf(txs[j]);
          FoundOne(txs, conflicts, i, j, common.value);
          conflicts := conflicts + [Conflict(i, j, common.value)];
        } else {
          FoundNone(txs, conflicts, i, j);
        }
      }
    }
  }
}
