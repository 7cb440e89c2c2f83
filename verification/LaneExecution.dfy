/** Running conflict-free lanes in parallel means the same as running the block in index order. */
module LaneExecution {
  import opened Common
  import opened Lanes
  import opened LaneMeaning
  import Orders

  type Storage = map<Key, nat>

  /** The effect of a transaction, by index. */
  type Effects = (nat, Storage) -> Storage

  predicate SameAt(s: Storage, t: Storage, k: Key) {
    (k in s <==> k in t) && (k in s ==> s[k] == t[k])
  }

  ghost predicate AgreeOn(s: Storage, t: Storage, keys: set<Key>) {
    forall k :: k in keys ==> SameAt(s, t, k)
  }

  /** Transaction `i` writes only `keys`, and what it writes depends only on `keys`. */
  ghost predicate Confined(exec: Effects, i: nat, keys: set<Key>) {
    && (forall s: Storage, k: Key :: k !in keys ==> SameAt(s, exec(i, s), k))
    && (forall s: Storage, t: Storage :: AgreeOn(s, t, keys) ==> AgreeOn(exec(i, s), exec(i, t), keys))
  }

  function Run(exec: Effects, order: seq<nat>, s: Storage): Storage {
    if order == [] then s
    else exec(order[|order| - 1], Run(exec, order[..|order| - 1], s))
  }

  function InOrder(n: nat): seq<nat> {
    seq(n, i => i)
  }

  predicate Within(order: seq<nat>, n: nat) {
    forall i :: 0 <= i < |order| ==> order[i] < n
  }

  /** The part of `order` that runs in `lane`. */
  function Project(order: seq<nat>, txs: seq<Assignment>, lane: LaneId): seq<nat>
    requires Within(order, |txs|)
  {
    if order == [] then []
    else
      var n := |order| - 1;
      Project(order[..n], txs, lane) + (if txs[order[n]].lane == lane then [order[n]] else [])
  }

  /** `order` runs exactly the grouped transactions, each lane in its own order. */
  ghost predicate Interleaves(order: seq<nat>, txs: seq<Assignment>, grouped: map<LaneId, seq<nat>>) {
    && Within(order, |txs|)
    && forall lane :: Project(order, txs, lane) == if lane in grouped then grouped[lane] else []
  }

  // ---- commuting ----

  lemma {:induction false} Commute(exec: Effects, i: nat, j: nat, a: set<Key>, b: set<Key>, s: Storage)
    requires Confined(exec, i, a) && Confined(exec, j, b) && a !! b
    ensures exec(j, exec(i, s)) == exec(i, exec(j, s))
  {
    var si, sj := exec(i, s), exec(j, s);
    var sij, sji := exec(j, si), exec(i, sj);
    assert AgreeOn(s, sj, a) && AgreeOn(s, si, b);
    assert AgreeOn(si, sji, a) && AgreeOn(sj, sij, b);
    forall k: Key ensures SameAt(sij, sji, k) {
      assert SameAt(si, sij, k) || k in b;
      assert SameAt(sj, sji, k) || k in a;
      assert SameAt(s, si, k) || k in a;
      assert SameAt(s, sj, k) || k in b;
    }
    SameEverywhere(sij, sji);
  }

  lemma {:induction false} SameEverywhere(s: Storage, t: Storage)
    requires forall k: Key :: SameAt(s, t, k)
    ensures s == t
  {
    forall k: Key | k in s || k in t ensures k in s && k in t && s[k] == t[k] {
      assert SameAt(s, t, k);
    }
  }

  /** Transactions respect their normalized keys, and lanes do not conflict with each other. */
  ghost predicate Independent(exec: Effects, txs: seq<Assignment>) {
    && (forall i :: 0 <= i < |txs| ==> Confined(exec, i, KeysOf(txs[i])))
    && (forall i, j :: 0 <= i < j < |txs| && txs[i].lane != txs[j].lane ==> KeysOf(txs[i]) !! KeysOf(txs[j]))
  }

  /** Nothing in `order` belongs to `lane`. */
  predicate Avoids(order: seq<nat>, txs: seq<Assignment>, lane: LaneId)
    requires Within(order, |txs|)
  {
    forall i :: 0 <= i < |order| ==> txs[order[i]].lane != lane
  }

  /** A transaction moves past a run of transactions of other lanes. */
  lemma {:induction false} MoveLast(exec: Effects, txs: seq<Assignment>, x: nat, rest: seq<nat>, s: Storage)
    requires Independent(exec, txs) && x < |txs|
    requires Within(rest, |txs|) && Avoids(rest, txs, txs[x].lane)
    ensures Run(exec, rest, exec(x, s)) == exec(x, Run(exec, rest, s))
  {
    if rest != [] {
      var init, y := rest[..|rest| - 1], rest[|rest| - 1];
      MoveLast(exec, txs, x, init, s);
      Commute(exec, x, y, KeysOf(txs[x]), KeysOf(txs[y]), Run(exec, init, s));
    }
  }

  lemma {:induction false} RunAppend(exec: Effects, a: seq<nat>, b: seq<nat>, s: Storage)
    ensures Run(exec, a + b, s) == Run(exec, b, Run(exec, a, s))
  {
    if b == [] {
      assert a + b == a;
    } else {
      var init := b[..|b| - 1];
      assert (a + b)[..|a + b| - 1] == a + init;
      RunAppend(exec, a, init, s);
    }
  }

  // ---- projections ----

  lemma {:induction false} ProjectAppend(a: seq<nat>, b: seq<nat>, txs: seq<Assignment>, lane: LaneId)
    requires Within(a + b, |txs|)
    ensures Within(a, |txs|) && Within(b, |txs|)
    ensures Project(a + b, txs, lane) == Project(a, txs, lane) + Project(b, txs, lane)
  {
    assert forall i :: 0 <= i < |a| ==> a[i] == (a + b)[i];
    assert forall i :: 0 <= i < |b| ==> b[i] == (a + b)[|a| + i];
    if b == [] {
      assert a + b == a;
    } else {
      var init := b[..|b| - 1];
      assert (a + b)[..|a + b| - 1] == a + init;
      ProjectAppend(a, init, txs, lane);
    }
  }

  /** If a lane's projection ends in `x`, then nothing of that lane follows the last `x`. */
  lemma {:induction false} SplitLast(order: seq<nat>, txs: seq<Assignment>, lane: LaneId, x: nat)
    returns (a: seq<nat>, b: seq<nat>)
    requires Within(order, |txs|)
    requires var p := Project(order, txs, lane); p != [] && p[|p| - 1] == x
    ensures order == a + [x] + b
    ensures Within(b, |txs|) && Avoids(b, txs, lane)
  {
    var init, last := order[..|order| - 1], order[|order| - 1];
    assert order == init + [last];
    if txs[last].lane == lane {
      a, b := init, [];
    } else {
      a, b := SplitLast(init, txs, lane, x);
      b := b + [last];
    }
  }

  lemma {:induction false} ProjectOther(b: seq<nat>, txs: seq<Assignment>, lane: LaneId)
    requires Within(b, |txs|) && Avoids(b, txs, lane)
    ensures Project(b, txs, lane) == []
  {
    if b != [] {
      ProjectOther(b[..|b| - 1], txs, lane);
    }
  }

  /** Projections onto a prefix of the block. */
  ghost predicate Covers(order: seq<nat>, txs: seq<Assignment>, n: nat)
    requires n <= |txs|
  {
    && Within(order, |txs|)
    && forall lane :: Project(order, txs, lane) == LaneIndices(txs[..n], lane)
  }

  lemma {:induction false} LaneIndicesStep(txs: seq<Assignment>, n: nat, lane: LaneId)
    requires 0 < n <= |txs|
    ensures LaneIndices(txs[..n], lane) ==
            LaneIndices(txs[..n - 1], lane) + (if txs[n - 1].lane == lane then [n - 1] else [])
  {
    assert txs[..n][..n - 1] == txs[..n - 1];
  }

  lemma {:induction false} ProjectsSomething(order: seq<nat>, txs: seq<Assignment>)
    requires order != [] && Within(order, |txs|)
    ensures Project(order, txs, txs[order[|order| - 1]].lane) != []
  {
  }

  lemma {:induction false} CoversNothing(order: seq<nat>, txs: seq<Assignment>)
    requires Covers(order, txs, 0)
    ensures order == []
  {
    if order != [] {
      ProjectsSomething(order, txs);
    }
  }

  /** Taking the newest transaction out of an interleaving leaves an interleaving of the others. */
  lemma {:induction false} CoversRest(a: seq<nat>, b: seq<nat>, txs: seq<Assignment>, n: nat)
    requires 0 < n <= |txs| && Covers(a + [n - 1] + b, txs, n)
    requires Within(b, |txs|) && Avoids(b, txs, txs[n - 1].lane)
    ensures Covers(a + b, txs, n - 1)
  {
    var x := n - 1;
    var order := a + [x] + b;
    assert forall i :: 0 <= i < |a| ==> a[i] == order[i];
    forall lane ensures Project(a + b, txs, lane) == LaneIndices(txs[..x], lane) {
      ProjectAppend(a + [x], b, txs, lane);
      ProjectAppend(a, [x], txs, lane);
      ProjectAppend(a, b, txs, lane);
      LaneIndicesStep(txs, n, lane);
      assert Project(order, txs, lane) == LaneIndices(txs[..n], lane);
      assert Project([x], txs, lane) == if txs[x].lane == lane then [x] else [];
      if txs[x].lane == lane {
        ProjectOther(b, txs, lane);
        assert Project(a, txs, lane) + [x] == LaneIndices(txs[..x], lane) + [x];
        SnocInjective(Project(a, txs, lane), LaneIndices(txs[..x], lane), x);
      } else {
        assert Project(a, txs, lane) + [] == Project(a, txs, lane);
        assert LaneIndices(txs[..x], lane) + [] == LaneIndices(txs[..x], lane);
      }
    }
  }

  lemma {:induction false} SnocInjective(a: seq<nat>, b: seq<nat>, x: nat)
    requires a + [x] == b + [x]
    ensures a == b
  {
    assert (a + [x])[..|a|] == a && (b + [x])[..|b|] == b;
  }

  lemma {:induction false} CoversMeansInOrder(exec: Effects, txs: seq<Assignment>, n: nat, order: seq<nat>, s: Storage)
    requires Independent(exec, txs) && n <= |txs| && Covers(order, txs, n)
    ensures Run(exec, order, s) == Run(exec, InOrder(n), s)
  {
    if n == 0 {
      CoversNothing(order, txs);
    } else {
      var x := n - 1;
      LaneIndicesStep(txs, n, txs[x].lane);
      assert Project(order, txs, txs[x].lane) == LaneIndices(txs[..n], txs[x].lane);
      var a, b := SplitLast(order, txs, txs[x].lane, x);
      CoversRest(a, b, txs, n);
      RunAppend(exec, a + [x], b, s);
      RunAppend(exec, a, [x], s);
      assert [x][..0] == [];
      assert Run(exec, [x], Run(exec, a, s)) == exec(x, Run(exec, [], Run(exec, a, s)));
      MoveLast(exec, txs, x, b, Run(exec, a, s));
      RunAppend(exec, a, b, s);
      CoversMeansInOrder(exec, txs, x, a + b, s);
      assert InOrder(n)[..x] == InOrder(x);
    }
  }

  /** Every key the transaction names. */
  function NamedKeys(tx: Assignment): set<Key> {
    (set k: Key | k in tx.stateKeys) + tx.conflictSet
  }

  /** Each lane in use lists exactly its transactions, ascending. */
  ghost predicate InLaneOrder(txs: seq<Assignment>, grouped: map<LaneId, seq<nat>>) {
    forall lane ::
      && (lane in grouped <==> exists i :: 0 <= i < |txs| && txs[i].lane == lane)
      && (lane in grouped ==>
            && (forall a, b :: 0 <= a < b < |grouped[lane]| ==> grouped[lane][a] < grouped[lane][b])
            && forall i: nat :: i in grouped[lane] <==> i < |txs| && txs[i].lane == lane)
  }

  predicate NatLt(a: nat, b: nat) {
    a < b
  }

  lemma {:induction false} LaneOrderIsIndices(txs: seq<Assignment>, grouped: map<LaneId, seq<nat>>, lane: LaneId)
    requires InLaneOrder(txs, grouped)
    ensures (if lane in grouped then grouped[lane] else []) == LaneIndices(txs, lane)
  {
    IndicesMean(txs, lane);
    var indices := LaneIndices(txs, lane);
    if lane in grouped {
      Orders.AscendingUnique(NatLt, grouped[lane], indices);
    } else {
      IndicesOfSome(txs, lane);
    }
  }

  /** Serializability: when each lane lists its transactions in order and transactions of different lanes
      name no common key, every interleaving that keeps each lane's order ends in the state of the
      index-order execution, for transactions confined to the keys they name. */
  lemma {:induction false} LanesAreSerial(exec: Effects, txs: seq<Assignment>, grouped: map<LaneId, seq<nat>>,
                                          order: seq<nat>, s: Storage)
    requires InLaneOrder(txs, grouped)
    requires forall i :: 0 <= i < |txs| ==> 0 !in txs[i].stateKeys && 0 !in txs[i].conflictSet
    requires forall i, j :: 0 <= i < j < |txs| && txs[i].lane != txs[j].lane ==> NamedKeys(txs[i]) !! NamedKeys(txs[j])
    requires forall i :: 0 <= i < |txs| ==> Confined(exec, i, NamedKeys(txs[i]))
    requires Interleaves(order, txs, grouped)
    ensures Run(exec, order, s) == Run(exec, InOrder(|txs|), s)
  {
    assert txs[..|txs|] == txs;
    forall lane ensures Project(order, txs, lane) == LaneIndices(txs, lane) {
      LaneOrderIsIndices(txs, grouped, lane);
    }
    forall i | 0 <= i < |txs| ensures KeysOf(txs[i]) == NamedKeys(txs[i]) {
      KeysAreTouched(txs[i]);
    }
    CoversMeansInOrder(exec, txs, |txs|, order, s);
  }

  /** Hence it holds once the lanes were assigned and no cross-lane conflict was reported. */
  lemma {:induction false} ParallelIsSerial(exec: Effects, txs: seq<Assignment>, config: Config,
                                            grouped: map<LaneId, seq<nat>>, conflicts: seq<Conflict>, order: seq<nat>,
                                            s: Storage)
    requires Acceptable(txs, config) && Groups(txs, grouped)
    requires forall i: nat, j: nat :: CrossConflict(txs, i, j) ==> Reported(conflicts, i, j)
    requires conflicts == []
    requires forall i :: 0 <= i < |txs| ==> Confined(exec, i, NamedKeys(txs[i]))
    requires Interleaves(order, txs, grouped)
    ensures Run(exec, order, s) == Run(exec, InOrder(|txs|), s)
  {
    AcceptableMeans(txs, config);
    GroupsMean(txs, grouped);
    forall i, j | 0 <= i < j < |txs| && txs[i].lane != txs[j].lane ensures NamedKeys(txs[i]) !! NamedKeys(txs[j]) {
      forall k: Key | k in NamedKeys(txs[i]) ensures k !in NamedKeys(txs[j]) {
        NoConflictMeans(txs, conflicts, i, j, k);
      }
    }
    LanesAreSerial(exec, txs, grouped, order, s);
  }
}
