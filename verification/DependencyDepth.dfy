/** Memoised depth of the dependency graph of roadmap items. */
module DependencyDepth {
  import opened Common
  import opened Dependencies
  import Orders

  /** Where a dependency name leads, if anywhere. */
  function Resolve(index: map<string, nat>, d: string): Option<nat> {
    if d in index then Some(index[d]) else None
  }

  predicate Indexed(items: seq<Item>, index: map<string, nat>) {
    forall t :: t in index ==> index[t] < |items|
  }

  predicate Edge(items: seq<Item>, index: map<string, nat>, a: nat, b: nat) {
    a < |items| && exists k :: 0 <= k < |items[a].dependencies| && Resolve(index, items[a].dependencies[k]) == Some(b)
  }

  /** The item names a dependency that no item carries. */
  predicate Dangling(items: seq<Item>, index: map<string, nat>, a: nat) {
    a < |items| && exists k :: 0 <= k < |items[a].dependencies| && Resolve(index, items[a].dependencies[k]) == None
  }

  predicate Walk(items: seq<Item>, index: map<string, nat>, path: seq<nat>) {
    forall i :: 0 <= i < |path| - 1 ==> Edge(items, index, path[i], path[i + 1])
  }

  ghost predicate Acyclic(items: seq<Item>, index: map<string, nat>) {
    forall path :: |path| >= 2 && Walk(items, index, path) ==> path[0] != path[|path| - 1]
  }

  /** A dependency chain: a walk, possibly ending with one unresolved dependency. */
  datatype Chain = Chain(path: seq<nat>, dangling: bool) {
    function Length(): int {
      |path| - 1 + (if dangling then 1 else 0)
    }
  }

  predicate ChainFrom(items: seq<Item>, index: map<string, nat>, a: nat, c: Chain) {
    && c.path != [] && c.path[0] == a < |items| && Walk(items, index, c.path)
    && (c.dangling ==> Dangling(items, index, c.path[|c.path| - 1]))
  }

  ghost predicate AtMost(items: seq<Item>, index: map<string, nat>, a: nat, depth: nat) {
    forall c :: ChainFrom(items, index, a, c) ==> c.Length() <= depth
  }

  ghost predicate Reaches(items: seq<Item>, index: map<string, nat>, a: nat, depth: nat) {
    exists c :: ChainFrom(items, index, a, c) && c.Length() == depth
  }

  // ---- chains grow at the front ----

  lemma {:induction false} EmptyChain(items: seq<Item>, index: map<string, nat>, a: nat)
    requires a < |items|
    ensures Reaches(items, index, a, 0)
  {
    assert ChainFrom(items, index, a, Chain([a], false));
    assert Chain([a], false).Length() == 0;
  }

  lemma {:induction false} DanglingChain(items: seq<Item>, index: map<string, nat>, a: nat)
    requires Dangling(items, index, a)
    ensures Reaches(items, index, a, 1)
  {
    var c := Chain([a], true);
    assert c.path[|c.path| - 1] == a;
    assert ChainFrom(items, index, a, c) && c.Length() == 1;
  }

  lemma {:induction false} LongerChain(items: seq<Item>, index: map<string, nat>, a: nat, b: nat, depth: nat)
    requires Edge(items, index, a, b) && Reaches(items, index, b, depth)
    ensures Reaches(items, index, a, depth + 1)
  {
    var c :| ChainFrom(items, index, b, c) && c.Length() == depth;
    var longer := Chain([a] + c.path, c.dangling);
    forall i | 0 <= i < |longer.path| - 1 ensures Edge(items, index, longer.path[i], longer.path[i + 1]) {
      if i > 0 {
        assert Edge(items, index, c.path[i - 1], c.path[i]);
      }
    }
    assert longer.path[|longer.path| - 1] == c.path[|c.path| - 1];
    assert ChainFrom(items, index, a, longer) && longer.Length() == depth + 1;
  }

  /** `best` is at least the depth through the first `n` dependencies of `a`. */
  ghost predicate CoversDependencies(items: seq<Item>, index: map<string, nat>, memo: map<nat, nat>, a: nat, n: nat,
                                     best: nat)
    requires a < |items| && n <= |items[a].dependencies|
  {
    forall k :: 0 <= k < n ==>
      match Resolve(index, items[a].dependencies[k])
      case None => best >= 1
      case Some(b) => b in memo && best >= 1 + memo[b]
  }

  /** Every recorded depth is the length of a chain, and no more than the number of recorded items. */
  ghost predicate MemoChains(items: seq<Item>, index: map<string, nat>, memo: map<nat, nat>) {
    forall a :: a in memo ==> a < |items| && Reaches(items, index, a, memo[a]) && memo[a] <= |memo|
  }

  /** No chain is longer than recorded. */
  ghost predicate MemoBounds(items: seq<Item>, index: map<string, nat>, memo: map<nat, nat>) {
    forall a :: a in memo ==> AtMost(items, index, a, memo[a])
  }

  ghost predicate MemoGrows(memo: map<nat, nat>, memo': map<nat, nat>) {
    forall a :: a in memo ==> a in memo' && memo'[a] == memo[a]
  }

  lemma {:induction false} MoreRecorded(memo: map<nat, nat>, memo': map<nat, nat>)
    requires MemoGrows(memo, memo')
    ensures |memo| <= |memo'|
  {
    assert memo.Keys + (memo'.Keys - memo.Keys) == memo'.Keys;
  }

  lemma {:induction false} RecordChain(items: seq<Item>, index: map<string, nat>, memo: map<nat, nat>, a: nat,
                                       depth: nat)
    requires MemoChains(items, index, memo) && a !in memo
    requires a < |items| && Reaches(items, index, a, depth) && depth <= |memo| + 1
    ensures MemoChains(items, index, memo[a := depth]) && MemoGrows(memo, memo[a := depth])
  {
    assert |memo[a := depth]| == |memo| + 1;
  }

  lemma {:induction false} RecordedItems(s: set<nat>, n: nat)
    requires forall x :: x in s ==> x < n
    ensures |s| <= n
  {
    if n > 0 {
      RecordedItems(s - {n - 1}, n - 1);
    } else {
      assert s == {};
    }
  }

  lemma {:induction false} CoveredIsBound(items: seq<Item>, index: map<string, nat>, memo: map<nat, nat>, a: nat,
                                          best: nat)
    requires Indexed(items, index)
    requires a < |items| && CoversDependencies(items, index, memo, a, |items[a].dependencies|, best)
    requires MemoBounds(items, index, memo)
    ensures AtMost(items, index, a, best)
  {
    forall c | ChainFrom(items, index, a, c) ensures c.Length() <= best {
      if |c.path| == 1 {
        assert c.path[|c.path| - 1] == a;
      } else {
        var b := c.path[1];
        assert Edge(items, index, c.path[0], c.path[1]);
        var tail := Chain(c.path[1..], c.dangling);
        forall i | 0 <= i < |tail.path| - 1 ensures Edge(items, index, tail.path[i], tail.path[i + 1]) {
          assert Edge(items, index, c.path[i + 1], c.path[i + 2]);
        }
        assert tail.path[|tail.path| - 1] == c.path[|c.path| - 1];
        assert ChainFrom(items, index, b, tail);
        assert AtMost(items, index, b, memo[b]);
      }
    }
  }

  // ---- the memoised search ----

  class Search {
    const items: seq<Item>
    const index: map<string, nat>
    var memo: map<nat, nat>
    var visiting: set<nat>
    ghost var path: seq<nat>  // the items being visited, outermost first

    constructor (items: seq<Item>, index: map<string, nat>)
      requires Indexed(items, index)
      ensures this.items == items && this.index == index && Valid() && visiting == {} && path == []
    {
      this.items, this.index := items, index;
      memo, visiting, path := map[], {}, [];
    }

    /** Recorded depths are lengths of chains, and of longest ones whenever the graph is acyclic. */
    ghost predicate Valid()
      reads this
    {
      && Indexed(items, index)
      && Walk(items, index, path) && visiting == Orders.Elements(path)
      && (forall x :: x in visiting ==> x < |items|) && memo.Keys !! visiting
      && MemoChains(items, index, memo)
      && (Acyclic(items, index) ==> MemoBounds(items, index, memo))
    }

    ghost function Unvisited(): set<nat>
      reads this
    {
      set x: nat | x < |items| && x !in visiting
    }

    method DepthFrom(a: nat) returns (depth: nat)
      requires Valid() && a < |items|
      requires path != [] ==> Edge(items, index, path[|path| - 1], a)
      modifies this
      ensures Valid() && visiting == old(visiting) && path == old(path)
      ensures MemoGrows(old(memo), memo)
      ensures Reaches(items, index, a, depth) && depth <= |memo|
      ensures Acyclic(items, index) ==> a in memo && memo[a] == depth && AtMost(items, index, a, depth)
      decreases Unvisited(), 0
    {
      if a in memo {
        return memo[a];
      }
      if a in visiting {
        RevisitIsCycle(items, index, path, a);
        EmptyChain(items, index, a);
        return 0;
      }
      Enter(a);
      ghost var memo0, acyclic := memo, Acyclic(items, index);
      EmptyChain(items, index, a);
      var best: nat := 0;
      for k := 0 to |items[a].dependencies|
        invariant Valid() && path == old(path) + [a] && visiting == old(visiting) + {a}
        invariant MemoGrows(memo0, memo)
        invariant Reaches(items, index, a, best) && best <= |memo| + 1
        invariant acyclic ==> CoversDependencies(items, index, memo, a, k, best)
      {
        ghost var memoBefore := memo;
        assert a in old(Unvisited()) && a !in Unvisited();
        var depDepth := Follow(a, k);
        MoreRecorded(memoBefore, memo);
        if acyclic {
          CoversMore(items, index, memoBefore, memo, a, k, best, if best >= depDepth then best else depDepth);
        }
        best := if best >= depDepth then best else depDepth;
      }
      if acyclic {
        CoveredIsBound(items, index, memo, a, best);
      }
      Leave(a, best);
      depth := best;
    }

    /** The depth through the `k`-th dependency of the item on top of the path. */
    method Follow(a: nat, k: nat) returns (depDepth: nat)
      requires Valid() && a < |items| && k < |items[a].dependencies|
      requires path != [] && path[|path| - 1] == a
      modifies this
      ensures Valid() && visiting == old(visiting) && path == old(path)
      ensures MemoGrows(old(memo), memo)
      ensures Reaches(items, index, a, depDepth) && 1 <= depDepth <= |memo| + 1
      ensures var next := Resolve(index, items[a].dependencies[k]);
              Acyclic(items, index) && next.Some? ==> next.value in memo && depDepth == 1 + memo[next.value]
      decreases Unvisited(), 1
    {
      var d := items[a].dependencies[k];
      if d in index {
        assert Resolve(index, d) == Some(index[d]);
        assert Edge(items, index, a, index[d]);
        var inner := DepthFrom(index[d]);
        LongerChain(items, index, a, index[d], inner);
        depDepth := 1 + inner;
      } else {
        assert Resolve(index, d) == None;
        DanglingChain(items, index, a);
        depDepth := 1;
      }
    }

    method Enter(a: nat)
      requires Valid() && a < |items| && a !in visiting && a !in memo
      requires path != [] ==> Edge(items, index, path[|path| - 1], a)
      modifies this`visiting, this`path
      ensures Valid() && path == old(path) + [a] && visiting == old(visiting) + {a}
    {
      visiting := visiting + {a};
      path := path + [a];
    }

    method Leave(a: nat, depth: nat)
      requires Valid() && a in visiting && path[|path| - 1] == a && a !in path[..|path| - 1]
      requires Reaches(items, index, a, depth) && depth <= |memo| + 1
      requires Acyclic(items, index) ==> AtMost(items, index, a, depth)
      modifies this
      ensures Valid() && path == old(path)[..|old(path)| - 1] && visiting == old(visiting) - {a}
      ensures memo == old(memo)[a := depth] && MemoGrows(old(memo), memo) && depth <= |memo|
    {
      PopElements(path);
      RecordChain(items, index, memo, a, depth);
      visiting := visiting - {a};
      path := path[..|path| - 1];
      memo := memo[a := depth];
    }
  }

  lemma {:induction false} PopElements(path: seq<nat>)
    requires path != [] && path[|path| - 1] !in path[..|path| - 1]
    ensures Orders.Elements(path[..|path| - 1]) == Orders.Elements(path) - {path[|path| - 1]}
  {
    assert path == path[..|path| - 1] + [path[|path| - 1]];
  }

  lemma {:induction false} CoversMore(items: seq<Item>, index: map<string, nat>, memo: map<nat, nat>,
                                      memo': map<nat, nat>, a: nat, k: nat, best: nat, best': nat)
    requires a < |items| && k < |items[a].dependencies| && best <= best'
    requires CoversDependencies(items, index, memo, a, k, best)
    requires MemoGrows(memo, memo')
    requires match Resolve(index, items[a].dependencies[k])
             case None => best' >= 1
             case Some(b) => b in memo' && best' >= 1 + memo'[b]
    ensures CoversDependencies(items, index, memo', a, k + 1, best')
  {
  }

  /** Reaching an item that is being visited closes a cycle. */
  lemma {:induction false} RevisitIsCycle(items: seq<Item>, index: map<string, nat>, path: seq<nat>, a: nat)
    requires Walk(items, index, path) && a in path && Edge(items, index, path[|path| - 1], a)
    ensures !Acyclic(items, index)
  {
    var i :| 0 <= i < |path| && path[i] == a;
    var cycle := path[i..] + [a];
    forall j | 0 <= j < |cycle| - 1 ensures Edge(items, index, cycle[j], cycle[j + 1]) {
      if j < |cycle| - 2 {
        assert Edge(items, index, path[i + j], path[i + j + 1]);
      }
    }
    assert Walk(items, index, cycle) && |cycle| >= 2 && cycle[0] == cycle[|cycle| - 1];
  }

  /** The longest chain from anywhere. */
  ghost predicate IsMaxDepth(items: seq<Item>, index: map<string, nat>, depth: nat) {
    Bounds(items, index, |items|, depth) && Attained(items, index, depth)
  }

  /** No chain from the first `n` items is longer. */
  ghost predicate Bounds(items: seq<Item>, index: map<string, nat>, n: nat, depth: nat) {
    forall a: nat :: a < n && a < |items| ==> AtMost(items, index, a, depth)
  }

  ghost predicate Attained(items: seq<Item>, index: map<string, nat>, depth: nat) {
    depth == 0 || exists a: nat :: a < |items| && Reaches(items, index, a, depth)
  }

  // ---- cyclic inputs have no longest chain ----

  lemma {:induction false} JoinWalks(items: seq<Item>, index: map<string, nat>, p: seq<nat>, q: seq<nat>)
    requires Walk(items, index, p) && Walk(items, index, q) && p != [] && q != [] && p[|p| - 1] == q[0]
    ensures Walk(items, index, p + q[1..])
  {
    var w := p + q[1..];
    forall i | 0 <= i < |w| - 1 ensures Edge(items, index, w[i], w[i + 1]) {
      if i < |p| - 1 {
        assert Edge(items, index, p[i], p[i + 1]);
      } else {
        assert Edge(items, index, q[i - (|p| - 1)], q[i - (|p| - 1) + 1]);
      }
    }
  }

  lemma {:induction false} GoRound(items: seq<Item>, index: map<string, nat>, cycle: seq<nat>, n: nat)
    returns (w: seq<nat>)
    requires |cycle| >= 2 && Walk(items, index, cycle) && cycle[0] == cycle[|cycle| - 1]
    ensures |w| > n && Walk(items, index, w) && w[0] == w[|w| - 1] == cycle[0]
  {
    if n == 0 {
      w := cycle;
    } else {
      var shorter := GoRound(items, index, cycle, n - 1);
      JoinWalks(items, index, shorter, cycle);
      w := shorter + cycle[1..];
    }
  }

  lemma {:induction false} CyclicHasNoDepth(items: seq<Item>, index: map<string, nat>, depth: nat)
    requires !Acyclic(items, index)
    ensures !IsMaxDepth(items, index, depth)
  {
    var cycle :| |cycle| >= 2 && Walk(items, index, cycle) && cycle[0] == cycle[|cycle| - 1];
    var w := GoRound(items, index, cycle, depth + 1);
    assert Edge(items, index, w[0], w[1]);
    assert ChainFrom(items, index, w[0], Chain(w, false));
    assert Chain(w, false).Length() > depth;
    assert !AtMost(items, index, w[0], depth);
  }

  /** The result is the length of the longest dependency chain, an unresolved dependency counting as one
      edge, exactly when there is a longest one, that is, when no item depends on itself. On every input
      it is the length of some chain and at most the number of items. */
  method ComputeDependencyDepth(items: seq<Item>) returns (depth: nat)
    ensures IsMaxDepth(items, TitleIndex(items), depth) <==> Acyclic(items, TitleIndex(items))
    ensures Attained(items, TitleIndex(items), depth) && depth <= |items|
  {
    var index := IndexByTitle(items);
    var search := new Search(items, index);
    depth := 0;
    for i := 0 to |items|
      invariant fresh(search) && search.items == items && search.index == index
      invariant search.Valid() && search.path == [] && depth <= |search.memo|
      invariant Attained(items, index, depth)
      invariant Acyclic(items, index) ==> Bounds(items, index, i, depth)
    {
      ghost var before, memo := depth, search.memo;
      var d := search.DepthFrom(i);
      MoreRecorded(memo, search.memo);
      depth := if depth >= d then depth else d;
      if Acyclic(items, index) {
        forall a: nat | a < i + 1 && a < |items| ensures AtMost(items, index, a, depth) {
          assert AtMost(items, index, a, if a < i then before else d);
        }
      }
    }
    RecordedItems(search.memo.Keys, |items|);
    if !Acyclic(items, index) {
      CyclicHasNoDepth(items, index, depth);
    }
  }
}
