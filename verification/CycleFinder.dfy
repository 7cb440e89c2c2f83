/** Depth-first search for a dependency cycle among module migrations. */
module CycleFinder {
  import opened Common
  import opened Orders

  datatype Module =
    | VoteAccumulator | ForkChoice | Finalization | SlashingDetector | AttestationPool
    | CommitteeShuffler | BlockProduction | StateTransition | EpochProcessing | SyncProtocol

  datatype Migration = Migration(mod: Module, dependencies: seq<Module>)

  // ---- graphs and cycles ----

  type Graph = seq<seq<nat>>

  predicate InBounds(g: Graph) {
    forall i, j :: 0 <= i < |g| && 0 <= j < |g[i]| ==> g[i][j] < |g|
  }

  predicate Edge(g: Graph, a: nat, b: nat) {
    a < |g| && b in g[a]
  }

  predicate Walk(g: Graph, path: seq<nat>) {
    forall i :: 0 <= i < |path| - 1 ==> Edge(g, path[i], path[i + 1])
  }

  /** A closed walk along edges. */
  predicate ClosedWalk(g: Graph, path: seq<nat>) {
    |path| >= 2 && Walk(g, path) && path[0] == path[|path| - 1]
  }

  /** A closed walk that repeats no node except its ends. */
  predicate SimpleCycle(g: Graph, path: seq<nat>) {
    ClosedWalk(g, path) && Distinct(path[..|path| - 1])
  }

  ghost predicate HasCycle(g: Graph) {
    exists path :: ClosedWalk(g, path)
  }

  // ---- finished nodes ----

  /** Every node of `done` has all its successors earlier in `done`. */
  predicate Topological(g: Graph, done: seq<nat>) {
    forall i, y :: 0 <= i < |done| && done[i] < |g| && y in g[done[i]] ==> y in done[..i]
  }

  /** A walk that starts among the first `i` finished nodes never leaves them, and goes down. */
  lemma {:induction false} WalkGoesDown(g: Graph, done: seq<nat>, path: seq<nat>, i: nat, k: nat) returns (j: nat)
    requires Topological(g, done) && Walk(g, path) && 0 < k < |path|
    requires i < |done| && done[i] == path[0]
    ensures j < i && done[j] == path[k]
    decreases k
  {
    var from := i;
    if k > 1 {
      from := WalkGoesDown(g, done, path, i, k - 1);
    }
    assert Edge(g, path[k - 1], path[k]);
    assert path[k] in done[..from];
    j :| 0 <= j < from && done[..from][j] == path[k];
  }

  lemma {:induction false} NoCycleWhenFinished(g: Graph, done: seq<nat>)
    requires Topological(g, done) && Distinct(done)
    requires forall x: nat :: x < |g| ==> x in done
    ensures !HasCycle(g)
  {
    forall path ensures !ClosedWalk(g, path) {
      if ClosedWalk(g, path) {
        assert Edge(g, path[0], path[1]);
        assert path[0] in done;
        var i :| 0 <= i < |done| && done[i] == path[0];
        var j := WalkGoesDown(g, done, path, i, |path| - 1);
        assert false;
      }
    }
  }

  lemma {:induction false} FinishedNext(g: Graph, done: seq<nat>, node: nat)
    requires Topological(g, done) && node < |g| && forall y :: y in g[node] ==> y in done
    ensures Topological(g, done + [node])
  {
    var after := done + [node];
    forall i, y | 0 <= i < |after| && after[i] < |g| && y in g[after[i]] ensures y in after[..i] {
      if i < |done| {
        assert after[..i] == done[..i];
      } else {
        assert after[..i] == done;
      }
    }
  }

  // ---- the search ----

  class Search {
    const graph: Graph
    const state: array<nat>  // 0 unvisited, 1 on the stack, 2 finished
    var stack: seq<nat>
    ghost var done: seq<nat>  // finished nodes, oldest first

    constructor (g: Graph)
      requires InBounds(g)
      ensures graph == g && Valid() && fresh(state)
      ensures stack == [] && done == [] && forall x :: 0 <= x < |g| ==> state[x] == 0
    {
      graph := g;
      state := new nat[|g|](_ => 0);
      stack, done := [], [];
    }

    ghost predicate Valid()
      reads this, state
    {
      && InBounds(graph) && state.Length == |graph|
      && (forall x :: 0 <= x < |graph| ==> state[x] <= 2)
      && (forall x :: x in stack <==> 0 <= x < |graph| && state[x] == 1)
      && (forall x :: x in done <==> 0 <= x < |graph| && state[x] == 2)
      && Walk(graph, stack) && Distinct(stack)
      && Topological(graph, done) && Distinct(done)
    }

    ghost function Unvisited(): set<nat>
      reads state
    {
      set x: nat | x < state.Length && state[x] == 0
    }

    method Position(node: nat) returns (k: nat)
      requires node in stack
      ensures k < |stack| && stack[k] == node
    {
      k := 0;
      while stack[k] != node
        invariant k < |stack| && forall i :: 0 <= i < k ==> stack[i] != node
        decreases |stack| - k
      {
        k := k + 1;
      }
    }

    /** Visits `node`, a successor of the top of the stack. */
    method Dfs(node: nat) returns (r: Option<seq<nat>>)
      requires Valid() && node < |graph|
      requires stack != [] ==> Edge(graph, stack[|stack| - 1], node)
      modifies this, state
      ensures r.Some? ==> SimpleCycle(graph, r.value)
      ensures r.None? ==> Valid() && stack == old(stack) && state[node] == 2
      ensures r.None? ==> Unvisited() <= old(Unvisited()) && old(done) <= done
      decreases Unvisited()
    {
      if state[node] == 1 {
        var start := Position(node);
        r := Some(stack[start..] + [node]);
        assert r.value[..|r.value| - 1] == stack[start..];
        return;
      }
      if state[node] == 2 {
        return None;
      }
      Push(node);
      ghost var before := Unvisited();
      ghost var done0, stack0 := done, stack;
      for i := 0 to |graph[node]|
        invariant Valid() && stack == stack0 && done0 <= done && Unvisited() <= before
        invariant forall j :: 0 <= j < i ==> state[graph[node][j]] == 2
      {
        assert graph[node][i] in graph[node];
        var next := graph[node][i];
        ghost var doneBefore := done;
        var cycle := Dfs(next);
        if cycle.Some? {
          return cycle;
        }
        forall j | 0 <= j <= i ensures state[graph[node][j]] == 2 {
          if j < i {
            assert graph[node][j] in doneBefore;
          }
        }
      }
      Finish(node);
      r := None;
    }

    /** Starts a search at `node` unless it has been visited. */
    method Root(node: nat) returns (r: Option<seq<nat>>)
      requires Valid() && stack == [] && node < |graph|
      modifies this, state
      ensures r.Some? ==> SimpleCycle(graph, r.value)
      ensures r.None? ==> Valid() && stack == [] && node in done && old(done) <= done
    {
      if state[node] == 0 {
        r := Dfs(node);
      } else {
        assert node !in stack;
        r := None;
      }
    }

    method Push(node: nat)
      requires Valid() && node < |graph| && state[node] == 0
      requires stack != [] ==> Edge(graph, stack[|stack| - 1], node)
      modifies this, state
      ensures Valid() && stack == old(stack) + [node] && done == old(done)
      ensures Unvisited() == old(Unvisited()) - {node} && state[node] == 1
    {
      state[node] := 1;
      stack := stack + [node];
    }

    method Finish(node: nat)
      requires Valid() && node < |graph| && stack != [] && stack[|stack| - 1] == node
      requires forall j :: 0 <= j < |graph[node]| ==> state[graph[node][j]] == 2
      modifies this, state
      ensures Valid() && stack == old(stack)[..|old(stack)| - 1] && done == old(done) + [node]
      ensures Unvisited() == old(Unvisited()) && state[node] == 2
    {
      assert node in stack && node !in done;
      assert stack == stack[..|stack| - 1] + [node];
      stack := stack[..|stack| - 1];
      state[node] := 2;
      done := done + [node];
      forall y | y in graph[node] ensures y in old(done) {
        var j :| 0 <= j < |graph[node]| && graph[node][j] == y;
        assert old(state[graph[node][j]]) == 2;
      }
      FinishedNext(graph, old(done), node);
    }
  }

  // ---- migrations ----

  /** Index of the first migration of `mod`, or the length when there is none. */
  function FirstIndex(migrations: seq<Migration>, mod: Module): (k: nat)
    ensures k <= |migrations|
    ensures forall i :: 0 <= i < k ==> migrations[i].mod != mod
    ensures k < |migrations| ==> migrations[k].mod == mod
  {
    if migrations == [] then 0
    else if migrations[0].mod == mod then 0
    else
      var k := FirstIndex(migrations[1..], mod);
      assert forall i :: 1 <= i < k + 1 ==> migrations[i] == migrations[1..][i - 1];
      k + 1
  }

  /** Migration `b` is the one found for some dependency of migration `a`. */
  predicate DependsOn(migrations: seq<Migration>, a: nat, b: nat) {
    a < |migrations| && Resolved(migrations, migrations[a].dependencies, b)
  }

  predicate Resolved(migrations: seq<Migration>, dependencies: seq<Module>, b: nat) {
    b < |migrations| && migrations[b].mod in dependencies && FirstIndex(migrations, migrations[b].mod) == b
  }

  /** `g` links each migration to the first migration of each dependency that has one. */
  ghost predicate DependencyGraph(migrations: seq<Migration>, g: Graph) {
    && |g| == |migrations|
    && forall a: nat, b: nat :: Edge(g, a, b) <==> DependsOn(migrations, a, b)
  }

  method BuildGraph(migrations: seq<Migration>) returns (g: Graph)
    ensures DependencyGraph(migrations, g) && InBounds(g)
  {
    g := [];
    for a := 0 to |migrations|
      invariant |g| == a
      invariant forall x: nat, b: nat :: Edge(g, x, b) <==> x < a && DependsOn(migrations, x, b)
    {
      var deps := Successors(migrations, migrations[a].dependencies);
      ghost var before := g;
      g := g + [deps];
      forall x: nat, b: nat ensures Edge(g, x, b) <==> x < a + 1 && DependsOn(migrations, x, b) {
        assert x < a ==> (Edge(g, x, b) <==> Edge(before, x, b));
        assert x == a ==> (Edge(g, x, b) <==> Resolved(migrations, migrations[a].dependencies, b));
      }
    }
    forall i, j | 0 <= i < |g| && 0 <= j < |g[i]| ensures g[i][j] < |g| {
      assert Edge(g, i, g[i][j]);
    }
  }

  method Successors(migrations: seq<Migration>, dependencies: seq<Module>) returns (deps: seq<nat>)
    ensures forall b: nat :: b in deps <==> Resolved(migrations, dependencies, b)
  {
    deps := [];
    for d := 0 to |dependencies|
      invariant forall b: nat :: b in deps <==> Resolved(migrations, dependencies[..d], b)
    {
      assert dependencies[..d + 1] == dependencies[..d] + [dependencies[d]];
      var index := FirstIndex(migrations, dependencies[d]);
      if index < |migrations| {
        deps := deps + [index];
      }
    }
    assert dependencies[..|dependencies|] == dependencies;
  }

  // ---- cycles of migrations ----

  predicate DependencyWalk(migrations: seq<Migration>, path: seq<nat>) {
    forall i :: 0 <= i < |path| - 1 ==> DependsOn(migrations, path[i], path[i + 1])
  }

  /** Some migration depends on itself through a chain of dependencies. */
  ghost predicate Cyclic(migrations: seq<Migration>) {
    exists path :: |path| >= 2 && DependencyWalk(migrations, path) && path[0] == path[|path| - 1]
  }

  predicate InRange(migrations: seq<Migration>, path: seq<nat>) {
    forall i :: 0 <= i < |path| ==> path[i] < |migrations|
  }

  /** `names` are the modules along a cycle that repeats no migration except its ends. */
  ghost predicate NamesCycle(migrations: seq<Migration>, names: seq<Module>) {
    exists path ::
      && |path| >= 2 && DependencyWalk(migrations, path) && path[0] == path[|path| - 1]
      && Distinct(path[..|path| - 1]) && InRange(migrations, path) && names == Names(migrations, path)
  }

  lemma {:induction false} SameWalks(migrations: seq<Migration>, g: Graph, path: seq<nat>)
    requires DependencyGraph(migrations, g)
    ensures Walk(g, path) <==> DependencyWalk(migrations, path)
  {
    assert forall i :: 0 <= i < |path| - 1 ==>
                         (Edge(g, path[i], path[i + 1]) <==> DependsOn(migrations, path[i], path[i + 1]));
  }

  lemma {:induction false} CyclicIffCycle(migrations: seq<Migration>, g: Graph)
    requires DependencyGraph(migrations, g)
    ensures Cyclic(migrations) <==> HasCycle(g)
  {
    if path :| |path| >= 2 && DependencyWalk(migrations, path) && path[0] == path[|path| - 1] {
      SameWalks(migrations, g, path);
      assert ClosedWalk(g, path);
    }
    if path :| ClosedWalk(g, path) {
      SameWalks(migrations, g, path);
    }
  }

  /** Returns names exactly when there is a cycle; they follow one and repeat only at its ends. */
  method FindDependencyCycle(migrations: seq<Migration>) returns (r: Option<seq<Module>>)
    ensures r.Some? <==> Cyclic(migrations)
    ensures r.Some? ==> NamesCycle(migrations, r.value)
    ensures r.Some? ==> r.value != [] && Distinct(r.value[..|r.value| - 1])
  {
    var adjacency := BuildGraph(migrations);
    CyclicIffCycle(migrations, adjacency);
    var search := new Search(adjacency);
    for index := 0 to |migrations|
      invariant fresh(search) && fresh(search.state) && search.graph == adjacency
      invariant search.Valid() && search.stack == []
      invariant forall x :: 0 <= x < index ==> x in search.done
    {
      var cycle := search.Root(index);
      if cycle.Some? {
        CycleNames(migrations, adjacency, cycle.value);
        return Some(Names(migrations, cycle.value));
      }
    }
    NoCycleWhenFinished(adjacency, search.done);
    return None;
  }

  function Names(migrations: seq<Migration>, path: seq<nat>): (names: seq<Module>)
    requires InRange(migrations, path)
    ensures |names| == |path| && forall i :: 0 <= i < |path| ==> names[i] == migrations[path[i]].mod
  {
    seq(|path|, i requires 0 <= i < |path| => migrations[path[i]].mod)
  }

  /** Every node of a cycle is the first migration of its module, so the names are distinct too. */
  lemma {:induction false} CycleNames(migrations: seq<Migration>, g: Graph, path: seq<nat>)
    requires DependencyGraph(migrations, g) && SimpleCycle(g, path)
    ensures InRange(migrations, path) && HasCycle(g)
    ensures NamesCycle(migrations, Names(migrations, path))
    ensures Distinct(Names(migrations, path)[..|path| - 1])
  {
    forall i | 0 <= i < |path|
      ensures path[i] < |migrations| && FirstIndex(migrations, migrations[path[i]].mod) == path[i]
    {
      var k := if i == 0 then |path| - 1 else i;
      assert Edge(g, path[k - 1], path[k]);
      assert DependsOn(migrations, path[k - 1], path[k]);
    }
    SameWalks(migrations, g, path);
    forall i, j | 0 <= i < j < |path| - 1 ensures migrations[path[i]].mod != migrations[path[j]].mod {
      assert path[..|path| - 1][i] != path[..|path| - 1][j];
    }
  }

  // ---- cycles of modules ----

  /** Migration `a` is the first one of the module. */
  predicate FirstMigration(migrations: seq<Migration>, m: Module, a: nat) {
    a < |migrations| && migrations[a].mod == m && forall b :: 0 <= b < a ==> migrations[b].mod != m
  }

  /** The first migration of `m` lists `d` as a dependency. */
  ghost predicate Needs(migrations: seq<Migration>, m: Module, d: Module) {
    exists a: nat :: FirstMigration(migrations, m, a) && d in migrations[a].dependencies
  }

  /** Each module needs the next, and the last is the first again. */
  ghost predicate ModuleLoop(migrations: seq<Migration>, names: seq<Module>) {
    && |names| >= 2 && names[0] == names[|names| - 1]
    && forall i :: 0 <= i < |names| - 1 ==> Needs(migrations, names[i], names[i + 1])
  }

  lemma {:induction false} FirstMigrationIs(migrations: seq<Migration>, m: Module)
    ensures forall a: nat :: FirstMigration(migrations, m, a) <==> a < |migrations| && FirstIndex(migrations, m) == a
  {
  }

  /** The names along a closed walk of migrations are a loop of modules. */
  lemma {:induction false} LoopOfWalk(migrations: seq<Migration>, path: seq<nat>)
    requires |path| >= 2 && DependencyWalk(migrations, path) && path[0] == path[|path| - 1] && InRange(migrations, path)
    ensures ModuleLoop(migrations, Names(migrations, path))
  {
    var names := Names(migrations, path);
    forall i | 0 <= i < |path| ensures FirstMigration(migrations, names[i], path[i]) {
      var k := if i == 0 then |path| - 1 else i;
      assert DependsOn(migrations, path[k - 1], path[k]);
      FirstMigrationIs(migrations, names[i]);
    }
    forall i | 0 <= i < |names| - 1 ensures Needs(migrations, names[i], names[i + 1]) {
      assert DependsOn(migrations, path[i], path[i + 1]);
    }
  }

  lemma {:induction false} WalkOfLoop(migrations: seq<Migration>, names: seq<Module>)
    requires ModuleLoop(migrations, names)
    ensures Cyclic(migrations)
  {
    var path := seq(|names|, i requires 0 <= i < |names| => FirstIndex(migrations, names[i]));
    forall i | 0 <= i < |names| - 1 ensures DependsOn(migrations, path[i], path[i + 1]) {
      var next := if i + 1 == |names| - 1 then 0 else i + 1;
      assert Needs(migrations, names[next], names[next + 1]) && Needs(migrations, names[i], names[i + 1]);
      FirstMigrationIs(migrations, names[i]);
      FirstMigrationIs(migrations, names[next]);
    }
    assert DependencyWalk(migrations, path);
  }

  /** There is a cycle of migrations exactly when there is a loop of modules. */
  lemma {:induction false} CyclicMeans(migrations: seq<Migration>)
    ensures Cyclic(migrations) <==> exists names :: ModuleLoop(migrations, names)
  {
    if path :| |path| >= 2 && DependencyWalk(migrations, path) && path[0] == path[|path| - 1] {
      forall i | 0 <= i < |path| ensures path[i] < |migrations| {
        var k := if i == |path| - 1 then 0 else i;
        assert DependsOn(migrations, path[k], path[k + 1]);
      }
      LoopOfWalk(migrations, path);
    }
    if names :| ModuleLoop(migrations, names) {
      WalkOfLoop(migrations, names);
    }
  }

  /** And the names returned are one that repeats no module except at its ends. */
  lemma {:induction false} NamesMean(migrations: seq<Migration>, names: seq<Module>)
    requires NamesCycle(migrations, names)
    ensures ModuleLoop(migrations, names)
  {
    var path :|
      && |path| >= 2 && DependencyWalk(migrations, path) && path[0] == path[|path| - 1]
      && Distinct(path[..|path| - 1]) && InRange(migrations, path) && names == Names(migrations, path);
    LoopOfWalk(migrations, path);
  }
}
