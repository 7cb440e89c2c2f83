/** Selection, ranking and depth of roadmap items, told from titles and fields. */
module DependencyMeaning {
  import opened Common
  import opened Dependencies
  import opened DependencyDepth
  import Orders

  // ---- seeds and ranking ----

  /** Without dependencies, the selection holds exactly the relevant items of the wanted tracks and layers
      that have the minimum priority. */
  lemma {:induction false} SeedsMean(items: seq<Item>, config: Config, selected: seq<Item>, it: Item)
    requires Selection(items, config, selected) && !config.includeDependencies
    ensures it in selected <==>
            && it in items && it.relevant && it.track in config.tracks && it.layer in config.layers
            && it.priority >= config.minPriority
  {
    SeedsAre(items, config);
  }

  /** Relevant, of a wanted track and layer, with the minimum priority. */
  predicate Wanted(config: Config, it: Item) {
    it.relevant && it.track in config.tracks && it.layer in config.layers && it.priority >= config.minPriority
  }

  /** `chosen` has the wanted items and, of each dependency of its items, the item with that title. */
  ghost predicate Complete(items: seq<Item>, config: Config, chosen: set<Item>) {
    && (forall it :: it in items && Wanted(config, it) ==> it in chosen)
    && forall it, dep :: it in chosen && it in items && dep in items && dep.title in it.dependencies ==> dep in chosen
  }

  /** With unique titles the selection is the least complete set of items. */
  lemma {:induction false} ClosureMeans(items: seq<Item>, config: Config, selected: seq<Item>, other: set<Item>)
    requires UniqueTitles(items) && config.includeDependencies && Selection(items, config, selected)
    ensures Complete(items, config, set it | it in selected)
    ensures forall it :: it in selected ==> it in items && (Complete(items, config, other) ==> it in other)
  {
    UniqueSelection(items, config, selected);
    forall it | it in items && Wanted(config, it) ensures it in selected {
      assert IsSeed(config, it);
      UniqueChosen(items, config, it);
      assert it.title in Titles(selected);
    }
    forall it, dep | it in selected && dep in items && dep.title in it.dependencies ensures dep in selected {
      TitleOf(items, dep);
    }
    var titles := set it | it in other && it in items :: it.title;
    if Complete(items, config, other) {
      ClosedTitles(items, config, other, titles);
      forall it | it in selected ensures it in other {
        TitleOf(selected, it);
        var o :| o in other && o in items && o.title == it.title;
        SameTitle(items, o, it);
      }
    }
  }

  lemma {:induction false} ClosedTitles(items: seq<Item>, config: Config, other: set<Item>, titles: set<string>)
    requires UniqueTitles(items) && titles == set it | it in other && it in items :: it.title
    requires Complete(items, config, other)
    ensures HoldsSeeds(items, config, titles) && Closed(items, config, titles)
  {
    forall it | it in items && IsSeed(config, it) ensures it.title in titles {
      assert Wanted(config, it);
    }
    forall it, d | Chosen(items, config, it) && it.title in titles && d in it.dependencies && d in Titles(items)
      ensures d in titles
    {
      var o :| o in other && o in items && o.title == it.title;
      SameTitle(items, o, it);
      var dep :| dep in items && dep.title == d;
    }
  }

  /** The tracks and the layers in rank order. */
  const Tracks: seq<Track> := [Merge, Surge, Verge, Purge, Scourge, Splurge]
  const Layers: seq<Layer> := [Execution, Consensus, DataAvailability, Networking, Cryptography, StateManagement]

  lemma {:induction false} RanksMean(i: nat)
    requires i < 6
    ensures TrackRank(Tracks[i]) == i && LayerRank(Layers[i]) == i
  {
  }

  /** One title begins the other, or has the lesser character where they first differ. */
  ghost predicate TextNotAfter(s: string, t: string) {
    s <= t || exists k: nat :: DifferAt(s, t, k)
  }

  lemma {:induction false} TextMeans(s: string, t: string)
    ensures TextLe(s, t) <==> TextNotAfter(s, t)
  {
    if s != [] && t != [] {
      TextMeans(s[1..], t[1..]);
      TextStep(s, t);
    }
  }

  /** `s` has the lesser character at `k`, where the two first differ. */
  predicate DifferAt(s: string, t: string, k: nat) {
    k < |s| && k < |t| && s[..k] == t[..k] && s[k] < t[k]
  }

  lemma {:induction false} DifferLater(s: string, t: string, k: nat)
    requires s != [] && t != [] && s[0] == t[0]
    ensures DifferAt(s[1..], t[1..], k) <==> DifferAt(s, t, k + 1)
  {
    if k < |s| - 1 && k < |t| - 1 {
      assert s[..k + 1] == [s[0]] + s[1..][..k] && t[..k + 1] == [t[0]] + t[1..][..k];
      assert s[..k + 1][1..] == s[1..][..k] && t[..k + 1][1..] == t[1..][..k];
    }
  }

  lemma {:induction false} PrefixLater(s: string, t: string)
    requires s != [] && t != [] && s[0] == t[0]
    ensures s <= t <==> s[1..] <= t[1..]
  {
    if s[1..] <= t[1..] {
      assert s == [s[0]] + s[1..] && t == [t[0]] + t[1..];
    }
    if s <= t {
      assert t[1..][..|s| - 1] == s[1..];
    }
  }

  lemma {:induction false} TextStep(s: string, t: string)
    requires s != [] && t != []
    ensures TextNotAfter(s, t) <==> s[0] < t[0] || (s[0] == t[0] && TextNotAfter(s[1..], t[1..]))
  {
    if s[0] == t[0] {
      PrefixLater(s, t);
      if k: nat :| DifferAt(s, t, k) {
        DifferLater(s, t, k - 1);
      }
      if k: nat :| DifferAt(s[1..], t[1..], k) {
        DifferLater(s, t, k);
      }
    } else {
      assert s[0] < t[0] ==> DifferAt(s, t, 0);
      if k: nat :| DifferAt(s, t, k) {
        assert k > 0 ==> s[..k][0] == t[..k][0];
      }
    }
  }

  /** What ranks before: the higher priority, then the lesser complexity, then the earlier track, the earlier
      layer and the earlier title. */
  lemma {:induction false} RankingMeans(a: Item, b: Item, i: nat, j: nat, k: nat, l: nat)
    requires i < 6 && j < 6 && k < 6 && l < 6
    requires a.track == Tracks[i] && b.track == Tracks[j] && a.layer == Layers[k] && b.layer == Layers[l]
    ensures RanksBefore(a, b) <==>
            || b.priority < a.priority
            || (b.priority == a.priority && a.complexity < b.complexity)
            || (b.priority == a.priority && a.complexity == b.complexity && i < j)
            || (b.priority == a.priority && a.complexity == b.complexity && i == j && k < l)
            || (b.priority == a.priority && a.complexity == b.complexity && i == j && k == l
                && TextNotAfter(a.title, b.title))
  {
    RanksMean(i);
    RanksMean(j);
    RanksMean(k);
    RanksMean(l);
    TextMeans(a.title, b.title);
  }

  // ---- chains of titles ----

  /** Item `j` is the last one that carries the title. */
  predicate LastCarrier(items: seq<Item>, t: string, j: nat) {
    j < |items| && items[j].title == t && forall l :: j < l < |items| ==> items[l].title != t
  }

  /** The last item that carries `t` depends on `d`. */
  ghost predicate Leads(items: seq<Item>, t: string, d: string) {
    exists j: nat :: LastCarrier(items, t, j) && d in items[j].dependencies
  }

  /** Item `a` depends on the first name, and the item of each name on the next; only the last name may be
      one that no item carries. */
  ghost predicate NameChain(items: seq<Item>, a: nat, names: seq<string>) {
    && a < |items|
    && (names != [] ==> names[0] in items[a].dependencies)
    && forall i :: 0 <= i < |names| - 1 ==> Leads(items, names[i], names[i + 1])
  }

  lemma {:induction false} CarrierIs(items: seq<Item>, t: string)
    ensures forall j: nat :: LastCarrier(items, t, j) <==> t in TitleIndex(items) && TitleIndex(items)[t] == j
  {
    var index := TitleIndex(items);
    assert LastByTitle(items, index);
    forall j: nat | LastCarrier(items, t, j) ensures t in index && index[t] == j {
      assert index[items[j].title] >= j;
    }
    if t in index {
      forall l | index[t] < l < |items| ensures items[l].title != t {
        assert index[items[l].title] >= l;
      }
    }
  }

  lemma {:induction false} NamesOfChain(items: seq<Item>, a: nat, c: Chain) returns (names: seq<string>)
    requires ChainFrom(items, TitleIndex(items), a, c)
    ensures NameChain(items, a, names) && |names| == c.Length()
    decreases |c.path|
  {
    var index := TitleIndex(items);
    if |c.path| == 1 {
      names := [];
      if c.dangling {
        var k :| 0 <= k < |items[a].dependencies| && Resolve(index, items[a].dependencies[k]) == None;
        names := [items[a].dependencies[k]];
      }
    } else {
      var b := c.path[1];
      assert Edge(items, index, c.path[0], c.path[1]);
      var k :| 0 <= k < |items[a].dependencies| && Resolve(index, items[a].dependencies[k]) == Some(b);
      var d := items[a].dependencies[k];
      var tail := Chain(c.path[1..], c.dangling);
      TailChain(items, index, a, c);
      var rest := NamesOfChain(items, b, tail);
      CarrierIs(items, d);
      names := [d] + rest;
      FirstName(items, a, d, b, rest);
    }
  }

  lemma {:induction false} FirstName(items: seq<Item>, a: nat, d: string, b: nat, rest: seq<string>)
    requires a < |items| && d in items[a].dependencies && LastCarrier(items, d, b) && NameChain(items, b, rest)
    ensures NameChain(items, a, [d] + rest)
  {
    var names := [d] + rest;
    forall i | 0 <= i < |names| - 1 ensures Leads(items, names[i], names[i + 1]) {
      if i > 0 {
        assert Leads(items, rest[i - 1], rest[i]);
      }
    }
  }

  lemma {:induction false} TailChain(items: seq<Item>, index: map<string, nat>, a: nat, c: Chain)
    requires ChainFrom(items, index, a, c) && |c.path| > 1 && Indexed(items, index)
    ensures ChainFrom(items, index, c.path[1], Chain(c.path[1..], c.dangling))
  {
    var tail := Chain(c.path[1..], c.dangling);
    assert Edge(items, index, c.path[0], c.path[1]);
    forall i | 0 <= i < |tail.path| - 1 ensures Edge(items, index, tail.path[i], tail.path[i + 1]) {
      assert Edge(items, index, c.path[i + 1], c.path[i + 2]);
    }
    assert tail.path[|tail.path| - 1] == c.path[|c.path| - 1];
  }

  lemma {:induction false} LeadsResolves(items: seq<Item>, t: string, d: string)
    requires Leads(items, t, d)
    ensures t in TitleIndex(items)
  {
    CarrierIs(items, t);
  }

  lemma {:induction false} ChainOfNames(items: seq<Item>, a: nat, names: seq<string>)
    requires NameChain(items, a, names)
    ensures Reaches(items, TitleIndex(items), a, |names|)
    decreases |names|
  {
    var index := TitleIndex(items);
    if names == [] {
      EmptyChain(items, index, a);
    } else {
      var d := names[0];
      var k :| 0 <= k < |items[a].dependencies| && items[a].dependencies[k] == d;
      CarrierIs(items, d);
      if |names| > 1 {
        LeadsResolves(items, names[0], names[1]);
      }
      if d in index {
        var b := index[d];
        assert Resolve(index, d) == Some(b) && LastCarrier(items, d, b);
        assert Edge(items, index, a, b);
        RestOfNames(items, names, b);
        ChainOfNames(items, b, names[1..]);
        LongerChain(items, index, a, b, |names| - 1);
      } else {
        assert Resolve(index, d) == None;
        DanglingChain(items, index, a);
      }
    }
  }

  lemma {:induction false} RestOfNames(items: seq<Item>, names: seq<string>, b: nat)
    requires names != [] && LastCarrier(items, names[0], b)
    requires forall i :: 0 <= i < |names| - 1 ==> Leads(items, names[i], names[i + 1])
    ensures NameChain(items, b, names[1..])
  {
    var rest := names[1..];
    if rest != [] {
      assert Leads(items, names[0], names[1]);
    }
    forall i | 0 <= i < |rest| - 1 ensures Leads(items, rest[i], rest[i + 1]) {
      assert Leads(items, names[i + 1], names[i + 2]);
    }
  }

  /** An item has a chain of a given length exactly when it has a chain of so many names. */
  lemma {:induction false} ReachesMeans(items: seq<Item>, a: nat, n: nat)
    ensures Reaches(items, TitleIndex(items), a, n) <==> exists names :: NameChain(items, a, names) && |names| == n
  {
    if c :| ChainFrom(items, TitleIndex(items), a, c) && c.Length() == n {
      var names := NamesOfChain(items, a, c);
    }
    if names :| NameChain(items, a, names) && |names| == n {
      ChainOfNames(items, a, names);
    }
  }

  /** A depth is the greatest number of names in a chain: no chain has more, and some chain has as many. */
  lemma {:induction false} DepthMeans(items: seq<Item>, depth: nat)
    ensures IsMaxDepth(items, TitleIndex(items), depth) <==>
            && (forall a, names :: NameChain(items, a, names) ==> |names| <= depth)
            && (depth == 0 || exists a, names :: NameChain(items, a, names) && |names| == depth)
  {
    AttainedMeans(items, depth);
    BoundMeans(items, depth);
  }

  lemma {:induction false} AttainedMeans(items: seq<Item>, depth: nat)
    ensures Attained(items, TitleIndex(items), depth) <==>
            depth == 0 || exists a, names :: NameChain(items, a, names) && |names| == depth
  {
    var index := TitleIndex(items);
    if a: nat :| a < |items| && Reaches(items, index, a, depth) {
      ReachesMeans(items, a, depth);
    }
    if a, names :| NameChain(items, a, names) && |names| == depth {
      ChainOfNames(items, a, names);
      assert Reaches(items, index, a, depth);
    }
  }

  lemma {:induction false} BoundMeans(items: seq<Item>, depth: nat)
    ensures Bounds(items, TitleIndex(items), |items|, depth) <==>
            forall a, names :: NameChain(items, a, names) ==> |names| <= depth
  {
    var index := TitleIndex(items);
    if Bounds(items, index, |items|, depth) {
      forall a, names | NameChain(items, a, names) ensures |names| <= depth {
        ChainOfNames(items, a, names);
        assert AtMost(items, index, a, depth);
      }
    }
    if forall a, names :: NameChain(items, a, names) ==> |names| <= depth {
      forall a: nat | a < |items| ensures AtMost(items, index, a, depth) {
        forall c | ChainFrom(items, index, a, c) ensures c.Length() <= depth {
          var names := NamesOfChain(items, a, c);
        }
      }
    }
  }

  /** Each title leads to the next, and the last is the first again. */
  ghost predicate TitleLoop(items: seq<Item>, names: seq<string>) {
    && |names| >= 2 && names[0] == names[|names| - 1]
    && forall i :: 0 <= i < |names| - 1 ==> Leads(items, names[i], names[i + 1])
  }

  /** The items are acyclic exactly when no titles form a loop. */
  lemma {:induction false} AcyclicMeans(items: seq<Item>)
    ensures Acyclic(items, TitleIndex(items)) <==> forall names :: !TitleLoop(items, names)
  {
    var index := TitleIndex(items);
    if path :| |path| >= 2 && Walk(items, index, path) && path[0] == path[|path| - 1] {
      LoopOfWalk(items, path);
    }
    if names :| TitleLoop(items, names) {
      WalkOfLoop(items, names);
    }
  }

  lemma {:induction false} LoopOfWalk(items: seq<Item>, path: seq<nat>)
    requires |path| >= 2 && Walk(items, TitleIndex(items), path) && path[0] == path[|path| - 1]
    ensures exists names :: TitleLoop(items, names)
  {
    var index := TitleIndex(items);
    forall i | 0 <= i < |path| ensures path[i] < |items| && LastCarrier(items, items[path[i]].title, path[i]) {
      var k := if i == 0 then |path| - 1 else i;
      CarrierReached(items, path[k - 1], path[k]);
    }
    var names := seq(|path|, i requires 0 <= i < |path| => items[path[i]].title);
    forall i | 0 <= i < |names| - 1 ensures Leads(items, names[i], names[i + 1]) {
      CarrierReached(items, path[i], path[i + 1]);
    }
    assert TitleLoop(items, names);
  }

  lemma {:induction false} CarrierReached(items: seq<Item>, a: nat, b: nat)
    requires Edge(items, TitleIndex(items), a, b)
    ensures a < |items| && b < |items| && LastCarrier(items, items[b].title, b)
    ensures items[b].title in items[a].dependencies
  {
    var index := TitleIndex(items);
    var k :| 0 <= k < |items[a].dependencies| && Resolve(index, items[a].dependencies[k]) == Some(b);
    CarrierIs(items, items[a].dependencies[k]);
  }

  lemma {:induction false} LeadsIsEdge(items: seq<Item>, t: string, d: string)
    requires Leads(items, t, d) && d in TitleIndex(items)
    ensures t in TitleIndex(items)
    ensures Edge(items, TitleIndex(items), TitleIndex(items)[t], TitleIndex(items)[d])
  {
    var index := TitleIndex(items);
    CarrierIs(items, t);
    var a := index[t];
    var k :| 0 <= k < |items[a].dependencies| && items[a].dependencies[k] == d;
    assert Resolve(index, items[a].dependencies[k]) == Some(index[d]);
  }

  lemma {:induction false} LoopKnown(items: seq<Item>, names: seq<string>, i: nat)
    requires TitleLoop(items, names) && i < |names|
    ensures names[i] in TitleIndex(items)
  {
    var k := if i == |names| - 1 then 0 else i;
    LeadsResolves(items, names[k], names[k + 1]);
  }

  lemma {:induction false} WalkOfTitles(items: seq<Item>, names: seq<string>, path: seq<nat>)
    requires |path| == |names|
    requires forall i :: 0 <= i < |names| ==> names[i] in TitleIndex(items) && TitleIndex(items)[names[i]] == path[i]
    requires forall i :: 0 <= i < |names| - 1 ==> Leads(items, names[i], names[i + 1])
    ensures Walk(items, TitleIndex(items), path)
  {
    forall i | 0 <= i < |path| - 1 ensures Edge(items, TitleIndex(items), path[i], path[i + 1]) {
      LeadsIsEdge(items, names[i], names[i + 1]);
    }
  }

  lemma {:induction false} WalkOfLoop(items: seq<Item>, names: seq<string>)
    requires TitleLoop(items, names)
    ensures !Acyclic(items, TitleIndex(items))
  {
    var index := TitleIndex(items);
    forall i | 0 <= i < |names| ensures names[i] in index {
      LoopKnown(items, names, i);
    }
    var path := seq(|names|, i requires 0 <= i < |names| => index[names[i]]);
    WalkOfTitles(items, names, path);
    assert path[0] == path[|path| - 1];
  }
}
