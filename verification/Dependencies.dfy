/** Roadmap items: closing a selection under dependencies, and the depth of the dependency graph. */
module Dependencies {
  import opened Common
  import Orders

  datatype Track = Surge | Verge | Purge | Scourge | Splurge | Merge
  datatype Layer = Execution | Consensus | DataAvailability | Networking | Cryptography | StateManagement

  datatype Item = Item(title: string, track: Track, layer: Layer, priority: real, complexity: real,
                       dependencies: seq<string>, relevant: bool)

  datatype Config = Config(tracks: set<Track>, layers: set<Layer>, minPriority: real, maxItems: nat,
                           includeDependencies: bool)

  // ---- titles ----

  predicate UniqueTitles(items: seq<Item>) {
    forall i, j :: 0 <= i < j < |items| ==> items[i].title != items[j].title
  }

  ghost function Titles(items: seq<Item>): set<string> {
    set it | it in items :: it.title
  }

  /** Each title leads to the last item that carries it. */
  ghost predicate LastByTitle(items: seq<Item>, index: map<string, nat>) {
    && (forall i :: 0 <= i < |items| ==> items[i].title in index && index[items[i].title] >= i)
    && (forall t :: t in index ==> index[t] < |items| && items[index[t]].title == t)
  }

  /** The index a hash map collected from the items holds: later items replace earlier ones. */
  function TitleIndex(items: seq<Item>): (index: map<string, nat>)
    ensures LastByTitle(items, index)
  {
    if items == [] then map[]
    else
      var n := |items| - 1;
      var before := TitleIndex(items[..n]);
      assert forall i :: 0 <= i < n ==> items[..n][i] == items[i];
      before[items[n].title := n]
  }

  method IndexByTitle(items: seq<Item>) returns (index: map<string, nat>)
    ensures index == TitleIndex(items)
  {
    index := map[];
    for i := 0 to |items|
      invariant index == TitleIndex(items[..i])
    {
      assert items[..i + 1][..i] == items[..i];
      index := index[items[i].title := i];
    }
    assert items[..|items|] == items;
  }

  // ---- dependency closure ----

  predicate IsSeed(config: Config, it: Item) {
    it.relevant && it.track in config.tracks && it.layer in config.layers && it.priority >= config.minPriority
  }

  /** The seeds, in order. */
  function SeedsOf(items: seq<Item>, config: Config): seq<Item> {
    if items == [] then []
    else
      var last := items[|items| - 1];
      SeedsOf(items[..|items| - 1], config) + if IsSeed(config, last) then [last] else []
  }

  ghost predicate SeedTitle(items: seq<Item>, config: Config, t: string) {
    exists it :: it in items && IsSeed(config, it) && it.title == t
  }

  /** The items that a title stands for: its seeds or, when it has none, the last item that carries it. */
  ghost predicate Chosen(items: seq<Item>, config: Config, it: Item) {
    && it in items
    && (IsSeed(config, it) || (!SeedTitle(items, config, it.title) && it == items[TitleIndex(items)[it.title]]))
  }

  /** Whatever a chosen item of `titles` depends on is in `titles`, if there is such an item at all. */
  ghost predicate Closed(items: seq<Item>, config: Config, titles: set<string>) {
    forall it, d :: Chosen(items, config, it) && it.title in titles && d in it.dependencies && d in Titles(items) ==>
      d in titles
  }

  ghost predicate HoldsSeeds(items: seq<Item>, config: Config, titles: set<string>) {
    forall it :: it in items && IsSeed(config, it) ==> it.title in titles
  }

  /** `titles` is the least dependency-closed set of titles with the seeds in it. */
  ghost predicate LeastClosure(items: seq<Item>, config: Config, titles: set<string>) {
    && HoldsSeeds(items, config, titles) && Closed(items, config, titles) && titles <= Titles(items)
    && forall other :: HoldsSeeds(items, config, other) && Closed(items, config, other) ==> titles <= other
  }

  /** With unique titles each item stands for itself. */
  lemma {:induction false} UniqueChosen(items: seq<Item>, config: Config, it: Item)
    requires UniqueTitles(items) && it in items
    ensures Chosen(items, config, it)
  {
    if SeedTitle(items, config, it.title) {
      var seed :| seed in items && IsSeed(config, seed) && seed.title == it.title;
      SameTitle(items, seed, it);
    } else {
      TitleOf(items, it);
      TitlesAreKeys(items);
      SameTitle(items, items[TitleIndex(items)[it.title]], it);
    }
  }

  lemma {:induction false} TitleOf(items: seq<Item>, it: Item)
    requires it in items
    ensures it.title in Titles(items)
  {
  }

  lemma {:induction false} SameTitle(items: seq<Item>, a: Item, b: Item)
    requires UniqueTitles(items) && a in items && b in items && a.title == b.title
    ensures a == b
  {
    var i :| 0 <= i < |items| && items[i] == a;
    var j :| 0 <= j < |items| && items[j] == b;
  }

  lemma {:induction false} TitlesAreKeys(items: seq<Item>)
    ensures Titles(items) == TitleIndex(items).Keys
  {
    var index := TitleIndex(items);
    forall t | t in index ensures t in Titles(items) {
      TitleOf(items, items[index[t]]);
    }
  }

  lemma {:induction false} SeedsAre(items: seq<Item>, config: Config)
    ensures forall it :: it in SeedsOf(items, config) <==> it in items && IsSeed(config, it)
  {
    if items != [] {
      SeedsAre(items[..|items| - 1], config);
    }
  }

  method Seeds(items: seq<Item>, config: Config) returns (selected: seq<Item>)
    ensures selected == SeedsOf(items, config)
  {
    selected := [];
    for i := 0 to |items|
      invariant selected == SeedsOf(items[..i], config)
    {
      assert items[..i + 1][..i] == items[..i];
      if IsSeed(config, items[i]) {
        selected := selected + [items[i]];
      }
    }
    assert items[..|items|] == items;
  }

  method AllDependencies(selected: seq<Item>) returns (queue: seq<string>)
    ensures forall d :: d in queue <==> exists it :: it in selected && d in it.dependencies
  {
    queue := [];
    for i := 0 to |selected|
      invariant forall d :: d in queue <==> exists it :: it in selected[..i] && d in it.dependencies
    {
      assert selected[..i + 1] == selected[..i] + [selected[i]];
      queue := queue + selected[i].dependencies;
    }
    assert selected[..|selected|] == selected;
  }

  /** Every set that holds the seeds and is closed holds `known` and whatever is queued. */
  ghost predicate Forced(items: seq<Item>, config: Config, known: set<string>, queue: seq<string>) {
    forall other :: HoldsSeeds(items, config, other) && Closed(items, config, other) ==>
      known <= other && forall d :: d in queue && d in Titles(items) ==> d in other
  }

  /** Dependencies of selected items are known or queued. */
  ghost predicate Queued(items: seq<Item>, selected: seq<Item>, known: set<string>, queue: seq<string>) {
    forall it, d :: it in selected && d in it.dependencies && d in Titles(items) ==> d in known || d in queue
  }

  /** The seeds come first, then chosen items, one for each further title. */
  ghost predicate Picked(items: seq<Item>, config: Config, selected: seq<Item>, pulled: seq<Item>, known: set<string>) {
    && selected == SeedsOf(items, config) + pulled && known == Titles(selected)
    && UniqueTitles(pulled)
    && (forall it :: it in pulled ==> Chosen(items, config, it) && !SeedTitle(items, config, it.title))
  }

  /** What the worklist keeps. */
  ghost predicate Progress(items: seq<Item>, config: Config, selected: seq<Item>, pulled: seq<Item>,
                           known: set<string>, queue: seq<string>)
  {
    && Picked(items, config, selected, pulled, known)
    && Queued(items, selected, known, queue)
    && Forced(items, config, known, queue)
  }

  lemma {:induction false} ProgressStart(items: seq<Item>, config: Config, selected: seq<Item>, queue: seq<string>)
    requires selected == SeedsOf(items, config)
    requires forall d :: d in queue <==> exists it :: it in selected && d in it.dependencies
    ensures Progress(items, config, selected, [], Titles(selected), queue)
  {
    SeedsAre(items, config);
    forall other | HoldsSeeds(items, config, other) && Closed(items, config, other)
      ensures Titles(selected) <= other && forall d :: d in queue && d in Titles(items) ==> d in other
    {
      forall d | d in queue && d in Titles(items) ensures d in other {
        var it :| it in selected && d in it.dependencies;
        assert Chosen(items, config, it) && it.title in other;
      }
    }
  }

  lemma {:induction false} ProgressSkip(items: seq<Item>, config: Config, selected: seq<Item>, pulled: seq<Item>,
                                        known: set<string>, queue: seq<string>, d: string)
    requires Progress(items, config, selected, pulled, known, queue + [d])
    requires d in known || d !in Titles(items)
    ensures Progress(items, config, selected, pulled, known, queue)
  {
    forall it, e | it in selected && e in it.dependencies && e in Titles(items) ensures e in known || e in queue {
      assert e in known || e in queue + [d];
    }
    forall other | HoldsSeeds(items, config, other) && Closed(items, config, other)
      ensures known <= other && forall e :: e in queue && e in Titles(items) ==> e in other
    {
      assert forall e :: e in queue ==> e in queue + [d];
    }
  }

  lemma {:induction false} SeedTitleKnown(items: seq<Item>, config: Config, selected: seq<Item>, pulled: seq<Item>,
                                          known: set<string>, t: string)
    requires Picked(items, config, selected, pulled, known)
    ensures SeedTitle(items, config, t) ==> t in known
  {
    if SeedTitle(items, config, t) {
      var seed :| seed in items && IsSeed(config, seed) && seed.title == t;
      SeedsAre(items, config);
      assert seed in SeedsOf(items, config);
      TitleOf(selected, seed);
    }
  }

  lemma {:induction false} PickedAdd(items: seq<Item>, config: Config, selected: seq<Item>, pulled: seq<Item>,
                                     known: set<string>, dep: Item)
    requires Picked(items, config, selected, pulled, known) && dep.title !in known
    requires dep in items && dep == items[TitleIndex(items)[dep.title]]
    ensures Picked(items, config, selected + [dep], pulled + [dep], known + {dep.title})
    ensures Chosen(items, config, dep)
  {
    SeedTitleKnown(items, config, selected, pulled, known, dep.title);
    forall j | 0 <= j < |pulled| ensures pulled[j].title != dep.title {
      assert pulled[j] in selected;
      TitleOf(selected, pulled[j]);
    }
    assert Titles(selected + [dep]) == known + {dep.title} by {
      assert forall it :: it in selected + [dep] <==> it in selected || it == dep;
    }
  }

  lemma {:induction false} ForcedAdd(items: seq<Item>, config: Config, known: set<string>, queue: seq<string>,
                                     dep: Item)
    requires Forced(items, config, known, queue + [dep.title]) && Chosen(items, config, dep)
    ensures Forced(items, config, known + {dep.title}, queue + dep.dependencies)
  {
    TitleOf(items, dep);
    forall other | HoldsSeeds(items, config, other) && Closed(items, config, other)
      ensures known + {dep.title} <= other
      ensures forall e :: e in queue + dep.dependencies && e in Titles(items) ==> e in other
    {
      assert dep.title in queue + [dep.title];
      assert forall e :: e in queue ==> e in queue + [dep.title];
    }
  }

  lemma {:induction false} ProgressAdd(items: seq<Item>, config: Config, selected: seq<Item>, pulled: seq<Item>,
                                       known: set<string>, queue: seq<string>, dep: Item)
    requires Progress(items, config, selected, pulled, known, queue + [dep.title])
    requires dep.title !in known && dep in items && dep == items[TitleIndex(items)[dep.title]]
    ensures Progress(items, config, selected + [dep], pulled + [dep], known + {dep.title}, queue + dep.dependencies)
  {
    PickedAdd(items, config, selected, pulled, known, dep);
    ForcedAdd(items, config, known, queue, dep);
    var known', queue' := known + {dep.title}, queue + dep.dependencies;
    forall it, e | it in selected + [dep] && e in it.dependencies && e in Titles(items)
      ensures e in known' || e in queue'
    {
      if it in selected {
        assert e in known || e in queue + [dep.title];
      }
    }
  }

  /** A chosen item whose title is known has been selected. */
  lemma {:induction false} KnownIsSelected(items: seq<Item>, config: Config, selected: seq<Item>, pulled: seq<Item>,
                                           known: set<string>, it: Item)
    requires Picked(items, config, selected, pulled, known) && Chosen(items, config, it) && it.title in known
    ensures it in selected
  {
    SeedsAre(items, config);
    if !IsSeed(config, it) {
      var s :| s in selected && s.title == it.title;
      assert s in pulled;
    }
  }

  lemma {:induction false} SelectedIsKnown(items: seq<Item>, config: Config, selected: seq<Item>, pulled: seq<Item>,
                                           known: set<string>, it: Item)
    requires Picked(items, config, selected, pulled, known) && it in selected
    ensures Chosen(items, config, it) && it.title in known
  {
    SeedsAre(items, config);
    TitleOf(selected, it);
  }

  /** The selection before ranking: the seeds in order and, if asked for, one further item for each other
      title of the least dependency-closed superset of their titles. */
  ghost predicate Selection(items: seq<Item>, config: Config, selected: seq<Item>) {
    if !config.includeDependencies then selected == SeedsOf(items, config)
    else
      && LeastClosure(items, config, Titles(selected))
      && (exists pulled :: Picked(items, config, selected, pulled, Titles(selected)))
      && forall it :: it in selected <==> Chosen(items, config, it) && it.title in Titles(selected)
  }

  lemma {:induction false} SelectedAreChosen(items: seq<Item>, config: Config, selected: seq<Item>, pulled: seq<Item>,
                                             known: set<string>)
    requires Picked(items, config, selected, pulled, known)
    ensures forall it :: it in selected <==> Chosen(items, config, it) && it.title in known
  {
    forall it ensures it in selected <==> Chosen(items, config, it) && it.title in known {
      if it in selected {
        SelectedIsKnown(items, config, selected, pulled, known, it);
      } else if Chosen(items, config, it) && it.title in known {
        KnownIsSelected(items, config, selected, pulled, known, it);
      }
    }
  }

  lemma {:induction false} KnownTitles(items: seq<Item>, config: Config, selected: seq<Item>, pulled: seq<Item>,
                                       known: set<string>)
    requires Picked(items, config, selected, pulled, known)
    ensures HoldsSeeds(items, config, known) && known <= Titles(items)
  {
    forall it | it in items && IsSeed(config, it) ensures it.title in known {
      SeedTitleKnown(items, config, selected, pulled, known, it.title);
    }
    forall t | t in known ensures t in Titles(items) {
      var it :| it in selected && it.title == t;
      SelectedIsKnown(items, config, selected, pulled, known, it);
      TitleOf(items, it);
    }
  }

  /** With nothing queued the known titles are closed. */
  lemma {:induction false} KnownClosed(items: seq<Item>, config: Config, selected: seq<Item>, known: set<string>)
    requires Queued(items, selected, known, [])
    requires forall it :: Chosen(items, config, it) && it.title in known ==> it in selected
    ensures Closed(items, config, known)
  {
  }

  lemma {:induction false} ForcedIsLeast(items: seq<Item>, config: Config, known: set<string>)
    requires Forced(items, config, known, []) && HoldsSeeds(items, config, known) && Closed(items, config, known)
    requires known <= Titles(items)
    ensures LeastClosure(items, config, known)
  {
  }

  lemma {:induction false} ClosureReached(items: seq<Item>, config: Config, selected: seq<Item>, pulled: seq<Item>,
                                          known: set<string>)
    requires Progress(items, config, selected, pulled, known, [])
    ensures LeastClosure(items, config, known)
  {
    SelectedAreChosen(items, config, selected, pulled, known);
    KnownTitles(items, config, selected, pulled, known);
    KnownClosed(items, config, selected, known);
    ForcedIsLeast(items, config, known);
  }

  lemma {:induction false} ProgressDone(items: seq<Item>, config: Config, selected: seq<Item>, pulled: seq<Item>,
                                        known: set<string>)
    requires config.includeDependencies && Progress(items, config, selected, pulled, known, [])
    ensures Selection(items, config, selected)
  {
    ClosureReached(items, config, selected, pulled, known);
    SelectedAreChosen(items, config, selected, pulled, known);
  }

  /** With unique titles: exactly the items of the least closure, each once. */
  lemma {:induction false} UniqueSelection(items: seq<Item>, config: Config, selected: seq<Item>)
    requires UniqueTitles(items) && config.includeDependencies && Selection(items, config, selected)
    ensures UniqueTitles(selected)
    ensures forall it :: it in selected <==> it in items && it.title in Titles(selected)
    ensures forall it, d :: it in selected && d in it.dependencies && d in Titles(items) ==> d in Titles(selected)
  {
    forall it | it in items ensures Chosen(items, config, it) {
      UniqueChosen(items, config, it);
    }
    var pulled :| Picked(items, config, selected, pulled, Titles(selected));
    SeedsAre(items, config);
    UniqueSeeds(items, config);
    var seeds := SeedsOf(items, config);
    forall i, j | 0 <= i < j < |selected| ensures selected[i].title != selected[j].title {
      if i < |seeds| <= j {
        assert selected[j] in pulled && selected[i] in seeds;
        assert !SeedTitle(items, config, selected[j].title);
      }
    }
    forall it, d | it in selected && d in it.dependencies && d in Titles(items) ensures d in Titles(selected) {
      TitleOf(selected, it);
    }
  }

  lemma {:induction false} UniqueSeeds(items: seq<Item>, config: Config)
    requires UniqueTitles(items)
    ensures UniqueTitles(SeedsOf(items, config))
  {
    if items != [] {
      var init := items[..|items| - 1];
      UniqueSeeds(init, config);
      SeedsAre(init, config);
      var before := SeedsOf(init, config);
      forall i | 0 <= i < |before| ensures before[i].title != items[|items| - 1].title {
        assert before[i] in init;
      }
    }
  }

  method SelectItems(items: seq<Item>, config: Config) returns (selected: seq<Item>)
    ensures Selection(items, config, selected)
  {
    selected := Seeds(items, config);
    if config.includeDependencies {
      selected := PullDependencies(items, config, selected);
    }
  }

  /** One turn of the worklist: the last queued title is known, leads nowhere, or pulls in an item. */
  lemma {:induction false} ProgressStep(items: seq<Item>, config: Config, selected: seq<Item>, pulled: seq<Item>,
                                        known: set<string>, queue: seq<string>)
    requires queue != [] && Progress(items, config, selected, pulled, known, queue)
    ensures var index, d, rest := TitleIndex(items), queue[|queue| - 1], queue[..|queue| - 1];
            if d !in known && d in index then
              var dep := items[index[d]];
              Progress(items, config, selected + [dep], pulled + [dep], known + {d}, rest + dep.dependencies)
            else Progress(items, config, selected, pulled, known, rest)
  {
    var index, d, rest := TitleIndex(items), queue[|queue| - 1], queue[..|queue| - 1];
    assert queue == rest + [d];
    TitlesAreKeys(items);
    if d !in known && d in index {
      ProgressAdd(items, config, selected, pulled, known, rest, items[index[d]]);
    } else {
      ProgressSkip(items, config, selected, pulled, known, rest, d);
    }
  }

  /** The worklist. */
  method PullDependencies(items: seq<Item>, config: Config, seeds: seq<Item>) returns (selected: seq<Item>)
    requires config.includeDependencies && seeds == SeedsOf(items, config)
    ensures Selection(items, config, selected)
  {
    selected := seeds;
    var byTitle := IndexByTitle(items);
    var known := set it | it in selected :: it.title;
    var queue := AllDependencies(selected);
    ghost var pulled: seq<Item> := [];
    ProgressStart(items, config, selected, queue);
    while queue != []
      invariant Progress(items, config, selected, pulled, known, queue)
      decreases byTitle.Keys - known, |queue|
    {
      ProgressStep(items, config, selected, pulled, known, queue);
      var d := queue[|queue| - 1];
      queue := queue[..|queue| - 1];
      if d !in known && d in byTitle {
        var dep := items[byTitle[d]];
        selected, pulled := selected + [dep], pulled + [dep];
        known := known + {d};
        queue := queue + dep.dependencies;
      }
    }
    ProgressDone(items, config, selected, pulled, known);
  }

  // ---- ranking and truncation ----

  function TrackRank(track: Track): nat {
    match track
    case Merge => 0
    case Surge => 1
    case Verge => 2
    case Purge => 3
    case Scourge => 4
    case Splurge => 5
  }

  function LayerRank(layer: Layer): nat {
    match layer
    case Execution => 0
    case Consensus => 1
    case DataAvailability => 2
    case Networking => 3
    case Cryptography => 4
    case StateManagement => 5
  }

  /** Lexicographic order of titles. */
  predicate TextLe(s: string, t: string) {
    if s == [] then true
    else t != [] && (s[0] < t[0] || (s[0] == t[0] && TextLe(s[1..], t[1..])))
  }

  /** Highest priority first, then least complexity, then track, layer and title. */
  predicate RanksBefore(a: Item, b: Item) {
    a.priority > b.priority || (a.priority == b.priority && (
      a.complexity < b.complexity || (a.complexity == b.complexity && (
        TrackRank(a.track) < TrackRank(b.track) || (TrackRank(a.track) == TrackRank(b.track) && (
          LayerRank(a.layer) < LayerRank(b.layer) || (LayerRank(a.layer) == LayerRank(b.layer) &&
            TextLe(a.title, b.title))))))))
  }

  lemma {:induction false} TextTotal(s: string, t: string)
    ensures TextLe(s, t) || TextLe(t, s)
  {
    if s != [] && t != [] {
      TextTotal(s[1..], t[1..]);
    }
  }

  lemma {:induction false} TextTransitive(s: string, t: string, u: string)
    requires TextLe(s, t) && TextLe(t, u)
    ensures TextLe(s, u)
  {
    if s != [] && s[0] == t[0] == u[0] {
      TextTransitive(s[1..], t[1..], u[1..]);
    }
  }

  lemma {:induction false} RankingOrder()
    ensures Orders.TotalPreorder(RanksBefore)
  {
    forall a, b ensures RanksBefore(a, b) || RanksBefore(b, a) {
      TextTotal(a.title, b.title);
    }
    forall a, b, c | RanksBefore(a, b) && RanksBefore(b, c) ensures RanksBefore(a, c) {
      if TextLe(a.title, b.title) && TextLe(b.title, c.title) {
        TextTransitive(a.title, b.title, c.title);
      }
    }
  }

  /** The best `maxItems` of the selection, best first, equals as they came; whatever is cut off ranks no
      better. */
  method FilterRelevantItems(items: seq<Item>, config: Config)
    returns (r: seq<Item>, ghost selected: seq<Item>, ghost cut: seq<Item>)
    ensures Selection(items, config, selected)
    ensures multiset(r + cut) == multiset(selected)
    ensures |r| == if |selected| <= config.maxItems then |selected| else config.maxItems
    ensures Orders.SortedBy(RanksBefore, r)
    ensures forall it :: Orders.Alike(RanksBefore, r + cut, it) == Orders.Alike(RanksBefore, selected, it)
    ensures forall i, j :: 0 <= i < |r| && 0 <= j < |cut| ==> RanksBefore(r[i], cut[j])
  {
    var found := SelectItems(items, config);
    selected := found;
    r := Orders.Sort(RanksBefore, found);
    RankingOrder();
    Orders.SortSorts(RanksBefore, found);
    forall it ensures Orders.Alike(RanksBefore, r, it) == Orders.Alike(RanksBefore, found, it) {
      Orders.SortStable(RanksBefore, found, it);
    }
    cut := [];
    if |r| > config.maxItems {
      ghost var sorted := r;
      cut := r[config.maxItems..];
      r := r[..config.maxItems];
      assert r + cut == sorted;
      assert forall j :: 0 <= j < |cut| ==> cut[j] == sorted[config.maxItems + j];
    } else {
      assert r + cut == r;
    }
  }
}
