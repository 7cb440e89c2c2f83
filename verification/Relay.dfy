/** The bounded first-in-first-out memory that decides which hashes are gossiped on. */
module Relay {
  import opened Orders

  type Hash = nat

  /** The last `c` elements of `history`. */
  function Recent(history: seq<Hash>, c: nat): seq<Hash> {
    if |history| <= c then history else history[|history| - c..]
  }

  /** The relayed hashes after offering `h`: it is relayed unless it is among the last `c` relayed. */
  function Offer(history: seq<Hash>, c: nat, h: Hash): seq<Hash> {
    if h in Recent(history, c) then history else history + [h]
  }

  /** What a memory of size `c` relays when offered `inputs` one after the other. */
  function Relayed(inputs: seq<Hash>, c: nat): seq<Hash> {
    if inputs == [] then [] else Offer(Relayed(inputs[..|inputs| - 1], c), c, inputs[|inputs| - 1])
  }

  /** The remembered hashes are the last `c` relayed ones, in order. */
  lemma {:induction false} RecentMeans(history: seq<Hash>, c: nat)
    ensures |Recent(history, c)| == if |history| < c then |history| else c
    ensures forall i :: 0 <= i < |history| && i + c >= |history| ==>
              Recent(history, c)[if |history| < c then i else i + c - |history|] == history[i]
  {
  }

  /** A hash is relayed exactly when none of the last `c` relayed ones equals it, and then it is the newest. */
  lemma {:induction false} OfferMeans(history: seq<Hash>, c: nat, h: Hash)
    ensures var known := exists i :: 0 <= i < |history| && i + c >= |history| && history[i] == h;
            Offer(history, c, h) == if known then history else history + [h]
  {
    var recent := Recent(history, c);
    if h in recent {
      var k :| 0 <= k < |recent| && recent[k] == h;
      assert history[k + |history| - |recent|] == h;
    }
    if i :| 0 <= i < |history| && i + c >= |history| && history[i] == h {
      assert recent[i + |recent| - |history|] == h;
    }
  }

  /** Two relays of one hash have at least `c` other relays between them. */
  predicate Spaced(history: seq<Hash>, c: nat) {
    forall i, j :: 0 <= i < j < |history| && history[i] == history[j] ==> j - i > c
  }

  lemma {:induction false} OfferSpaced(history: seq<Hash>, c: nat, h: Hash)
    requires Spaced(history, c)
    ensures Spaced(Offer(history, c, h), c)
  {
    var recent := Recent(history, c);
    var offset := |history| - |recent|;
    assert forall i :: offset <= i < |history| ==> history[i] == recent[i - offset];
  }

  lemma {:induction false} RelayedSpaced(inputs: seq<Hash>, c: nat)
    ensures Spaced(Relayed(inputs, c), c)
  {
    if inputs != [] {
      RelayedSpaced(inputs[..|inputs| - 1], c);
      OfferSpaced(Relayed(inputs[..|inputs| - 1], c), c, inputs[|inputs| - 1]);
    }
  }

  /** Nothing is forgotten: whatever was offered was relayed at some point, and nothing else was. */
  lemma {:induction false} RelayedExactly(inputs: seq<Hash>, c: nat, h: Hash)
    ensures h in Relayed(inputs, c) <==> h in inputs
  {
    if inputs != [] {
      var init, last := inputs[..|inputs| - 1], inputs[|inputs| - 1];
      assert inputs == init + [last];
      RelayedExactly(init, c, h);
      var history := Relayed(init, c);
      if last in Recent(history, c) {
        var k :| 0 <= k < |Recent(history, c)| && Recent(history, c)[k] == last;
        assert history[if |history| <= c then k else |history| - c + k] == last;
      }
    }
  }

  lemma {:induction false} SpacedRecentDistinct(history: seq<Hash>, c: nat)
    requires Spaced(history, c)
    ensures Distinct(Recent(history, c))
  {
    var recent := Recent(history, c);
    var offset := |history| - |recent|;
    forall i, j | 0 <= i < j < |recent| ensures recent[i] != recent[j] {
      assert recent[i] == history[offset + i] && recent[j] == history[offset + j];
    }
  }

  lemma {:induction false} DropOldest(s: seq<Hash>)
    requires s != [] && Distinct(s)
    ensures Elements(s[1..]) == Elements(s) - {s[0]}
    ensures |Elements(s)| == |s|
  {
    DistinctSize(s);
    assert s == [s[0]] + s[1..];
    assert s[0] !in s[1..];
  }

  lemma {:induction false} Enqueue(history: seq<Hash>, c: nat, h: Hash)
    requires Spaced(history, c) && h !in Recent(history, c)
    ensures var queued := Recent(history, c) + [h];
            && Recent(queued, c) == Recent(history + [h], c)
            && Elements(queued) == Elements(Recent(history, c)) + {h}
            && Distinct(queued)
  {
    SpacedRecentDistinct(history, c);
  }

  /** One memory; the gossip engine keeps one for blocks and one for transactions. */
  class Memory {
    const capacity: nat
    var seen: set<Hash>
    var order: seq<Hash>
    ghost var history: seq<Hash>

    constructor (capacity: nat)
      ensures this.capacity == capacity && Valid() && history == []
    {
      this.capacity := capacity;
      seen, order, history := {}, [], [];
    }

    /** The queue is the tail of the history, and the set holds the same hashes. */
    ghost predicate Valid()
      reads this
    {
      order == Recent(history, capacity) && seen == Elements(order) && Spaced(history, capacity)
    }

    method ShouldRelay(h: Hash) returns (relay: bool)
      requires Valid()
      modifies this
      ensures Valid()
      ensures history == Offer(old(history), capacity, h)
      ensures relay <==> h !in Recent(old(history), capacity)
    {
      if h in seen {
        return false;
      }
      OfferSpaced(history, capacity, h);
      Enqueue(history, capacity, h);
      seen := seen + {h};
      order := order + [h];
      EvictOld();
      history := history + [h];
      return true;
    }

    method EvictOld()
      requires seen == Elements(order)
      requires Distinct(order)
      modifies this`seen, this`order
      ensures order == Recent(old(order), capacity) && seen == Elements(order)
    {
      ghost var queued, k := order, 0;
      DistinctSize(order);
      while |seen| > capacity
        invariant 0 <= k <= |queued| && order == queued[k..]
        invariant seen == Elements(order) && |seen| == |order|
        invariant k == 0 || |order| >= capacity
        decreases |order|
      {
        DropOldest(order);
        DistinctSize(order[1..]);
        var oldest := order[0];
        order := order[1..];
        seen := seen - {oldest};
        k := k + 1;
      }
    }
  }
}
