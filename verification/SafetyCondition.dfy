/** Exactly when does the engine meet "no conflicting finalized blocks"? With the optimistic path off
    and a total weight of the form `3f + 1`. */
module SafetyCondition {
  import opened Common
  import opened Validators
  import opened Engine
  import opened EngineRuns
  import opened Agreement
  import opened QuorumTightness
  import opened FastFeed
  import opened Orders
  import FastPath

  /** Every run with this total weight and optimistic threshold, and at most `Faults(total)` of the
      weight Byzantine, agrees at every height. */
  ghost predicate SafetyGuaranteed(total: nat, threshold: u64) {
    forall vs: ValidatorSet, config: FastPath.Config, nets: seq<Net>, actions: seq<NetInput> ::
      IsNetRun(vs, config, nets, actions) && config.optimisticThreshold == threshold && vs.ExactTotal() == total
      && ByzantineWeight(vs, nets[0].engines.Keys) <= Faults(total)
      ==> Agrees(nets[|nets| - 1])
  }

  lemma {:induction false} SlowPathSafety(total: nat)
    ensures SafetyGuaranteed(total, 0) <==> AgreementGuaranteed(total)
  {
  }

  // ---- a fast commit leaves the others unlocked ----

  /** Proposals come from the leader, votes from listed validators. */
  ghost predicate Listed(vs: ValidatorSet, input: Input) {
    input.Receive? ==>
      if input.msg.Proposal? then input.msg.proposer == vs.LeaderForRound(input.msg.height, input.msg.round)
      else input.msg.voter in vs.Indices()
  }

  /** A run in which every listed validator is honest and nobody else takes part. */
  ghost predicate HonestRun(vs: ValidatorSet, config: FastPath.Config, nets: seq<Net>, actions: seq<NetInput>) {
    && IsNetRun(vs, config, nets, actions)
    && nets[0].engines.Keys == vs.Indices()
    && forall i :: 0 <= i < |actions| ==> Listed(vs, actions[i].input)
  }

  ghost function Last(nets: seq<Net>): Net
    requires nets != []
  {
    nets[|nets| - 1]
  }

  lemma {:induction false} ExtendHonest(vs: ValidatorSet, config: FastPath.Config, nets: seq<Net>,
                                        actions: seq<NetInput>, a: NetInput)
    returns (nets': seq<Net>, actions': seq<NetInput>)
    requires HonestRun(vs, config, nets, actions) && Listed(vs, a.input)
    requires a.node in Last(nets).engines && !a.input.StartHeight?
    requires a.input.Receive? ==> Deliverable(Last(nets), a.input.msg)
    requires Handles(vs, config, Last(nets).engines[a.node], a.input, a.o)
    ensures HonestRun(vs, config, nets', actions')
    ensures Last(nets').engines == Last(nets).engines[a.node := a.o.state]
    ensures Last(nets').sent == Last(nets).sent + Sends(a.node, a.o.events)
    ensures Last(nets').decided == Last(nets).decided + Decisions(a.node, a.o.events)
  {
    nets', actions' := Extend(vs, config, nets, actions, a);
  }

  /** At height 0, in round `r`, with no vote recorded and no lock. */
  predicate Open(s: EngineState, r: u32) {
    && s.rs.height == 0 && s.rs.round == r && s.rs.step != Committed
    && s.rs.lockedHash == None && s.rs.prevotes == map[] && s.fast == FastPath.Empty
  }

  predicate AllOpen(net: Net, nodes: seq<u64>, r: u32) {
    forall i :: 0 <= i < |nodes| ==> nodes[i] in net.engines && Open(net.engines[nodes[i]], r)
  }

  /** Only engines in `nodes` have changed. */
  predicate Others(net: Net, net': Net, nodes: seq<u64>) {
    && net'.engines.Keys == net.engines.Keys && net.sent <= net'.sent
    && forall v :: v in net.engines && v !in nodes ==> net'.engines[v] == net.engines[v]
  }

  /** The leader's proposal reaches the first `k` nodes, which prevote for it. */
  lemma {:induction false} ProposeTo(vs: ValidatorSet, config: FastPath.Config, nets: seq<Net>, actions: seq<NetInput>,
                                     nodes: seq<u64>, r: u32, h: Hash, k: nat)
    returns (nets': seq<Net>, actions': seq<NetInput>)
    requires HonestRun(vs, config, nets, actions)
    requires Distinct(nodes) && AllOpen(Last(nets), nodes, r) && k <= |nodes|
    ensures HonestRun(vs, config, nets', actions')
    ensures Others(Last(nets), Last(nets'), nodes) && AllOpen(Last(nets'), nodes, r)
    ensures Last(nets').decided == Last(nets).decided
    ensures forall i :: 0 <= i < k ==> Prevote(0, r, Some(h), nodes[i]) in Last(nets').sent
  {
    nets', actions' := nets, actions;
    if k > 0 {
      nets', actions' := ProposeTo(vs, config, nets, actions, nodes, r, h, k - 1);
      var node, net := nodes[k - 1], Last(nets');
      var leader := vs.LeaderForRound(0, r);
      var o := Proposed(vs, net.engines[node], h, leader);
      assert o.events == [SendPrevote(0, r, Some(h))];
      nets', actions' := ExtendHonest(vs, config, nets', actions',
                                      NetInput(node, Receive(Proposal(0, r, h, leader)), o));
      assert SendPrevote(0, r, Some(h)) in o.events;
      assert Decisions(node, o.events) == {};
    }
  }

  /** The first `k` nodes time out. */
  lemma {:induction false} TimeOutAll(vs: ValidatorSet, config: FastPath.Config, nets: seq<Net>, actions: seq<NetInput>,
                                      nodes: seq<u64>, k: nat)
    returns (nets': seq<Net>, actions': seq<NetInput>)
    requires HonestRun(vs, config, nets, actions)
    requires Distinct(nodes) && AllOpen(Last(nets), nodes, 0) && k <= |nodes|
    ensures HonestRun(vs, config, nets', actions')
    ensures Others(Last(nets), Last(nets'), nodes) && Last(nets').decided == Last(nets).decided
    ensures AllOpen(Last(nets'), nodes[..k], 1) && AllOpen(Last(nets'), nodes[k..], 0)
  {
    nets', actions' := nets, actions;
    if k > 0 {
      nets', actions' := TimeOutAll(vs, config, nets, actions, nodes, k - 1);
      var node, net := nodes[k - 1], Last(nets');
      assert node == nodes[k - 1..][0];
      var o := TimedOut(vs, net.engines[node]);
      nets', actions' := ExtendHonest(vs, config, nets', actions', NetInput(node, Timeout, o));
      assert Decisions(node, o.events) == {};
      OpenAfterTimeout(net, Last(nets'), nodes, k - 1);
    }
  }

  lemma {:induction false} OpenAfterTimeout(net: Net, net': Net, nodes: seq<u64>, k: nat)
    requires k < |nodes| && Distinct(nodes) && AllOpen(net, nodes[..k], 1) && AllOpen(net, nodes[k..], 0)
    requires nodes[k] in net'.engines && Open(net'.engines[nodes[k]], 1)
    requires Others(net, net', [nodes[k]])
    ensures AllOpen(net', nodes[..k + 1], 1) && AllOpen(net', nodes[k + 1..], 0)
  {
    forall i | 0 <= i < |nodes| && i != k
      ensures nodes[i] in net'.engines && Open(net'.engines[nodes[i]], if i < k then 1 else 0)
    {
      assert nodes[i] == if i < k then nodes[..k][i] else nodes[k..][i - k];
      assert nodes[i] !in [nodes[k]];
    }
  }

  lemma {:induction false} NewDecisions(node: u64, r: u32, h: Hash, events: seq<Event>)
    ensures events == [BlockFinalized(0, h, r)] ==> Decisions(node, events) == {Decision(node, 0, r, h)}
    ensures (forall e :: e in events ==> !e.BlockFinalized?) ==> Decisions(node, events) == {}
  {
    if events == [BlockFinalized(0, h, r)] {
      assert BlockFinalized(0, h, r) in events;
    }
  }

  /** The first node receives the next prevote. */
  lemma {:induction false} DeliverNext(vs: ValidatorSet, config: FastPath.Config, nets: seq<Net>,
                                       actions: seq<NetInput>, nodes: seq<u64>, r: u32, h: Hash, k: nat)
    returns (nets': seq<Net>, actions': seq<NetInput>)
    requires HonestRun(vs, config, nets, actions) && Last(nets).engines.Keys == vs.Indices()
    requires Distinct(nodes) && k < |nodes| && nodes[0] in vs.Indices() && nodes[k] in vs.Indices()
    requires Fed(Last(nets).engines[nodes[0]], r, h, nodes, k)
    requires Prevote(0, r, Some(h), nodes[k]) in Last(nets).sent
    ensures HonestRun(vs, config, nets', actions') && Others(Last(nets), Last(nets'), [nodes[0]])
    ensures 0 < config.optimisticThreshold <= k + 1 ==>
              Last(nets').decided == Last(nets).decided + {Decision(nodes[0], 0, r, h)}
    ensures k + 1 < config.optimisticThreshold ==>
              Last(nets').decided == Last(nets).decided && Fed(Last(nets').engines[nodes[0]], r, h, nodes, k + 1)
  {
    var o := FeedVote(vs, config, Last(nets).engines[nodes[0]], r, h, nodes, k);
    nets', actions' := ExtendHonest(vs, config, nets, actions, NetInput(nodes[0], NextVote(r, h, nodes, k), o));
    NewDecisions(nodes[0], r, h, o.events);
  }

  /** The first node receives the first `k` prevotes. */
  lemma {:induction false} FeedFirst(vs: ValidatorSet, config: FastPath.Config, nets: seq<Net>, actions: seq<NetInput>,
                                     nodes: seq<u64>, r: u32, h: Hash, k: nat)
    returns (nets': seq<Net>, actions': seq<NetInput>)
    requires HonestRun(vs, config, nets, actions)
    requires 0 < |nodes| && Distinct(nodes) && AllOpen(Last(nets), nodes, r)
    requires Last(nets).engines.Keys == vs.Indices()
    requires forall i :: 0 <= i < |nodes| ==> Prevote(0, r, Some(h), nodes[i]) in Last(nets).sent
    requires k <= |nodes| && k < config.optimisticThreshold
    ensures HonestRun(vs, config, nets', actions')
    ensures Others(Last(nets), Last(nets'), [nodes[0]]) && Last(nets').decided == Last(nets).decided
    ensures Fed(Last(nets').engines[nodes[0]], r, h, nodes, k)
  {
    nets', actions' := nets, actions;
    if k > 0 {
      nets', actions' := FeedFirst(vs, config, nets, actions, nodes, r, h, k - 1);
      nets', actions' := DeliverNext(vs, config, nets', actions', nodes, r, h, k - 1);
    }
  }

  lemma {:induction false} StillOpen(net: Net, net': Net, net'': Net, nodes: seq<u64>, r: u32)
    requires 0 < |nodes| && Distinct(nodes) && AllOpen(net', nodes, r)
    requires Others(net, net', nodes) && Others(net', net'', [nodes[0]])
    ensures Others(net, net'', nodes) && AllOpen(net'', nodes[1..], r)
  {
    forall i | 1 <= i < |nodes| ensures nodes[i] in net''.engines && Open(net''.engines[nodes[i]], r) {
      assert nodes[i] !in [nodes[0]];
    }
    forall v | v in net.engines && v !in nodes ensures net''.engines[v] == net.engines[v] {
      assert v !in [nodes[0]];
    }
  }

  /** The first node receives all prevotes, as many as the threshold, and finalizes. */
  lemma {:induction false} FinishFirst(vs: ValidatorSet, config: FastPath.Config, nets: seq<Net>,
                                       actions: seq<NetInput>, nodes: seq<u64>, r: u32, h: Hash)
    returns (nets': seq<Net>, actions': seq<NetInput>)
    requires HonestRun(vs, config, nets, actions)
    requires 0 < |nodes| == config.optimisticThreshold && Distinct(nodes) && AllOpen(Last(nets), nodes, r)
    requires Last(nets).engines.Keys == vs.Indices()
    requires forall i :: 0 <= i < |nodes| ==> Prevote(0, r, Some(h), nodes[i]) in Last(nets).sent
    ensures HonestRun(vs, config, nets', actions') && Others(Last(nets), Last(nets'), [nodes[0]])
    ensures Last(nets').decided == Last(nets).decided + {Decision(nodes[0], 0, r, h)}
  {
    var n := |nodes|;
    nets', actions' := FeedFirst(vs, config, nets, actions, nodes, r, h, n - 1);
    nets', actions' := DeliverNext(vs, config, nets', actions', nodes, r, h, n - 1);
  }

  /** As many open nodes as the threshold prevote for `h`; the first of them finalizes it, the others
      stay unlocked. */
  lemma {:induction false} CommitAlone(vs: ValidatorSet, config: FastPath.Config, nets: seq<Net>,
                                       actions: seq<NetInput>, nodes: seq<u64>, r: u32, h: Hash)
    returns (nets': seq<Net>, actions': seq<NetInput>)
    requires HonestRun(vs, config, nets, actions)
    requires 0 < |nodes| == config.optimisticThreshold
    requires Distinct(nodes) && AllOpen(Last(nets), nodes, r) && Last(nets).engines.Keys == vs.Indices()
    ensures HonestRun(vs, config, nets', actions')
    ensures Others(Last(nets), Last(nets'), nodes) && AllOpen(Last(nets'), nodes[1..], r)
    ensures Last(nets').decided == Last(nets).decided + {Decision(nodes[0], 0, r, h)}
  {
    var nets1, actions1 := ProposeTo(vs, config, nets, actions, nodes, r, h, |nodes|);
    nets', actions' := FinishFirst(vs, config, nets1, actions1, nodes, r, h);
    StillOpen(Last(nets), Last(nets1), Last(nets'), nodes, r);
  }

  lemma {:induction false} Enumerate(s: set<u64>) returns (all: seq<u64>)
    ensures Distinct(all) && |all| == |s| && forall v :: v in all <==> v in s
  {
    if s == {} {
      all := [];
    } else {
      var v :| v in s;
      all := Enumerate(s - {v});
      all := all + [v];
    }
  }

  lemma {:induction false} DistinctParts(all: seq<u64>, n: nat)
    requires Distinct(all) && 0 < n < |all|
    ensures Distinct(all[..n]) && Distinct(all[1..n + 1])
  {
  }

  /** After the first commit all but its node are open. */
  lemma {:induction false} OpenRest(net: Net, net': Net, all: seq<u64>, n: nat)
    requires 0 < n < |all| && Distinct(all) && AllOpen(net, all, 0)
    requires Others(net, net', all[..n]) && AllOpen(net', all[..n][1..], 0)
    ensures AllOpen(net', all[1..n + 1], 0)
  {
    assert all[n] !in all[..n];
    var rest := all[1..n + 1];
    forall i | 0 <= i < n ensures rest[i] in net'.engines && Open(net'.engines[rest[i]], 0) {
      if i < n - 1 {
        assert rest[i] == all[..n][1..][i];
      }
    }
  }

  lemma {:induction false} StartNet(vs: ValidatorSet, config: FastPath.Config, all: seq<u64>) returns (start: Net)
    requires forall v :: v in all ==> v in vs.Indices()
    ensures HonestRun(vs, config, [start], []) && start.engines.Keys == vs.Indices() && start.decided == {}
    ensures AllOpen(start, all, 0)
  {
    start := Net(map v | v in vs.Indices() :: Initial, {}, {}, {});
    assert start.engines.Keys == vs.Indices();
    forall i | 0 <= i < |all| ensures all[i] in start.engines {
      assert all[i] in all;
    }
  }

  /** One listed validator finalizes 0 in round 0; as many others as the threshold are still open. */
  lemma {:induction false} FirstCommit(vs: ValidatorSet, config: FastPath.Config)
    returns (nets: seq<Net>, actions: seq<NetInput>, first: u64, rest: seq<u64>)
    requires 0 < config.optimisticThreshold < |vs.Indices()|
    ensures HonestRun(vs, config, nets, actions) && Last(nets).engines.Keys == vs.Indices()
    ensures Distinct(rest) && |rest| == config.optimisticThreshold && AllOpen(Last(nets), rest, 0)
    ensures Last(nets).decided == {Decision(first, 0, 0, 0)}
  {
    var n := config.optimisticThreshold;
    var all := Enumerate(vs.Indices());
    first, rest := all[0], all[1..n + 1];
    DistinctParts(all, n);
    var start := StartNet(vs, config, all);
    nets, actions := CommitAlone(vs, config, [start], [], all[..n], 0, 0);
    OpenRest(start, Last(nets), all, n);
  }

  /** With an optimistic threshold below the number of listed validators, whatever their weights, honest
      validators alone can disagree: one finalizes in round 0, the others time out unlocked, and one of
      them finalizes another block in round 1. */
  lemma {:induction false} HonestDisagreement(vs: ValidatorSet, config: FastPath.Config)
    returns (nets: seq<Net>, actions: seq<NetInput>)
    requires 0 < config.optimisticThreshold < |vs.Indices()|
    ensures HonestRun(vs, config, nets, actions) && !Agrees(Last(nets))
  {
    var first, rest;
    nets, actions, first, rest := FirstCommit(vs, config);
    nets, actions := TimeOutAll(vs, config, nets, actions, rest, |rest|);
    assert rest[..|rest|] == rest;
    nets, actions := CommitAlone(vs, config, nets, actions, rest, 1, 1);
    assert Decision(first, 0, 0, 0) in Last(nets).decided && Decision(rest[0], 0, 1, 1) in Last(nets).decided;
  }

  /** Validators 0 to `n`, of any total weight. */
  function Roster(n: u64, weight: nat): seq<Validator> {
    Lump(weight) + seq(n + 1, i requires 0 <= i <= n => Validator(i, 0))
  }

  /** Any total weight, all of it on node 0. */
  function Lump(weight: nat): (all: seq<Validator>)
    ensures forall i :: 0 <= i < |all| ==> all[i].index == 0
  {
    if weight == 0 then []
    else if weight <= U64_MAX then [Validator(0, weight)]
    else [Validator(0, U64_MAX)] + Lump(weight - U64_MAX)
  }

  lemma {:induction false} LumpWeight(weight: nat)
    ensures SumWeights(Lump(weight)) == weight
  {
    if weight > U64_MAX {
      LumpWeight(weight - U64_MAX);
      assert Lump(weight)[1..] == Lump(weight - U64_MAX);
    }
  }

  lemma {:induction false} SumAppend(all: seq<Validator>, more: seq<Validator>)
    requires forall i :: 0 <= i < |more| ==> more[i].weight == 0
    ensures SumWeights(all + more) == SumWeights(all)
  {
    if all != [] {
      assert (all + more)[1..] == all[1..] + more;
      SumAppend(all[1..], more);
    } else if more != [] {
      assert all + more == more;
      SumAppend(all, more[1..]);
      assert all + more[1..] == more[1..];
    }
  }

  lemma {:induction false} FirstIndices(n: nat) returns (s: set<u64>)
    requires n <= U64_MAX + 1
    ensures |s| == n && forall v: u64 :: v in s <==> v < n
  {
    if n == 0 {
      s := {};
    } else {
      s := FirstIndices(n - 1);
      s := s + {n - 1};
    }
  }

  lemma {:induction false} RosterIndices(n: u64, weight: nat)
    ensures |ValidatorSet(Roster(n, weight)).Indices()| == n + 1
  {
    var all := Roster(n, weight);
    var s := FirstIndices(n + 1);
    forall v: u64 | v <= n ensures v in ValidatorSet(all).Indices() {
      assert all[|Lump(weight)| + v] == Validator(v, 0);
    }
    assert ValidatorSet(all).Indices() == s;
  }

  /** With the optimistic path on, no total weight is safe, even without Byzantine validators. */
  lemma {:induction false} FastDisagreement(total: nat, threshold: u64)
    requires 0 < threshold
    ensures !SafetyGuaranteed(total, threshold)
  {
    var vs := ValidatorSet(Roster(threshold, total));
    LumpWeight(total);
    SumAppend(Lump(total), seq(threshold + 1, i requires 0 <= i <= threshold => Validator(i, 0)));
    RosterIndices(threshold, total);
    var nets, actions := HonestDisagreement(vs, FastPath.Config(0, 0, threshold));
    assert vs.Indices() - nets[0].engines.Keys == {};
    SetWeightEmpty(vs.validators);
  }

  /** The engine guarantees agreement exactly when the optimistic path is off and the total weight is
      0, or fits in 64 bits and has the form `3f + 1`. */
  lemma {:induction false} SafetyIff(total: nat, threshold: u64)
    ensures SafetyGuaranteed(total, threshold) <==>
            threshold == 0 && (total == 0 || (total <= U64_MAX && total % 3 == 1))
  {
    if threshold == 0 {
      SlowPathSafety(total);
      AgreementIff(total);
    } else {
      FastDisagreement(total, threshold);
    }
  }
}
