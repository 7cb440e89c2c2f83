/** For which total weights does the quorum rule guarantee agreement? Exactly for 0 and for `3f + 1`
    within 64 bits. */
module QuorumTightness {
  import opened Common
  import opened Validators
  import opened Engine
  import opened EngineRuns
  import opened Agreement
  import FastPath

  /** The number of faults the quorum rule is dimensioned for. */
  function Faults(total: nat): nat {
    (if total == 0 then 0 else total - 1) / 3
  }

  /** Every run, with every validator set of this total weight and at most `Faults(total)` of it
      Byzantine, agrees at every height. */
  ghost predicate AgreementGuaranteed(total: nat) {
    forall vs: ValidatorSet, config: FastPath.Config, nets: seq<Net>, actions: seq<NetInput> ::
      IsNetRun(vs, config, nets, actions) && config.optimisticThreshold == 0 && vs.ExactTotal() == total
      && ByzantineWeight(vs, nets[0].engines.Keys) <= Faults(total)
      ==> Agrees(nets[|nets| - 1])
  }

  // ---- 0 and 3f + 1 are safe ----

  lemma {:induction false} GuaranteedFor(total: nat)
    requires total == 0 || total % 3 == 1
    requires total <= U64_MAX
    ensures AgreementGuaranteed(total)
  {
    forall vs: ValidatorSet, config: FastPath.Config, nets: seq<Net>, actions: seq<NetInput> |
      IsNetRun(vs, config, nets, actions) && config.optimisticThreshold == 0 && vs.ExactTotal() == total
      && ByzantineWeight(vs, nets[0].engines.Keys) <= Faults(total)
      ensures Agrees(nets[|nets| - 1])
    {
      SaturatingTotalExact(vs.validators, 0);
      AgreementHolds(vs, config, nets, actions, |nets| - 1);
    }
  }

  // ---- the other residues are not ----

  /** Two honest nodes, 0 and 1, a Byzantine voter 2 of weight `f`, and weight held by an idle node 3. */
  function Split(f: nat, extra: nat, filler: seq<Validator>): ValidatorSet
    requires f + 1 + extra <= U64_MAX
  {
    ValidatorSet([Validator(0, f + 1), Validator(1, f + 1 + extra), Validator(2, f)] + filler)
  }

  ghost predicate SplitSound(f: nat, extra: nat, filler: seq<Validator>) {
    && extra <= 1 && f + 1 + extra <= U64_MAX
    && (forall v :: v in filler ==> v.index == 3)
    && f == Faults(Split(f, extra, filler).TotalWeight())
  }

  lemma {:induction false} SplitWeights(f: nat, extra: nat, filler: seq<Validator>)
    requires SplitSound(f, extra, filler)
    ensures var vs := Split(f, extra, filler);
            && vs.QuorumWeight() == 2 * f + 1
            && vs.Weight({2}) == f
            && vs.Weight({2, 0}) >= 2 * f + 1 && vs.Weight({2, 1}) >= 2 * f + 1
            && {0, 1, 2} <= vs.Indices() <= {0, 1, 2, 3}
  {
    var vs := Split(f, extra, filler);
    var all := vs.validators;
    SplitLookups(f, extra, filler);
    SetWeightSingle(all, 2);
    SetWeightAdd(all, {2}, 0);
    SetWeightAdd(all, {2}, 1);
    assert {2} + {0} == {2, 0} && {2} + {1} == {2, 1};
    assert all[0] in all && all[1] in all && all[2] in all;
  }

  lemma {:induction false} SplitLookups(f: nat, extra: nat, filler: seq<Validator>)
    requires f + 1 + extra <= U64_MAX
    ensures var all := Split(f, extra, filler).validators;
            && WeightOf(all, 0) == f + 1 && WeightOf(all, 1) == f + 1 + extra && WeightOf(all, 2) == f
            && SumWeights(all) == 3 * f + 2 + extra + SumWeights(filler)
  {
    var all := Split(f, extra, filler).validators;
    var rest := [all[2]] + filler;
    assert all == [all[0]] + ([all[1]] + rest);
    Prepend(all[2], filler);
    Prepend(all[1], rest);
    Prepend(all[0], [all[1]] + rest);
  }

  lemma {:induction false} Prepend(v: Validator, rest: seq<Validator>)
    ensures SumWeights([v] + rest) == v.weight + SumWeights(rest)
    ensures forall i: u64 :: WeightOf([v] + rest, i) == if v.index == i then v.weight else WeightOf(rest, i)
  {
    assert ([v] + rest)[1..] == rest;
  }

  /** Nodes 0 and 1 lead rounds 0 and 1 of height 0. */
  lemma {:induction false} SplitLeader(f: nat, extra: nat, filler: seq<Validator>, node: u64)
    requires f + 1 + extra <= U64_MAX && node < 2
    ensures Split(f, extra, filler).LeaderForRound(0, node) == node
  {
    var n := |Split(f, extra, filler).validators|;
    ModUnique(node, 0, node, n);
  }

  /** Idle validators of any total weight. */
  function Fill(weight: nat): (filler: seq<Validator>)
    ensures forall v :: v in filler ==> v.index == 3
  {
    if weight == 0 then []
    else if weight <= U64_MAX then [Validator(3, weight)]
    else [Validator(3, U64_MAX)] + Fill(weight - U64_MAX)
  }

  lemma {:induction false} FillWeight(weight: nat)
    ensures SumWeights(Fill(weight)) == weight
  {
    if weight > U64_MAX {
      FillWeight(weight - U64_MAX);
      assert Fill(weight)[1..] == Fill(weight - U64_MAX);
    }
  }

  /** The Byzantine vote alone is no quorum; with the node's own vote it is one. */
  lemma {:induction false} SoloVotes(f: nat, extra: nat, filler: seq<Validator>, node: u64, r: u32, h: Hash)
    requires SplitSound(f, extra, filler) && node < 2
    ensures var vs := Split(f, extra, filler);
            && QuorumPick(vs, map[(r, 2) := Some(h)], r, None)
            && QuorumPick(vs, map[(r, 2) := Some(h)][(r, node) := Some(h)], r, Some(h))
  {
    var vs := Split(f, extra, filler);
    SplitWeights(f, extra, filler);
    var one: Votes := map[(r, 2) := Some(h)];
    var two: Votes := one[(r, node) := Some(h)];
    forall g: Hash ensures !HasQuorum(vs, one, r, g) {
      assert Voters(one, r, g) <= {2};
      SetWeightMonotone(vs.validators, Voters(one, r, g), {2});
    }
    assert one[(r, 2)] == Some(h) && two[(r, 2)] == Some(h) && two[(r, node)] == Some(h);
    assert (r, 2) in two && (r, node) in two;
    assert {2, node} <= Voters(two, r, h);
    SetWeightMonotone(vs.validators, {2, node}, Voters(two, r, h));
  }

  const SlowOnly := FastPath.Config(0, 0, 0)

  /** A run can be continued by any possible action. */
  lemma {:induction false} Extend(vs: ValidatorSet, config: FastPath.Config, nets: seq<Net>, actions: seq<NetInput>,
                                  a: NetInput)
    returns (nets': seq<Net>, actions': seq<NetInput>)
    requires IsNetRun(vs, config, nets, actions)
    requires var net := nets[|nets| - 1];
             && a.node in net.engines
             && (a.input.StartHeight? ==> MayStart(net, a.node, a.input.height))
             && (a.input.Receive? ==> Deliverable(net, a.input.msg))
             && Handles(vs, config, net.engines[a.node], a.input, a.o)
    ensures IsNetRun(vs, config, nets', actions') && nets'[0] == nets[0]
    ensures actions' == actions + [a]
    ensures var net, net' := nets[|nets| - 1], nets'[|nets'| - 1];
            && net'.engines == net.engines[a.node := a.o.state]
            && net'.sent == net.sent + Sends(a.node, a.o.events)
            && net'.decided == net.decided + Decisions(a.node, a.o.events)
  {
    var net := nets[|nets| - 1];
    var net' := Net(net.engines[a.node := a.o.state], net.visited + Visit(a.node, a.o.state),
                    net.sent + Sends(a.node, a.o.events), net.decided + Decisions(a.node, a.o.events));
    nets', actions' := nets + [net'], actions + [a];
    forall i | 0 <= i < |actions'| ensures NetStep(vs, config, nets'[i], actions'[i], nets'[i + 1]) {
      if i < |actions| {
        assert NetStep(vs, config, nets[i], actions[i], nets[i + 1]);
      }
    }
  }

  /** The engine after the Byzantine prevote: one recorded vote, no lock. */
  ghost predicate HalfVoted(s: EngineState, r: u32, h: Hash) {
    s.rs == FreshState(0).(round := r, step := Prevoting, proposals := map[r := h], prevotes := map[(r, 2) := Some(h)])
  }

  /** The proposal and the Byzantine prevote. */
  lemma {:induction false} SoloPropose(f: nat, extra: nat, filler: seq<Validator>, nets: seq<Net>,
                                       actions: seq<NetInput>, node: u64, h: Hash)
    returns (nets': seq<Net>, actions': seq<NetInput>, s': EngineState)
    requires SplitSound(f, extra, filler) && node < 2
    requires IsNetRun(Split(f, extra, filler), SlowOnly, nets, actions)
    requires var net := nets[|nets| - 1];
             node in net.engines && 2 !in net.engines && net.engines[node] == AtRound(node)
    ensures IsNetRun(Split(f, extra, filler), SlowOnly, nets', actions') && nets'[0] == nets[0]
    ensures var net, net' := nets[|nets| - 1], nets'[|nets'| - 1];
            && net'.engines == net.engines[node := s'] && net'.decided == net.decided
            && Prevote(0, node, Some(h), node) in net'.sent
    ensures HalfVoted(s', node, h)
  {
    var vs, r: u32 := Split(f, extra, filler), node;
    SoloVotes(f, extra, filler, node, r, h);
    var s0 := AtRound(r);
    var o1 := Proposed(vs, s0, h, node);
    SplitLeader(f, extra, filler, node);
    assert o1.events == [SendPrevote(0, r, Some(h))];
    nets', actions' := Extend(vs, SlowOnly, nets, actions, NetInput(node, Receive(Proposal(0, r, h, node)), o1));
    assert SendPrevote(0, r, Some(h)) in o1.events;

    var s1 := o1.state;
    FastPathOff(SlowOnly, s1, Some(h), 2);
    var one: Votes := map[(r, 2) := Some(h)];
    assert s1.rs.prevotes[(r, 2) := Some(h)] == one;
    s' := EngineState(s1.rs.(prevotes := one), FastStep(SlowOnly, s1, Some(h), 2).0);
    assert Prevoted(vs, SlowOnly, s1, Some(h), 2, Outcome(s', []));
    nets', actions' := Extend(vs, SlowOnly, nets', actions', NetInput(node, Receive(Prevote(0, r, Some(h), 2)),
                                                                      Outcome(s', [])));
  }

  /** The node's own prevote completes the quorum: it locks and precommits. */
  lemma {:induction false} SoloLock(f: nat, extra: nat, filler: seq<Validator>, nets: seq<Net>,
                                    actions: seq<NetInput>, node: u64, h: Hash)
    returns (nets': seq<Net>, actions': seq<NetInput>, s': EngineState)
    requires SplitSound(f, extra, filler) && node < 2
    requires IsNetRun(Split(f, extra, filler), SlowOnly, nets, actions)
    requires var net := nets[|nets| - 1];
             node in net.engines && 2 !in net.engines && net.engines[node] == AtRound(node)
    ensures IsNetRun(Split(f, extra, filler), SlowOnly, nets', actions') && nets'[0] == nets[0]
    ensures var net, net' := nets[|nets| - 1], nets'[|nets'| - 1];
            && net'.engines == net.engines[node := s'] && net'.decided == net.decided
            && Precommit(0, node, Some(h), node) in net'.sent
    ensures s'.rs.height == 0 && s'.rs.round == node && s'.rs.step == Precommitting && s'.rs.precommits == map[]
  {
    var vs, r: u32 := Split(f, extra, filler), node;
    var s2;
    nets', actions', s2 := SoloPropose(f, extra, filler, nets, actions, node, h);
    SoloVotes(f, extra, filler, node, r, h);
    FastPathOff(SlowOnly, s2, Some(h), node);
    var voted := s2.rs.(prevotes := s2.rs.prevotes[(r, node) := Some(h)]);
    var o3 := Outcome(EngineState(Locked(voted, Some(h)).0, FastStep(SlowOnly, s2, Some(h), node).0),
                      Locked(voted, Some(h)).1);
    assert Prevoted(vs, SlowOnly, s2, Some(h), node, o3);
    assert o3.events == [SendPrecommit(0, r, Some(h))];
    nets', actions' := Extend(vs, SlowOnly, nets', actions', NetInput(node, Receive(Prevote(0, r, Some(h), node)), o3));
    assert SendPrecommit(0, r, Some(h)) in o3.events;
    s' := o3.state;
  }

  /** One honest node and the Byzantine voter finalize `h` between them. */
  lemma {:induction false} SoloCommit(f: nat, extra: nat, filler: seq<Validator>, nets: seq<Net>,
                                      actions: seq<NetInput>, node: u64, h: Hash)
    returns (nets': seq<Net>, actions': seq<NetInput>)
    requires SplitSound(f, extra, filler) && node < 2
    requires IsNetRun(Split(f, extra, filler), SlowOnly, nets, actions)
    requires var net := nets[|nets| - 1];
             node in net.engines && 2 !in net.engines && net.engines[node] == AtRound(node)
    ensures IsNetRun(Split(f, extra, filler), SlowOnly, nets', actions') && nets'[0] == nets[0]
    ensures var net, net' := nets[|nets| - 1], nets'[|nets'| - 1];
            && net'.engines.Keys == net.engines.Keys
            && (forall v :: v in net.engines && v != node ==> net'.engines[v] == net.engines[v])
            && net'.decided == net.decided + {Decision(node, 0, node, h)}
  {
    var vs, r: u32 := Split(f, extra, filler), node;
    var s3;
    nets', actions', s3 := SoloLock(f, extra, filler, nets, actions, node, h);
    SoloVotes(f, extra, filler, node, r, h);

    var one: Votes := map[(r, 2) := Some(h)];
    assert s3.rs.precommits[(r, 2) := Some(h)] == one;
    var s4 := s3.(rs := s3.rs.(precommits := one));
    assert Precommitted(vs, s3, Some(h), 2, Outcome(s4, []));
    nets', actions' := Extend(vs, SlowOnly, nets', actions', NetInput(node, Receive(Precommit(0, r, Some(h), 2)),
                                                                      Outcome(s4, [])));

    var two: Votes := one[(r, node) := Some(h)];
    var o5 := Outcome(s4.(rs := s4.rs.(precommits := two, step := Committed)), [BlockFinalized(0, h, r)]);
    assert Precommitted(vs, s4, Some(h), node, o5);
    nets', actions' := Extend(vs, SlowOnly, nets', actions', NetInput(node, Receive(Precommit(0, r, Some(h), node)),
                                                                      o5));
    assert Decisions(node, o5.events) == {Decision(node, 0, r, h)} by {
      assert BlockFinalized(0, h, r) in o5.events;
    }
  }

  /** Node 0 finalizes 0 in round 0; node 1, having timed out, finalizes 1 in round 1. */
  lemma {:induction false} Disagreement(f: nat, extra: nat, filler: seq<Validator>)
    requires SplitSound(f, extra, filler) && f <= Faults(Split(f, extra, filler).ExactTotal())
    ensures !AgreementGuaranteed(Split(f, extra, filler).ExactTotal())
  {
    var vs := Split(f, extra, filler);
    SplitWeights(f, extra, filler);
    var start := Net(map[0 := Initial, 1 := Initial, 3 := Initial], {}, {}, {});
    var nets, actions := SoloCommit(f, extra, filler, [start], [], 0, 0);
    var timeout := TimedOut(vs, Initial);
    assert timeout.state == AtRound(1);
    nets, actions := Extend(vs, SlowOnly, nets, actions, NetInput(1, Timeout, timeout));
    assert Decisions(1, timeout.events) == {};
    nets, actions := SoloCommit(f, extra, filler, nets, actions, 1, 1);
    var last := nets[|nets| - 1];
    assert Decision(0, 0, 0, 0) in last.decided && Decision(1, 0, 1, 1) in last.decided;
    assert vs.Indices() - nets[0].engines.Keys == {2};
    assert !Agrees(last);
  }

  /** A split of any other total weight. */
  lemma {:induction false} Decompose(total: nat) returns (f: nat, extra: nat, filler: seq<Validator>)
    requires total != 0 && (total % 3 != 1 || total > U64_MAX)
    ensures SplitSound(f, extra, filler)
    ensures Split(f, extra, filler).ExactTotal() == total && f <= Faults(total)
  {
    if total <= U64_MAX {
      f, extra, filler := (total - 2) / 3, (total - 2) % 3, [];
    } else {
      f, extra := Faults(U64_MAX), 0;
      filler := Fill(total - 3 * f - 2);
      FillWeight(total - 3 * f - 2);
    }
    SplitLookups(f, extra, filler);
    SaturatingTotalExact(Split(f, extra, filler).validators, 0);
  }

  /** Dimensioned for `f = (total - 1) / 3` faults, the quorum rule guarantees agreement exactly when
      the total weight is 0, or fits in 64 bits and is of the form `3f + 1`. */
  lemma {:induction false} AgreementIff(total: nat)
    ensures AgreementGuaranteed(total) <==> total == 0 || (total <= U64_MAX && total % 3 == 1)
  {
    if total == 0 || (total <= U64_MAX && total % 3 == 1) {
      GuaranteedFor(total);
    } else {
      var f, extra, filler := Decompose(total);
      Disagreement(f, extra, filler);
    }
  }
}
