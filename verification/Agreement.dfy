/** Honest engines over an adversarial network never finalize different blocks at one height. */
module Agreement {
  import opened Common
  import opened Validators
  import opened Engine
  import opened EngineRuns
  import FastPath

  datatype Decision = Decision(node: u64, height: u64, round: u32, hash: Hash)

  /** `engines` holds the honest nodes; every other voter is the adversary's. `visited` holds the
      heights each node has been active at. `sent` only grows: a message in it may be delivered any
      number of times, in any order, or never. */
  datatype Net = Net(engines: map<u64, EngineState>, visited: set<(u64, u64)>, sent: set<Message>,
                     decided: set<Decision>)

  ghost function Sends(node: u64, events: seq<Event>): set<Message> {
    (set e | e in events && e.SendPrevote? :: Prevote(e.height, e.round, e.blockHash, node)) +
    (set e | e in events && e.SendPrecommit? :: Precommit(e.height, e.round, e.blockHash, node))
  }

  ghost function Decisions(node: u64, events: seq<Event>): set<Decision> {
    set e | e in events && e.BlockFinalized? :: Decision(node, e.height, e.round, e.hash)
  }

  /** Voter fields are authentic: an honest node's vote can only be one that it sent. Proposals and
      all votes of other voters are up to the adversary. */
  predicate Deliverable(net: Net, msg: Message) {
    msg.Proposal? || msg.voter !in net.engines || msg in net.sent
  }

  /** Heights may be started in any order, but none again once the engine has been active at it. A new
      engine that has done nothing yet may still start its initial height explicitly. */
  predicate MayStart(net: Net, node: u64, height: u64) {
    (node, height) !in net.visited
  }

  /** The height a node is active at, once it differs from a newly made engine. */
  function Visit(node: u64, s: EngineState): set<(u64, u64)> {
    if s == Initial then {} else {(node, s.rs.height)}
  }

  datatype NetInput = NetInput(node: u64, input: Input, o: Outcome)

  ghost predicate NetStep(vs: ValidatorSet, config: FastPath.Config, net: Net, a: NetInput, net': Net) {
    && a.node in net.engines
    && (a.input.StartHeight? ==> MayStart(net, a.node, a.input.height))
    && (a.input.Receive? ==> Deliverable(net, a.input.msg))
    && Handles(vs, config, net.engines[a.node], a.input, a.o)
    && net' == Net(net.engines[a.node := a.o.state],
                   net.visited + Visit(a.node, a.o.state),
                   net.sent + Sends(a.node, a.o.events),
                   net.decided + Decisions(a.node, a.o.events))
  }

  ghost predicate NetInit(net: Net) {
    && (forall v :: v in net.engines ==> net.engines[v] == Initial)
    && net.visited == {} && net.sent == {} && net.decided == {}
  }

  ghost predicate IsNetRun(vs: ValidatorSet, config: FastPath.Config, nets: seq<Net>, actions: seq<NetInput>) {
    && |nets| == |actions| + 1
    && NetInit(nets[0])
    && forall i :: 0 <= i < |actions| ==> NetStep(vs, config, nets[i], actions[i], nets[i + 1])
  }

  /** Weight of the listed validators that do not run an honest engine. */
  ghost function ByzantineWeight(vs: ValidatorSet, honest: set<u64>): nat {
    vs.Weight(vs.Indices() - honest)
  }

  /** Two quorums overlap in more than the adversary's weight. */
  ghost predicate SafeWeights(vs: ValidatorSet, honest: set<u64>) {
    vs.ExactTotal() + ByzantineWeight(vs, honest) < 2 * vs.QuorumWeight()
  }

  // ---- the invariant, for one height ----

  predicate SentPrevote(net: Net, height: u64, r: u32, h: Hash, v: u64) {
    v in net.engines && Prevote(height, r, Some(h), v) in net.sent
  }

  predicate SentPrecommit(net: Net, height: u64, r: u32, h: Hash, v: u64) {
    v in net.engines && Precommit(height, r, Some(h), v) in net.sent
  }

  ghost function Prevoters(vs: ValidatorSet, net: Net, height: u64, r: u32, h: Hash): set<u64> {
    (vs.Indices() - net.engines.Keys) + set v | v in net.engines && SentPrevote(net, height, r, h, v)
  }

  ghost function Precommitters(vs: ValidatorSet, net: Net, height: u64, r: u32, h: Hash): set<u64> {
    (vs.Indices() - net.engines.Keys) + set v | v in net.engines && SentPrecommit(net, height, r, h, v)
  }

  /** `v` has left this round of this height for good. */
  predicate Past(net: Net, height: u64, r: u32, v: u64)
    requires v in net.engines
  {
    (v, height) in net.visited && (net.engines[v].rs.height == height ==> net.engines[v].rs.round > r)
  }

  /** `v` has left this round without precommitting `h` in it, and so never will. */
  predicate Blocked(net: Net, height: u64, r: u32, h: Hash, v: u64) {
    v in net.engines && Past(net, height, r, v) && !SentPrecommit(net, height, r, h, v)
  }

  /** The blocked weight rules out a precommit quorum for `h` in this round. */
  ghost predicate RuledOut(vs: ValidatorSet, net: Net, height: u64, r: u32, h: Hash) {
    vs.Weight(set v | v in net.engines && Blocked(net, height, r, h, v)) + vs.QuorumWeight() > vs.ExactTotal()
  }

  /** Recorded votes of honest nodes were sent by them. */
  ghost predicate Authentic(net: Net, s: EngineState) {
    && (forall k :: k in s.rs.prevotes && k.1 in net.engines ==>
          Prevote(s.rs.height, k.0, s.rs.prevotes[k], k.1) in net.sent)
    && (forall k :: k in s.rs.precommits && k.1 in net.engines ==>
          Precommit(s.rs.height, k.0, s.rs.precommits[k], k.1) in net.sent)
  }

  /** An engine still holds the prevote quorum behind each precommit it sent at its height. */
  ghost predicate HoldsLocks(vs: ValidatorSet, net: Net, v: u64, s: EngineState) {
    forall r: u32, h: Hash :: SentPrecommit(net, s.rs.height, r, h, v) ==>
      s.rs.lockedRound.Some? && s.rs.lockedRound.value >= r && HasQuorum(vs, s.rs.prevotes, r, h)
  }

  ghost predicate NodeInv(vs: ValidatorSet, net: Net, v: u64)
    requires v in net.engines
  {
    var s := net.engines[v];
    Inv(vs, s) && Authentic(net, s) && HoldsLocks(vs, net, v, s)
  }

  /** `v` has been at this height and is not in an earlier round of it now. */
  predicate Reached(net: Net, height: u64, r: u32, v: u64)
    requires v in net.engines
  {
    (v, height) in net.visited && (net.engines[v].rs.height == height ==> net.engines[v].rs.round >= r)
  }

  /** Nobody has voted at a height it never visited or beyond its round. */
  ghost predicate SentWithin(net: Net, height: u64) {
    && (forall v, r: u32, h: Hash :: SentPrevote(net, height, r, h, v) ==> Reached(net, height, r, v))
    && (forall v, r: u32, h: Hash :: SentPrecommit(net, height, r, h, v) ==> Reached(net, height, r, v))
  }

  ghost predicate OnePrecommit(net: Net, height: u64) {
    forall v, r: u32, h: Hash, h': Hash ::
      SentPrecommit(net, height, r, h, v) && SentPrecommit(net, height, r, h', v) ==> h == h'
  }

  ghost predicate PrecommitsBacked(vs: ValidatorSet, net: Net, height: u64) {
    forall v, r: u32, h: Hash :: SentPrecommit(net, height, r, h, v) ==>
      vs.Weight(Prevoters(vs, net, height, r, h)) >= vs.QuorumWeight()
  }

  /** A node that precommitted `h` prevotes another hash later only once `h` is ruled out. */
  ghost predicate SwitchesSafe(vs: ValidatorSet, net: Net, height: u64) {
    forall v, r: u32, h: Hash, r': u32, h': Hash ::
      SentPrecommit(net, height, r, h, v) && SentPrevote(net, height, r', h', v) && r < r' && h != h' ==>
        RuledOut(vs, net, height, r, h)
  }

  ghost predicate DecisionsBacked(vs: ValidatorSet, net: Net, height: u64) {
    forall d :: d in net.decided && d.height == height ==>
      vs.Weight(Precommitters(vs, net, height, d.round, d.hash)) >= vs.QuorumWeight()
  }

  ghost predicate NetInv(vs: ValidatorSet, net: Net, height: u64) {
    && (forall v :: v in net.engines ==> NodeInv(vs, net, v))
    && SentWithin(net, height)
    && OnePrecommit(net, height)
    && PrecommitsBacked(vs, net, height)
    && SwitchesSafe(vs, net, height)
    && DecisionsBacked(vs, net, height)
  }

  // ---- one engine step, seen from outside ----

  ghost predicate VotesGrow(before: Votes, after: Votes) {
    forall k :: k in before ==> k in after && after[k] == before[k]
  }

  /** The engine's tables, lock and round only move forward within a height. */
  ghost predicate Advances(s: EngineState, s': EngineState) {
    && s'.rs.height == s.rs.height
    && s'.rs.round >= s.rs.round
    && VotesGrow(s.rs.prevotes, s'.rs.prevotes)
    && (s.rs.lockedRound.Some? ==>
          s'.rs.lockedRound.Some? && s'.rs.lockedRound.value >= s.rs.lockedRound.value)
  }

  lemma {:induction false} StepAdvances(vs: ValidatorSet, config: FastPath.Config, s: EngineState, input: Input,
                                        o: Outcome)
    requires Inv(vs, s) && Handles(vs, config, s, input, o) && !input.StartHeight?
    ensures Advances(s, o.state)
  {
  }

  /** A step goes forward at a height or opens one that its node has not visited. */
  lemma {:induction false} NetStepAdvances(vs: ValidatorSet, config: FastPath.Config, net: Net, a: NetInput, net': Net)
    requires NetStep(vs, config, net, a, net') && Inv(vs, net.engines[a.node])
    ensures Advances(net.engines[a.node], a.o.state) || (a.node, a.o.state.rs.height) !in net.visited
  {
    if !a.input.StartHeight? {
      StepAdvances(vs, config, net.engines[a.node], a.input, a.o);
    }
  }

  /** Whatever round of a height a node has reached or left, it has still reached or left later. */
  lemma {:induction false} PositionKept(vs: ValidatorSet, config: FastPath.Config, net: Net, a: NetInput, net': Net,
                                       height: u64, r: u32, v: u64)
    requires NetStep(vs, config, net, a, net') && Inv(vs, net.engines[a.node]) && v in net.engines
    ensures Past(net, height, r, v) ==> Past(net', height, r, v)
    ensures Reached(net, height, r, v) ==> Reached(net', height, r, v)
  {
    NetStepAdvances(vs, config, net, a, net');
  }

  /** Every sent vote and every decision is for the current height and round, and is explained by the
      engine's lock, its recorded prevotes or its recorded precommits. */
  ghost predicate Explained(vs: ValidatorSet, s: EngineState, s': EngineState, e: Event) {
    match e
    case SendPrevote(height, round, vote) =>
      && height == s.rs.height && round == s.rs.round && s'.rs.height == height && s'.rs.round == round
      && (s.rs.lockedHash.Some? ==> vote == s.rs.lockedHash) && s'.rs.step == Prevoting
    case SendPrecommit(height, round, vote) =>
      && height == s.rs.height && round == s.rs.round && s'.rs.height == height && s'.rs.round == round
      && vote.Some? && s'.rs.lockedRound == Some(round) && HasQuorum(vs, s'.rs.prevotes, round, vote.value)
    case BlockFinalized(height, h, round) =>
      && height == s'.rs.height && round == s'.rs.round
      && HasQuorum(vs, s'.rs.precommits, round, h)
    case _ => true
  }

  /** With the optimistic threshold at 0 the accumulator never finalizes. */
  lemma {:induction false} FastPathOff(config: FastPath.Config, s: EngineState, vote: Option<Hash>, voter: u64)
    requires config.optimisticThreshold == 0
    ensures !FastStep(config, s, vote, voter).1
  {
  }

  lemma {:induction false} StepExplained(vs: ValidatorSet, config: FastPath.Config, s: EngineState, input: Input,
                                         o: Outcome, e: Event)
    requires config.optimisticThreshold == 0
    requires Handles(vs, config, s, input, o) && e in o.events
    ensures Explained(vs, s, o.state, e)
  {
    if input.Receive? && input.msg.Prevote? {
      FastPathOff(config, s, input.msg.blockHash, input.msg.voter);
    }
  }

  lemma {:induction false} QuorumGrows(vs: ValidatorSet, before: Votes, after: Votes, r: u32, h: Hash)
    requires VotesGrow(before, after) && HasQuorum(vs, before, r, h)
    ensures HasQuorum(vs, after, r, h)
  {
    assert Voters(before, r, h) <= Voters(after, r, h);
    SetWeightMonotone(vs.validators, Voters(before, r, h), Voters(after, r, h));
  }

  // ---- growth of the network ----

  lemma {:induction false} SentBefore(vs: ValidatorSet, config: FastPath.Config, net: Net, a: NetInput, net': Net,
                                      m: Message)
    requires NetStep(vs, config, net, a, net') && m in net'.sent && m !in net.sent
    ensures m.Prevote? ==> m.voter == a.node && SendPrevote(m.height, m.round, m.blockHash) in a.o.events
    ensures m.Precommit? ==> m.voter == a.node && SendPrecommit(m.height, m.round, m.blockHash) in a.o.events
    ensures !m.Proposal?
  {
  }

  lemma {:induction false} SupportersGrow(vs: ValidatorSet, net: Net, net': Net, height: u64, r: u32, h: Hash)
    requires net.engines.Keys == net'.engines.Keys && net.sent <= net'.sent
    ensures vs.Weight(Prevoters(vs, net, height, r, h)) <= vs.Weight(Prevoters(vs, net', height, r, h))
    ensures vs.Weight(Precommitters(vs, net, height, r, h)) <= vs.Weight(Precommitters(vs, net', height, r, h))
  {
    SetWeightMonotone(vs.validators, Prevoters(vs, net, height, r, h), Prevoters(vs, net', height, r, h));
    SetWeightMonotone(vs.validators, Precommitters(vs, net, height, r, h), Precommitters(vs, net', height, r, h));
  }

  lemma {:induction false} RecordedPrevotes(vs: ValidatorSet, net: Net, s: EngineState, r: u32, h: Hash)
    requires Authentic(net, s) && HasQuorum(vs, s.rs.prevotes, r, h)
    ensures vs.Weight(Prevoters(vs, net, s.rs.height, r, h)) >= vs.QuorumWeight()
  {
    var voters := Voters(s.rs.prevotes, r, h);
    SetWeightListed(vs.validators, voters, vs.Indices());
    SetWeightMonotone(vs.validators, voters * vs.Indices(), Prevoters(vs, net, s.rs.height, r, h));
  }

  lemma {:induction false} RecordedPrecommits(vs: ValidatorSet, net: Net, s: EngineState, r: u32, h: Hash)
    requires Authentic(net, s) && HasQuorum(vs, s.rs.precommits, r, h)
    ensures vs.Weight(Precommitters(vs, net, s.rs.height, r, h)) >= vs.QuorumWeight()
  {
    var voters := Voters(s.rs.precommits, r, h);
    SetWeightListed(vs.validators, voters, vs.Indices());
    SetWeightMonotone(vs.validators, voters * vs.Indices(), Precommitters(vs, net, s.rs.height, r, h));
  }

  /** Once ruled out, a hash stays ruled out. */
  lemma {:induction false} RuledOutStays(vs: ValidatorSet, config: FastPath.Config, net: Net, a: NetInput, net': Net,
                                        height: u64, r: u32, h: Hash)
    requires config.optimisticThreshold == 0
    requires NetStep(vs, config, net, a, net') && Inv(vs, net.engines[a.node])
    requires RuledOut(vs, net, height, r, h)
    ensures RuledOut(vs, net', height, r, h)
  {
    forall v | v in net.engines && Blocked(net, height, r, h, v) ensures Blocked(net', height, r, h, v) {
      PositionKept(vs, config, net, a, net', height, r, v);
      if SentPrecommit(net', height, r, h, v) {
        SentBefore(vs, config, net, a, net', Precommit(height, r, Some(h), v));
        StepExplained(vs, config, net.engines[a.node], a.input, a.o, SendPrecommit(height, r, Some(h)));
      }
    }
    SetWeightMonotone(vs.validators, (set v | v in net.engines && Blocked(net, height, r, h, v)),
                                     (set v | v in net'.engines && Blocked(net', height, r, h, v)));
  }

  // ---- the key argument ----

  /** A possible prevote quorum for `h'` rules out every other hash in all earlier rounds. */
  lemma {:induction false} QuorumRulesOut(vs: ValidatorSet, net: Net, height: u64, r: u32, h: Hash, r': u32, h': Hash)
    requires SafeWeights(vs, net.engines.Keys) && NetInv(vs, net, height)
    requires vs.Weight(Prevoters(vs, net, height, r', h')) >= vs.QuorumWeight()
    requires r < r' && h != h'
    ensures RuledOut(vs, net, height, r, h)
  {
    var byz := vs.Indices() - net.engines.Keys;
    var honest := set v | v in net.engines && SentPrevote(net, height, r', h', v);
    var blocked := set v | v in net.engines && Blocked(net, height, r, h, v);
    if v :| v in honest && SentPrecommit(net, height, r, h, v) {
      assert SwitchesSafe(vs, net, height);
    } else {
      forall v | v in honest ensures v in blocked {
        assert SentPrevote(net, height, r', h', v) && SentWithin(net, height);
      }
      SetWeightDisjoint(vs.validators, byz, honest);
      SetWeightMonotone(vs.validators, honest, blocked);
    }
  }

  /** A ruled-out hash has no possible precommit quorum. */
  lemma {:induction false} RuledOutHasNoQuorum(vs: ValidatorSet, net: Net, height: u64, r: u32, h: Hash)
    requires RuledOut(vs, net, height, r, h)
    ensures vs.Weight(Precommitters(vs, net, height, r, h)) < vs.QuorumWeight()
  {
    var blocked := set v | v in net.engines && Blocked(net, height, r, h, v);
    var committers := Precommitters(vs, net, height, r, h);
    assert blocked !! committers;
    SetWeightDisjoint(vs.validators, blocked, committers);
    SetWeightBound(vs.validators, blocked + committers);
  }

  // ---- the invariant is kept ----

  /** An accepted vote enters the table of the current height only. */
  lemma {:induction false} StepRecords(vs: ValidatorSet, config: FastPath.Config, s: EngineState, input: Input,
                                       o: Outcome)
    requires Handles(vs, config, s, input, o)
    ensures forall k :: k in o.state.rs.prevotes ==>
              && (k in s.rs.prevotes ==> o.state.rs.prevotes[k] == s.rs.prevotes[k])
              && (k !in s.rs.prevotes ==>
                    input == Receive(Prevote(o.state.rs.height, k.0, o.state.rs.prevotes[k], k.1)))
    ensures forall k :: k in o.state.rs.precommits ==>
              && (k in s.rs.precommits ==> o.state.rs.precommits[k] == s.rs.precommits[k])
              && (k !in s.rs.precommits ==>
                    input == Receive(Precommit(o.state.rs.height, k.0, o.state.rs.precommits[k], k.1)))
    ensures input.StartHeight? ==> o.state.rs.prevotes == map[] && o.state.rs.precommits == map[]
    ensures !input.StartHeight? ==> o.state.rs.height == s.rs.height
  {
  }

  lemma {:induction false} KeepsAuthentic(vs: ValidatorSet, config: FastPath.Config, net: Net, a: NetInput, net': Net)
    requires NetStep(vs, config, net, a, net') && Authentic(net, net.engines[a.node])
    ensures Authentic(net', a.o.state)
  {
    StepRecords(vs, config, net.engines[a.node], a.input, a.o);
  }

  lemma {:induction false} KeepsOthers(vs: ValidatorSet, config: FastPath.Config, net: Net, a: NetInput, net': Net,
                                       v: u64)
    requires NetStep(vs, config, net, a, net') && v in net.engines && v != a.node
    requires NodeInv(vs, net, v)
    ensures NodeInv(vs, net', v)
  {
    var s := net.engines[v];
    forall r: u32, h: Hash | SentPrecommit(net', s.rs.height, r, h, v)
      ensures SentPrecommit(net, s.rs.height, r, h, v)
    {
      if !SentPrecommit(net, s.rs.height, r, h, v) {
        SentBefore(vs, config, net, a, net', Precommit(s.rs.height, r, Some(h), v));
      }
    }
  }

  lemma {:induction false} KeepsLocks(vs: ValidatorSet, config: FastPath.Config, net: Net, a: NetInput, net': Net)
    requires config.optimisticThreshold == 0
    requires NetStep(vs, config, net, a, net') && NodeInv(vs, net, a.node)
    requires forall H: u64 :: SentWithin(net, H)
    ensures HoldsLocks(vs, net', a.node, a.o.state)
  {
    var s, s' := net.engines[a.node], a.o.state;
    NetStepAdvances(vs, config, net, a, net');
    forall r: u32, h: Hash | SentPrecommit(net', s'.rs.height, r, h, a.node)
      ensures s'.rs.lockedRound.Some? && s'.rs.lockedRound.value >= r && HasQuorum(vs, s'.rs.prevotes, r, h)
    {
      if SentPrecommit(net, s'.rs.height, r, h, a.node) {
        assert SentWithin(net, s'.rs.height) && Reached(net, s'.rs.height, r, a.node);
        QuorumGrows(vs, s.rs.prevotes, s'.rs.prevotes, r, h);
      } else {
        SentBefore(vs, config, net, a, net', Precommit(s'.rs.height, r, Some(h), a.node));
        StepExplained(vs, config, s, a.input, a.o, SendPrecommit(s'.rs.height, r, Some(h)));
      }
    }
  }

  lemma {:induction false} KeepsWithin(vs: ValidatorSet, config: FastPath.Config, net: Net, a: NetInput, net': Net,
                                       height: u64)
    requires config.optimisticThreshold == 0
    requires NetStep(vs, config, net, a, net') && Inv(vs, net.engines[a.node])
    requires SentWithin(net, height)
    ensures SentWithin(net', height)
  {
    var s := net.engines[a.node];
    forall v, r: u32, h: Hash | SentPrevote(net', height, r, h, v) ensures Reached(net', height, r, v) {
      if SentPrevote(net, height, r, h, v) {
        PositionKept(vs, config, net, a, net', height, r, v);
      } else {
        SentBefore(vs, config, net, a, net', Prevote(height, r, Some(h), v));
        StepExplained(vs, config, s, a.input, a.o, SendPrevote(height, r, Some(h)));
      }
    }
    forall v, r: u32, h: Hash | SentPrecommit(net', height, r, h, v) ensures Reached(net', height, r, v) {
      if SentPrecommit(net, height, r, h, v) {
        PositionKept(vs, config, net, a, net', height, r, v);
      } else {
        SentBefore(vs, config, net, a, net', Precommit(height, r, Some(h), v));
        StepExplained(vs, config, s, a.input, a.o, SendPrecommit(height, r, Some(h)));
      }
    }
  }

  lemma {:induction false} KeepsOnePrecommit(vs: ValidatorSet, config: FastPath.Config, net: Net, a: NetInput,
                                             net': Net, height: u64)
    requires config.optimisticThreshold == 0 && 2 * vs.QuorumWeight() > vs.ExactTotal()
    requires NetStep(vs, config, net, a, net') && NodeInv(vs, net', a.node)
    requires OnePrecommit(net, height)
    ensures OnePrecommit(net', height)
  {
    var s := net.engines[a.node];
    forall v, r: u32, h: Hash, h': Hash | SentPrecommit(net', height, r, h, v) && SentPrecommit(net', height, r, h', v)
      ensures h == h'
    {
      if !SentPrecommit(net, height, r, h, v) {
        SentBefore(vs, config, net, a, net', Precommit(height, r, Some(h), v));
        StepExplained(vs, config, s, a.input, a.o, SendPrecommit(height, r, Some(h)));
        QuorumUnique(vs, net'.engines[v].rs.prevotes, r, h, h');
      } else if !SentPrecommit(net, height, r, h', v) {
        SentBefore(vs, config, net, a, net', Precommit(height, r, Some(h'), v));
        StepExplained(vs, config, s, a.input, a.o, SendPrecommit(height, r, Some(h')));
        QuorumUnique(vs, net'.engines[v].rs.prevotes, r, h, h');
      }
    }
  }

  lemma {:induction false} KeepsBacking(vs: ValidatorSet, config: FastPath.Config, net: Net, a: NetInput, net': Net,
                                        height: u64)
    requires config.optimisticThreshold == 0
    requires NetStep(vs, config, net, a, net') && NodeInv(vs, net', a.node)
    requires PrecommitsBacked(vs, net, height) && DecisionsBacked(vs, net, height)
    ensures PrecommitsBacked(vs, net', height) && DecisionsBacked(vs, net', height)
  {
    var s, s' := net.engines[a.node], a.o.state;
    forall v, r: u32, h: Hash | SentPrecommit(net', height, r, h, v)
      ensures vs.Weight(Prevoters(vs, net', height, r, h)) >= vs.QuorumWeight()
    {
      SupportersGrow(vs, net, net', height, r, h);
      if !SentPrecommit(net, height, r, h, v) {
        SentBefore(vs, config, net, a, net', Precommit(height, r, Some(h), v));
        StepExplained(vs, config, s, a.input, a.o, SendPrecommit(height, r, Some(h)));
        RecordedPrevotes(vs, net', s', r, h);
      }
    }
    forall d | d in net'.decided && d.height == height
      ensures vs.Weight(Precommitters(vs, net', height, d.round, d.hash)) >= vs.QuorumWeight()
    {
      SupportersGrow(vs, net, net', height, d.round, d.hash);
      if d !in net.decided {
        StepExplained(vs, config, s, a.input, a.o, BlockFinalized(d.height, d.hash, d.round));
        RecordedPrecommits(vs, net', s', d.round, d.hash);
      }
    }
  }

  /** The only way to prevote against an earlier precommit is a lock from a later prevote quorum. */
  lemma {:induction false} NewPrevoteSafe(vs: ValidatorSet, config: FastPath.Config, net: Net, a: NetInput, net': Net,
                                         height: u64, r: u32, h: Hash, r': u32, h': Hash)
    requires config.optimisticThreshold == 0 && SafeWeights(vs, net.engines.Keys)
    requires NetStep(vs, config, net, a, net') && NetInv(vs, net, height)
    requires SentPrecommit(net, height, r, h, a.node) && r < r' && h != h'
    requires SendPrevote(height, r', Some(h')) in a.o.events
    ensures RuledOut(vs, net, height, r, h)
  {
    var s := net.engines[a.node];
    assert NodeInv(vs, net, a.node);
    StepExplained(vs, config, s, a.input, a.o, SendPrevote(height, r', Some(h')));
    var locked := s.rs.lockedRound.value;
    if locked == r {
      SetWeightBound(vs.validators, {});
      QuorumUnique(vs, s.rs.prevotes, r, h, h');
    } else {
      RecordedPrevotes(vs, net, s, locked, h');
      QuorumRulesOut(vs, net, height, r, h, locked, h');
    }
  }

  /** A fresh precommit is for the newest round its sender has voted in. */
  lemma {:induction false} NewPrecommitLast(vs: ValidatorSet, config: FastPath.Config, net: Net, a: NetInput, net': Net,
                                           height: u64, r: u32, h: Hash, r': u32, h': Hash)
    requires config.optimisticThreshold == 0
    requires NetStep(vs, config, net, a, net') && SentWithin(net, height)
    requires SendPrecommit(height, r, Some(h)) in a.o.events && SentPrevote(net', height, r', h', a.node)
    ensures r' <= r
  {
    var s := net.engines[a.node];
    StepExplained(vs, config, s, a.input, a.o, SendPrecommit(height, r, Some(h)));
    if !SentPrevote(net, height, r', h', a.node) {
      SentBefore(vs, config, net, a, net', Prevote(height, r', Some(h'), a.node));
      StepExplained(vs, config, s, a.input, a.o, SendPrevote(height, r', Some(h')));
    }
  }

  lemma {:induction false} SwitchSafe(vs: ValidatorSet, config: FastPath.Config, net: Net, a: NetInput, net': Net,
                                     height: u64, v: u64, r: u32, h: Hash, r': u32, h': Hash)
    requires config.optimisticThreshold == 0 && SafeWeights(vs, net.engines.Keys)
    requires NetStep(vs, config, net, a, net') && NetInv(vs, net, height)
    requires SentPrecommit(net', height, r, h, v) && SentPrevote(net', height, r', h', v) && r < r' && h != h'
    ensures RuledOut(vs, net, height, r, h)
  {
    if !SentPrecommit(net, height, r, h, v) {
      SentBefore(vs, config, net, a, net', Precommit(height, r, Some(h), v));
      NewPrecommitLast(vs, config, net, a, net', height, r, h, r', h');
    } else if !SentPrevote(net, height, r', h', v) {
      SentBefore(vs, config, net, a, net', Prevote(height, r', Some(h'), v));
      NewPrevoteSafe(vs, config, net, a, net', height, r, h, r', h');
    } else {
      assert SwitchesSafe(vs, net, height);
    }
  }

  lemma {:induction false} KeepsSwitchesSafe(vs: ValidatorSet, config: FastPath.Config, net: Net, a: NetInput,
                                             net': Net, height: u64)
    requires config.optimisticThreshold == 0 && SafeWeights(vs, net.engines.Keys)
    requires NetStep(vs, config, net, a, net') && NetInv(vs, net, height)
    ensures SwitchesSafe(vs, net', height)
  {
    assert NodeInv(vs, net, a.node);
    forall v, r: u32, h: Hash, r': u32, h': Hash |
      SentPrecommit(net', height, r, h, v) && SentPrevote(net', height, r', h', v) && r < r' && h != h'
      ensures RuledOut(vs, net', height, r, h)
    {
      SwitchSafe(vs, config, net, a, net', height, v, r, h, r', h');
      RuledOutStays(vs, config, net, a, net', height, r, h);
    }
  }

  lemma {:induction false} NetStepKeepsInv(vs: ValidatorSet, config: FastPath.Config, net: Net, a: NetInput,
                                           net': Net, height: u64)
    requires config.optimisticThreshold == 0 && SafeWeights(vs, net.engines.Keys)
    requires NetStep(vs, config, net, a, net')
    requires forall H: u64 :: NetInv(vs, net, H)
    ensures NetInv(vs, net', height)
  {
    assert NetInv(vs, net, height) && NodeInv(vs, net, a.node);
    forall H: u64 ensures SentWithin(net, H) {
      assert NetInv(vs, net, H);
    }
    forall v | v in net'.engines ensures NodeInv(vs, net', v) {
      assert NodeInv(vs, net, v);
      if v == a.node {
        StepKeepsInv(vs, config, net.engines[v], a.input, a.o);
        KeepsAuthentic(vs, config, net, a, net');
        KeepsLocks(vs, config, net, a, net');
      } else {
        KeepsOthers(vs, config, net, a, net', v);
      }
    }
    KeepsWithin(vs, config, net, a, net', height);
    KeepsOnePrecommit(vs, config, net, a, net', height);
    KeepsBacking(vs, config, net, a, net', height);
    KeepsSwitchesSafe(vs, config, net, a, net', height);
  }

  lemma {:induction false} NetRunKeepsInv(vs: ValidatorSet, config: FastPath.Config, nets: seq<Net>,
                                          actions: seq<NetInput>, i: nat)
    requires config.optimisticThreshold == 0 && IsNetRun(vs, config, nets, actions) && i < |nets|
    requires SafeWeights(vs, nets[0].engines.Keys)
    ensures nets[i].engines.Keys == nets[0].engines.Keys
    ensures forall H: u64 :: NetInv(vs, nets[i], H)
  {
    if i > 0 {
      NetRunKeepsInv(vs, config, nets, actions, i - 1);
      assert NetStep(vs, config, nets[i - 1], actions[i - 1], nets[i]);
      forall H: u64 ensures NetInv(vs, nets[i], H) {
        NetStepKeepsInv(vs, config, nets[i - 1], actions[i - 1], nets[i], H);
      }
    }
  }

  // ---- agreement ----

  /** No two decisions at one height, anywhere in the run, name different hashes. */
  ghost predicate Agrees(net: Net) {
    forall d, d' :: d in net.decided && d' in net.decided && d.height == d'.height ==> d.hash == d'.hash
  }

  lemma {:induction false} SupportHasHonest(vs: ValidatorSet, net: Net, height: u64, r: u32, h: Hash) returns (v: u64)
    requires SafeWeights(vs, net.engines.Keys)
    requires vs.Weight(Precommitters(vs, net, height, r, h)) >= vs.QuorumWeight()
    ensures SentPrecommit(net, height, r, h, v)
  {
    var byz := vs.Indices() - net.engines.Keys;
    SetWeightBound(vs.validators, Precommitters(vs, net, height, r, h));
    if Precommitters(vs, net, height, r, h) == byz {
      assert false;
    }
    v :| v in net.engines && SentPrecommit(net, height, r, h, v);
  }

  lemma {:induction false} SameRoundAgrees(vs: ValidatorSet, net: Net, height: u64, r: u32, h: Hash, h': Hash)
    requires SafeWeights(vs, net.engines.Keys) && OnePrecommit(net, height)
    requires vs.Weight(Precommitters(vs, net, height, r, h)) >= vs.QuorumWeight()
    requires vs.Weight(Precommitters(vs, net, height, r, h')) >= vs.QuorumWeight()
    ensures h == h'
  {
    var a, b := Precommitters(vs, net, height, r, h), Precommitters(vs, net, height, r, h');
    var byz := vs.Indices() - net.engines.Keys;
    SetWeightOverlap(vs.validators, a, b);
    SetWeightBound(vs.validators, a + b);
    if a * b <= byz {
      SetWeightMonotone(vs.validators, a * b, byz);
      assert false;
    }
    var v :| v in a * b && v !in byz;
    assert SentPrecommit(net, height, r, h, v) && SentPrecommit(net, height, r, h', v);
  }

  lemma {:induction false} LaterRoundAgrees(vs: ValidatorSet, net: Net, height: u64, r: u32, h: Hash, r': u32, h': Hash)
    requires SafeWeights(vs, net.engines.Keys) && NetInv(vs, net, height)
    requires vs.Weight(Precommitters(vs, net, height, r, h)) >= vs.QuorumWeight()
    requires vs.Weight(Precommitters(vs, net, height, r', h')) >= vs.QuorumWeight()
    requires r < r'
    ensures h == h'
  {
    if h != h' {
      var v := SupportHasHonest(vs, net, height, r', h');
      assert PrecommitsBacked(vs, net, height);
      QuorumRulesOut(vs, net, height, r, h, r', h');
      RuledOutHasNoQuorum(vs, net, height, r, h);
    }
  }

  /** Agreement over all runs, in the same round and across rounds. */
  lemma {:induction false} AgreementHolds(vs: ValidatorSet, config: FastPath.Config, nets: seq<Net>,
                                          actions: seq<NetInput>, i: nat)
    requires config.optimisticThreshold == 0 && IsNetRun(vs, config, nets, actions) && i < |nets|
    requires SafeWeights(vs, nets[0].engines.Keys)
    ensures Agrees(nets[i])
  {
    NetRunKeepsInv(vs, config, nets, actions, i);
    var net := nets[i];
    forall d, d' | d in net.decided && d' in net.decided && d.height == d'.height ensures d.hash == d'.hash {
      assert NetInv(vs, net, d.height);
      if d.round == d'.round {
        SameRoundAgrees(vs, net, d.height, d.round, d.hash, d'.hash);
      } else if d.round < d'.round {
        LaterRoundAgrees(vs, net, d.height, d.round, d.hash, d'.round, d'.hash);
      } else {
        LaterRoundAgrees(vs, net, d.height, d'.round, d'.hash, d.round, d.hash);
      }
    }
  }
}
