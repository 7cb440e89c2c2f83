/** What an engine answers to each input, told from its votes, its lock and its position alone. */
module Reactions {
  import opened Common
  import opened Validators
  import opened Engine
  import opened EngineRuns
  import FastPath
  import Orders

  /** A message for the current height and round of an engine that has not committed. */
  ghost predicate Current(s: EngineState, height: u64, round: u32) {
    s.rs.step != Committed && s.rs.height == height && s.rs.round == round
  }

  /** Step `i` of a run. */
  lemma {:induction false} StepOf(vs: ValidatorSet, config: FastPath.Config, states: seq<EngineState>,
                                  inputs: seq<Input>, events: seq<seq<Event>>, i: nat)
    requires IsRun(vs, config, states, inputs, events) && i < |events|
    ensures Handles(vs, config, states[i], inputs[i], Outcome(states[i + 1], events[i]))
    ensures Inv(vs, states[i])
  {
    RunKeepsInv(vs, config, states, inputs, events, i);
  }

  // ---- proposals ----

  /** An engine prevotes exactly in answer to a proposal of the current round's leader, and then once: for
      the hash it is locked on, if any, and otherwise for the proposed one. */
  lemma {:induction false} PrevotesAnswerLeader(vs: ValidatorSet, config: FastPath.Config, states: seq<EngineState>,
                                                inputs: seq<Input>, events: seq<seq<Event>>, i: nat,
                                                height: u64, round: u32, vote: Option<Hash>)
    requires IsRun(vs, config, states, inputs, events) && i < |events|
    ensures SendPrevote(height, round, vote) in events[i] <==>
            exists h: Hash ::
              && inputs[i] == Receive(Proposal(height, round, h, vs.LeaderForRound(height, round)))
              && Current(states[i], height, round)
              && vote == if states[i].rs.lockedHash.Some? then states[i].rs.lockedHash else Some(h)
    ensures SendPrevote(height, round, vote) in events[i] ==> events[i] == [SendPrevote(height, round, vote)]
  {
    StepOf(vs, config, states, inputs, events, i);
    if SendPrevote(height, round, vote) in events[i] {
      assert inputs[i].msg.Proposal?;
      assert inputs[i] == Receive(Proposal(height, round, inputs[i].msg.hash, vs.LeaderForRound(height, round)));
    }
  }

  // ---- rounds ----

  /** A round times out exactly on a timeout of an engine that has not committed. */
  lemma {:induction false} RoundTimeoutsAnswerTimeouts(vs: ValidatorSet, config: FastPath.Config,
                                                       states: seq<EngineState>, inputs: seq<Input>,
                                                       events: seq<seq<Event>>, i: nat, height: u64, round: u32)
    requires IsRun(vs, config, states, inputs, events) && i < |events|
    ensures RoundTimeout(height, round) in events[i] <==> inputs[i] == Timeout && Current(states[i], height, round)
    ensures RoundTimeout(height, round) in events[i] ==>
              states[i + 1].rs.round == (if round == 0xFFFF_FFFF then round else round + 1)
  {
    StepOf(vs, config, states, inputs, events, i);
  }

  /** A proposal is asked for exactly when a height starts and when a round times out, from the leader
      of the round that follows. */
  lemma {:induction false} ProposalsAskedOnEntry(vs: ValidatorSet, config: FastPath.Config,
                                                 states: seq<EngineState>, inputs: seq<Input>,
                                                 events: seq<seq<Event>>, i: nat,
                                                 height: u64, round: u32, leader: u64)
    requires IsRun(vs, config, states, inputs, events) && i < |events|
    ensures NeedProposal(height, round, leader) in events[i] <==>
            && leader == vs.LeaderForRound(height, round)
            && states[i + 1].rs.height == height && states[i + 1].rs.round == round
            && (inputs[i] == StartHeight(height)
                || (inputs[i] == Timeout && Current(states[i], height, states[i].rs.round)))
  {
    StepOf(vs, config, states, inputs, events, i);
  }

  /** Height, round and step after each input. */
  lemma {:induction false} PositionAfter(vs: ValidatorSet, config: FastPath.Config, states: seq<EngineState>,
                                         inputs: seq<Input>, events: seq<seq<Event>>, i: nat)
    requires IsRun(vs, config, states, inputs, events) && i < |events|
    ensures var s, s' := states[i].rs, states[i + 1].rs;
            && (forall H: u64 :: inputs[i] == StartHeight(H) ==> s'.height == H && s'.round == 0 && s'.step == Propose)
            && (!inputs[i].StartHeight? ==> s'.height == s.height)
            && (!inputs[i].StartHeight? && !inputs[i].Timeout? ==> s'.round == s.round)
            && (inputs[i].Timeout? && s.step != Committed ==> s'.step == Propose)
            && (s'.step == Committed <==>
                  !inputs[i].StartHeight? && (s.step == Committed || exists e :: e in events[i] && e.BlockFinalized?))
  {
    StepOf(vs, config, states, inputs, events, i);
    var s, s' := states[i].rs, states[i + 1].rs;
    if s.step != Committed && s'.step == Committed {
      assert events[i][0].BlockFinalized? && events[i][0] in events[i];
    }
  }

  // ---- recorded votes ----

  /** The prevote is the first of its voter for the current height and round. */
  ghost predicate NewPrevote(s: EngineState, input: Input) {
    && input.Receive? && input.msg.Prevote? && Current(s, input.msg.height, input.msg.round)
    && (input.msg.round, input.msg.voter) !in s.rs.prevotes
  }

  ghost predicate NewPrecommit(s: EngineState, input: Input) {
    && input.Receive? && input.msg.Precommit? && Current(s, input.msg.height, input.msg.round)
    && (input.msg.round, input.msg.voter) !in s.rs.precommits
  }

  lemma {:induction false} StepVotes(vs: ValidatorSet, config: FastPath.Config, s: EngineState, input: Input,
                                     o: Outcome)
    requires Handles(vs, config, s, input, o) && !input.StartHeight?
    ensures o.state.rs.prevotes == if NewPrevote(s, input)
                                   then s.rs.prevotes[(s.rs.round, input.msg.voter) := input.msg.blockHash]
                                   else s.rs.prevotes
    ensures o.state.rs.precommits == if NewPrecommit(s, input)
                                     then s.rs.precommits[(s.rs.round, input.msg.voter) := input.msg.blockHash]
                                     else s.rs.precommits
  {
  }

  /** The prevote table gains exactly the first vote of each voter for the current height and round. */
  lemma {:induction false} PrevotesRecorded(vs: ValidatorSet, config: FastPath.Config, states: seq<EngineState>,
                                            inputs: seq<Input>, events: seq<seq<Event>>, i: nat, r: u32, v: u64,
                                            vote: Option<Hash>)
    requires IsRun(vs, config, states, inputs, events) && i < |events|
    ensures var s, s' := states[i].rs, states[i + 1].rs;
            (r, v) in s'.prevotes && s'.prevotes[(r, v)] == vote <==>
            && !inputs[i].StartHeight?
            && (((r, v) in s.prevotes && s.prevotes[(r, v)] == vote)
                || ((r, v) !in s.prevotes && inputs[i] == Receive(Prevote(s.height, r, vote, v))
                    && Current(states[i], s.height, r)))
  {
    StepOf(vs, config, states, inputs, events, i);
    if !inputs[i].StartHeight? {
      StepVotes(vs, config, states[i], inputs[i], Outcome(states[i + 1], events[i]));
    }
  }

  /** And so does the precommit table. */
  lemma {:induction false} PrecommitsRecorded(vs: ValidatorSet, config: FastPath.Config, states: seq<EngineState>,
                                              inputs: seq<Input>, events: seq<seq<Event>>, i: nat, r: u32, v: u64,
                                              vote: Option<Hash>)
    requires IsRun(vs, config, states, inputs, events) && i < |events|
    ensures var s, s' := states[i].rs, states[i + 1].rs;
            (r, v) in s'.precommits && s'.precommits[(r, v)] == vote <==>
            && !inputs[i].StartHeight?
            && (((r, v) in s.precommits && s.precommits[(r, v)] == vote)
                || ((r, v) !in s.precommits && inputs[i] == Receive(Precommit(s.height, r, vote, v))
                    && Current(states[i], s.height, r)))
  {
    StepOf(vs, config, states, inputs, events, i);
    if !inputs[i].StartHeight? {
      StepVotes(vs, config, states[i], inputs[i], Outcome(states[i + 1], events[i]));
    }
  }

  /** A leader's proposal is recorded under its round; the table is emptied when a height starts. */
  lemma {:induction false} ProposalsRecorded(vs: ValidatorSet, config: FastPath.Config, states: seq<EngineState>,
                                             inputs: seq<Input>, events: seq<seq<Event>>, i: nat, r: u32)
    requires IsRun(vs, config, states, inputs, events) && i < |events|
    ensures var s, s' := states[i].rs, states[i + 1].rs;
            var heard := && inputs[i].Receive? && inputs[i].msg.Proposal?
                         && Current(states[i], inputs[i].msg.height, r) && inputs[i].msg.round == r
                         && inputs[i].msg.proposer == vs.LeaderForRound(s.height, r);
            && (heard ==> r in s'.proposals && s'.proposals[r] == inputs[i].msg.hash && s'.step == Prevoting)
            && (!heard && !inputs[i].StartHeight? ==>
                  (r in s'.proposals <==> r in s.proposals) && (r in s.proposals ==> s'.proposals[r] == s.proposals[r]))
            && (inputs[i].StartHeight? ==> r !in s'.proposals)
  {
    StepOf(vs, config, states, inputs, events, i);
  }

  // ---- finalization ----

  /** The voters on record for a hash, without the accumulator. */
  lemma {:induction false} CountIsVoters(rs: RoundState, fast: FastPath.Accumulated, h: Hash)
    requires Backed(rs, fast) && Complete(rs, fast) && fast.roundHash == Some(h)
    ensures FastPath.CountFor(fast.attestations, h) == |Voters(rs.prevotes, rs.round, h)|
  {
    ListedVoters(rs, fast, h);
    CountAll(fast.attestations, h);
    var listed := FastPath.AttestersFor(fast.attestations, h);
    var voters := Voters(rs.prevotes, rs.round, h);
    Orders.DistinctSize(listed);
    forall v: u64 | v in voters ensures v in Orders.Elements(listed) {
      assert VotedFor(rs.prevotes, rs.round, v, h);
      assert Attested(fast, v, h);
      var i :| 0 <= i < |fast.attestations| && fast.attestations[i].attester == v;
      assert listed[i] == v;
    }
    SubsetSize(voters, Orders.Elements(listed));
  }

  /** Below the last round, a newly recorded prevote for `h` finalizes at once exactly when the fast path is
      on, nobody has prevoted another hash this round, and the voters for `h` reach the threshold. */
  lemma {:induction false} FastFinalizesIff(vs: ValidatorSet, config: FastPath.Config, s: EngineState,
                                            h: Hash, voter: u64, rs': RoundState)
    requires Inv(vs, s) && s.rs.round < U32_MAX && VoteAdded(s.rs, rs', Some(h), voter)
    ensures FastStep(config, s, Some(h), voter).1 <==>
            && (forall v: u64, g: Hash :: VotedFor(rs'.prevotes, rs'.round, v, g) ==> g == h)
            && 0 < config.optimisticThreshold <= |Voters(rs'.prevotes, rs'.round, h)|
  {
    var att := AttestationOf(s.rs.height, s.rs.round, h, voter);
    CoupledAfterVote(config, s, rs', Some(h), voter);
    var (fast', outcome) := FastPath.Add(config, s.fast, att);
    assert VotedFor(rs'.prevotes, rs'.round, voter, h);
    if s.fast.conflict {
      assert fast'.conflict;
    } else {
      forall i | 0 <= i < |s.fast.attestations| ensures s.fast.attestations[i].attester != voter {
        assert VotedFor(s.rs.prevotes, s.rs.round, s.fast.attestations[i].attester, s.fast.attestations[i].blockHash);
      }
      NewAttester(config, s.fast, att);
      if !fast'.conflict {
        CountIsVoters(rs', fast', h);
        forall v: u64, g: Hash | VotedFor(rs'.prevotes, rs'.round, v, g) ensures g == h {
          assert Attested(fast', v, g);
        }
      }
    }
  }

  /** A block is finalized exactly by a new prevote that completes the fast path or a new precommit that
      completes a quorum, and it is the block so supported. */
  lemma {:induction false} FinalizedIff(vs: ValidatorSet, config: FastPath.Config, states: seq<EngineState>,
                                        inputs: seq<Input>, events: seq<seq<Event>>, i: nat,
                                        height: u64, h: Hash, round: u32)
    requires 2 * vs.QuorumWeight() > vs.ExactTotal() && round < U32_MAX
    requires IsRun(vs, config, states, inputs, events) && i < |events|
    ensures var s, s', input := states[i], states[i + 1], inputs[i];
            BlockFinalized(height, h, round) in events[i] <==>
            && Current(s, height, round)
            && ((NewPrevote(s, input) && input.msg.blockHash == Some(h)
                 && Unopposed(s'.rs, h)
                 && 0 < config.optimisticThreshold <= |Voters(s'.rs.prevotes, round, h)|)
                || (NewPrecommit(s, input) && HasQuorum(vs, s'.rs.precommits, round, h)))
  {
    StepOf(vs, config, states, inputs, events, i);
    var s, s', input := states[i], states[i + 1], inputs[i];
    if NewPrevote(s, input) {
      var rs' := s.rs.(prevotes := s.rs.prevotes[(s.rs.round, input.msg.voter) := input.msg.blockHash]);
      if s.rs.round == round && input.msg.blockHash.Some? {
        FastFinalizesIff(vs, config, s, input.msg.blockHash.value, input.msg.voter, rs');
      }
    } else if NewPrecommit(s, input) {
      PickUnique(vs, s'.rs.precommits, s.rs.round);
      if HasQuorum(vs, s'.rs.precommits, s.rs.round, h) {
        assert QuorumPick(vs, s'.rs.precommits, s.rs.round, Some(h));
      }
    }
  }

  // ---- locks ----

  /** A new prevote that finalizes nothing and completes a quorum locks its hash, and is answered by a
      precommit unless that very lock has been precommitted already; nothing else is. */
  lemma {:induction false} LockAndPrecommitIff(vs: ValidatorSet, config: FastPath.Config, states: seq<EngineState>,
                                               inputs: seq<Input>, events: seq<seq<Event>>, i: nat,
                                               height: u64, round: u32, vote: Option<Hash>)
    requires 2 * vs.QuorumWeight() > vs.ExactTotal()
    requires IsRun(vs, config, states, inputs, events) && i < |events|
    ensures var s, s', input := states[i], states[i + 1], inputs[i];
            SendPrecommit(height, round, vote) in events[i] <==>
            && Current(s, height, round) && NewPrevote(s, input) && s'.rs.step != Committed
            && vote.Some? && HasQuorum(vs, s'.rs.prevotes, round, vote.value)
            && !(s.rs.step == Precommitting && s.rs.lockedHash == vote && s.rs.lockedRound == Some(round))
  {
    StepOf(vs, config, states, inputs, events, i);
    var s, s', input := states[i], states[i + 1], inputs[i];
    if NewPrevote(s, input) {
      PickUnique(vs, s'.rs.prevotes, s.rs.round);
      if vote.Some? && HasQuorum(vs, s'.rs.prevotes, s.rs.round, vote.value) {
        assert QuorumPick(vs, s'.rs.prevotes, s.rs.round, vote);
      }
    }
  }

  /** The lock after each input. */
  lemma {:induction false} LockAfter(vs: ValidatorSet, config: FastPath.Config, states: seq<EngineState>,
                                     inputs: seq<Input>, events: seq<seq<Event>>, i: nat, h: Hash)
    requires 2 * vs.QuorumWeight() > vs.ExactTotal()
    requires IsRun(vs, config, states, inputs, events) && i < |events|
    ensures var s, s', input := states[i].rs, states[i + 1].rs, inputs[i];
            var locks := NewPrevote(states[i], input) && s'.step != Committed
                         && HasQuorum(vs, s'.prevotes, s.round, h);
            && (locks ==> s'.lockedRound == Some(s.round) && s'.lockedHash == Some(h) && s'.step == Precommitting)
            && (input.StartHeight? ==> s'.lockedRound == None && s'.lockedHash == None)
            && (!input.StartHeight? && (s'.lockedRound, s'.lockedHash) != (s.lockedRound, s.lockedHash) ==>
                  && NewPrevote(states[i], input) && s'.lockedRound == Some(s.round) && s'.lockedHash.Some?
                  && HasQuorum(vs, s'.prevotes, s.round, s'.lockedHash.value))
  {
    StepOf(vs, config, states, inputs, events, i);
    var s, s', input := states[i].rs, states[i + 1].rs, inputs[i];
    if NewPrevote(states[i], input) {
      PickUnique(vs, s'.prevotes, s.round);
      if HasQuorum(vs, s'.prevotes, s.round, h) {
        assert QuorumPick(vs, s'.prevotes, s.round, Some(h));
      }
    }
  }
}
