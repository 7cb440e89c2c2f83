/** Exactly when does the optimistic path agree with the prevote table? In the saturating last round a
    timeout empties the accumulator while the round, and so its prevotes, stay. */
module LastRound {
  import opened Common
  import opened Validators
  import opened Engine
  import opened EngineRuns
  import opened FastFeed
  import opened Orders
  import FastPath

  /** In every state of every run that is in round `r`, the accumulator mirrors the prevote table. */
  ghost predicate AlwaysMirrors(vs: ValidatorSet, config: FastPath.Config, r: u32) {
    forall states: seq<EngineState>, inputs: seq<Input>, events: seq<seq<Event>>, i: nat ::
      IsRun(vs, config, states, inputs, events) && i < |states| && states[i].rs.round == r ==> Mirrors(states[i])
  }

  /** Every block that a prevote of round `r` finalizes, in any run, is the only one prevoted in that round. */
  ghost predicate AlwaysUnopposed(vs: ValidatorSet, config: FastPath.Config, r: u32) {
    forall states: seq<EngineState>, inputs: seq<Input>, events: seq<seq<Event>>, i: nat, height: u64, h: Hash ::
      IsRun(vs, config, states, inputs, events) && i < |events| && inputs[i].Receive? && inputs[i].msg.Prevote?
      && BlockFinalized(height, h, r) in events[i]
      ==> Unopposed(states[i + 1].rs, h)
  }

  // ---- a threshold of one leaves nothing to forget ----

  /** No prevote of the round names a hash, unless it finalized that hash. */
  ghost predicate AtOnce(s: EngineState) {
    && !s.fast.conflict && Complete(s.rs, s.fast)
    && (s.rs.step != Committed ==> forall v: u64, h: Hash :: !VotedFor(s.rs.prevotes, s.rs.round, v, h))
  }

  lemma {:induction false} FirstAttested(rs: RoundState, fast: FastPath.Accumulated)
    requires Backed(rs, fast) && fast.attestations != []
    ensures exists v: u64, h: Hash :: VotedFor(rs.prevotes, rs.round, v, h)
  {
    var first := fast.attestations[0];
    assert VotedFor(rs.prevotes, rs.round, first.attester, first.blockHash);
  }

  /** The round's first prevote for a hash finalizes it. */
  lemma {:induction false} FirstFinalizes(config: FastPath.Config, s: EngineState, rs': RoundState, h: Hash, voter: u64)
    requires config.optimisticThreshold == 1 && FastCoupled(s.rs, s.fast) && AtOnce(s) && s.rs.step != Committed
    requires VoteAdded(s.rs, rs', Some(h), voter)
    ensures var (fast, finalized) := FastStep(config, s, Some(h), voter);
            finalized && !fast.conflict && Complete(rs', fast)
  {
    if s.fast.attestations != [] {
      FirstAttested(s.rs, s.fast);
      assert false;
    }
    var att := AttestationOf(s.rs.height, s.rs.round, h, voter);
    NewAttester(config, s.fast, att);
    var fast := FastPath.Add(config, s.fast, att).0;
    UnanimousVerdict(config, fast, att);
    assert fast.attestations[0] == att;
    forall v: u64, g: Hash | VotedFor(rs'.prevotes, rs'.round, v, g) ensures Attested(fast, v, g) {
      assert !VotedFor(s.rs.prevotes, s.rs.round, v, g);
    }
  }

  lemma {:induction false} VoteAtOnce(vs: ValidatorSet, config: FastPath.Config, s: EngineState,
                                     vote: Option<Hash>, voter: u64, o: Outcome)
    requires config.optimisticThreshold == 1 && FastCoupled(s.rs, s.fast) && AtOnce(s) && s.rs.step != Committed
    requires Prevoted(vs, config, s, vote, voter, o)
    ensures AtOnce(o.state)
  {
    if (s.rs.round, voter) !in s.rs.prevotes {
      var rs' := s.rs.(prevotes := s.rs.prevotes[(s.rs.round, voter) := vote]);
      if vote.Some? {
        FirstFinalizes(config, s, rs', vote.value, voter);
      } else {
        forall v: u64, h: Hash ensures !VotedFor(rs'.prevotes, rs'.round, v, h) {
          assert !VotedFor(s.rs.prevotes, s.rs.round, v, h);
        }
      }
    }
  }

  lemma {:induction false} StepAtOnce(vs: ValidatorSet, config: FastPath.Config, s: EngineState, input: Input,
                                      o: Outcome)
    requires config.optimisticThreshold == 1 && Inv(vs, s) && AtOnce(s) && Handles(vs, config, s, input, o)
    ensures AtOnce(o.state)
  {
    match input
    case StartHeight(_) =>
    case Timeout =>
      if s.rs.step != Committed {
        var rs' := o.state.rs;
        forall v: u64, h: Hash ensures !VotedFor(rs'.prevotes, rs'.round, v, h) {
          assert !VotedFor(s.rs.prevotes, s.rs.round, v, h);
        }
      }
    case Receive(msg) =>
      if s.rs.step != Committed && msg.height == s.rs.height && msg.round == s.rs.round {
        match msg
        case Prevote(_, _, vote, voter) => VoteAtOnce(vs, config, s, vote, voter, o);
        case Proposal(_, _, _, _) =>
        case Precommit(_, _, _, _) =>
      }
  }

  lemma {:induction false} RunAtOnce(vs: ValidatorSet, config: FastPath.Config, states: seq<EngineState>,
                                     inputs: seq<Input>, events: seq<seq<Event>>, i: nat)
    requires config.optimisticThreshold == 1 && IsRun(vs, config, states, inputs, events) && i < |states|
    ensures AtOnce(states[i])
  {
    if i > 0 {
      RunAtOnce(vs, config, states, inputs, events, i - 1);
      RunKeepsInv(vs, config, states, inputs, events, i - 1);
      StepAtOnce(vs, config, states[i - 1], inputs[i - 1], Outcome(states[i], events[i - 1]));
    }
  }

  // ---- runs that reach the last round ----

  /** Timeouts alone lead to any round. */
  lemma {:induction false} TimeoutsTo(vs: ValidatorSet, config: FastPath.Config, r: u32)
    returns (states: seq<EngineState>, inputs: seq<Input>, events: seq<seq<Event>>)
    ensures IsRun(vs, config, states, inputs, events) && states[|states| - 1] == AtRound(r)
  {
    if r == 0 {
      states, inputs, events := [Initial], [], [];
    } else {
      states, inputs, events := TimeoutsTo(vs, config, r - 1);
      var o := TimedOut(vs, AtRound(r - 1));
      ExtendRun(vs, config, states, inputs, events, Timeout, o);
      states, inputs, events := states + [o.state], inputs + [Timeout], events + [o.events];
    }
  }

  /** A prevote of the last round that a timeout has made the accumulator forget. */
  ghost predicate Forgotten(s: EngineState, voter: u64, h: Hash) {
    && s.rs.height == 0 && s.rs.round == U32_MAX && s.rs.step != Committed && s.fast == FastPath.Empty
    && s.rs.prevotes == map[(U32_MAX, voter) := Some(h)]
  }

  lemma {:induction false} ForgetVote(vs: ValidatorSet, config: FastPath.Config)
    returns (states: seq<EngineState>, inputs: seq<Input>, events: seq<seq<Event>>)
    requires config.optimisticThreshold != 1
    ensures IsRun(vs, config, states, inputs, events) && Forgotten(states[|states| - 1], 0, 0)
  {
    states, inputs, events := TimeoutsTo(vs, config, U32_MAX);
    var o := FeedVote(vs, config, AtRound(U32_MAX), U32_MAX, 0, [0], 0);
    var input := NextVote(U32_MAX, 0, [0], 0);
    ExtendRun(vs, config, states, inputs, events, input, o);
    states, inputs, events := states + [o.state], inputs + [input], events + [o.events];
    var o' := TimedOut(vs, o.state);
    ExtendRun(vs, config, states, inputs, events, Timeout, o');
    states, inputs, events := states + [o'.state], inputs + [Timeout], events + [o'.events];
  }

  lemma {:induction false} FeedRun(vs: ValidatorSet, config: FastPath.Config, states: seq<EngineState>,
                                   inputs: seq<Input>, events: seq<seq<Event>>,
                                   r: u32, h: Hash, voters: seq<u64>, k: nat, other: u64, g: Hash)
    returns (states': seq<EngineState>, inputs': seq<Input>, events': seq<seq<Event>>)
    requires IsRun(vs, config, states, inputs, events)
    requires Distinct(voters) && k <= |voters| && k < config.optimisticThreshold
    requires Fed(states[|states| - 1], r, h, voters, 0)
    requires other !in voters && VotedFor(states[|states| - 1].rs.prevotes, r, other, g)
    ensures IsRun(vs, config, states', inputs', events')
    ensures Fed(states'[|states'| - 1], r, h, voters, k)
    ensures VotedFor(states'[|states'| - 1].rs.prevotes, r, other, g)
  {
    states', inputs', events' := states, inputs, events;
    if k > 0 {
      states', inputs', events' := FeedRun(vs, config, states, inputs, events, r, h, voters, k - 1, other, g);
      var o := FeedVote(vs, config, states'[|states'| - 1], r, h, voters, k - 1);
      var input := NextVote(r, h, voters, k - 1);
      ExtendRun(vs, config, states', inputs', events', input, o);
      states', inputs', events' := states' + [o.state], inputs' + [input], events' + [o.events];
    }
  }

  // ---- the exact conditions ----

  /** The accumulator mirrors the prevotes of round `r` in all runs exactly below the last round, or
      when a single prevote finalizes. */
  lemma {:induction false} MirrorIff(vs: ValidatorSet, config: FastPath.Config, r: u32)
    ensures AlwaysMirrors(vs, config, r) <==> r < U32_MAX || config.optimisticThreshold == 1
  {
    if r < U32_MAX || config.optimisticThreshold == 1 {
      forall states: seq<EngineState>, inputs: seq<Input>, events: seq<seq<Event>>, i: nat |
        IsRun(vs, config, states, inputs, events) && i < |states| && states[i].rs.round == r
        ensures Mirrors(states[i])
      {
        if r < U32_MAX {
          FastPathMirrorsVotes(vs, config, states, inputs, events, i);
        } else {
          RunKeepsInv(vs, config, states, inputs, events, i);
          RunAtOnce(vs, config, states, inputs, events, i);
          CompleteMirrors(states[i]);
        }
      }
    } else {
      var states, inputs, events := ForgetVote(vs, config);
      var s := states[|states| - 1];
      assert VotedFor(s.rs.prevotes, s.rs.round, 0, 0) && !Attested(s.fast, 0, 0);
      assert !Mirrors(s);
    }
  }

  /** The prevote that completes the threshold finalizes 1, whoever has prevoted 0. */
  lemma {:induction false} FinishOpposed(vs: ValidatorSet, config: FastPath.Config, states: seq<EngineState>,
                                        inputs: seq<Input>, events: seq<seq<Event>>, voters: seq<u64>)
    requires IsRun(vs, config, states, inputs, events)
    requires 0 < |voters| == config.optimisticThreshold && Distinct(voters) && 0 !in voters
    requires Fed(states[|states| - 1], U32_MAX, 1, voters, |voters| - 1)
    requires VotedFor(states[|states| - 1].rs.prevotes, U32_MAX, 0, 0)
    ensures !AlwaysUnopposed(vs, config, U32_MAX)
  {
    var s, k, i := states[|states| - 1], |voters| - 1, |inputs|;
    var input := NextVote(U32_MAX, 1, voters, k);
    var o := FeedVote(vs, config, s, U32_MAX, 1, voters, k);
    ExtendRun(vs, config, states, inputs, events, input, o);
    var states', inputs', events' := states + [o.state], inputs + [input], events + [o.events];
    assert states'[i + 1] == o.state && inputs'[i] == input;
    assert BlockFinalized(0, 1, U32_MAX) in events'[i];
    assert VotedFor(o.state.rs.prevotes, U32_MAX, 0, 0);
    assert !Unopposed(states'[i + 1].rs, 1);
  }

  /** Two prevotes for different hashes in the last round, the second one fast-finalized. */
  lemma {:induction false} OpposedFinalization(vs: ValidatorSet, config: FastPath.Config)
    requires config.optimisticThreshold > 1
    ensures !AlwaysUnopposed(vs, config, U32_MAX)
  {
    var states, inputs, events := ForgetVote(vs, config);
    var n := config.optimisticThreshold;
    var voters: seq<u64> := seq(n, i requires 0 <= i < n => i + 1);
    states, inputs, events := FeedRun(vs, config, states, inputs, events, U32_MAX, 1, voters, n - 1, 0, 0);
    FinishOpposed(vs, config, states, inputs, events, voters);
  }

  /** A fast finalization of round `r` is unopposed in all runs exactly below the last round, or when
      no earlier prevote can have been forgotten. */
  lemma {:induction false} UnopposedIff(vs: ValidatorSet, config: FastPath.Config, r: u32)
    ensures AlwaysUnopposed(vs, config, r) <==> r < U32_MAX || config.optimisticThreshold <= 1
  {
    if r < U32_MAX || config.optimisticThreshold <= 1 {
      forall states: seq<EngineState>, inputs: seq<Input>, events: seq<seq<Event>>, i: nat, height: u64, h: Hash |
        IsRun(vs, config, states, inputs, events) && i < |events| && inputs[i].Receive? && inputs[i].msg.Prevote?
        && BlockFinalized(height, h, r) in events[i]
        ensures Unopposed(states[i + 1].rs, h)
      {
        FastEventUnopposed(vs, config, states, inputs, events, i, height, h, r);
      }
    } else {
      OpposedFinalization(vs, config);
    }
  }

  lemma {:induction false} FastEventUnopposed(vs: ValidatorSet, config: FastPath.Config, states: seq<EngineState>,
                                              inputs: seq<Input>, events: seq<seq<Event>>, i: nat, height: u64,
                                              h: Hash, r: u32)
    requires r < U32_MAX || config.optimisticThreshold <= 1
    requires IsRun(vs, config, states, inputs, events) && i < |events|
    requires inputs[i].Receive? && inputs[i].msg.Prevote? && BlockFinalized(height, h, r) in events[i]
    ensures Unopposed(states[i + 1].rs, h)
  {
    var s, msg, s' := states[i], inputs[i].msg, states[i + 1];
    RunKeepsInv(vs, config, states, inputs, events, i);
    assert Handles(vs, config, s, inputs[i], Outcome(s', events[i]));
    var (fast', outcome) := FastPath.Add(config, s.fast, AttestationOf(s.rs.height, s.rs.round, h, msg.voter));
    FinalizedHash(config, s.rs, s.fast, AttestationOf(s.rs.height, s.rs.round, h, msg.voter), fast',
                  outcome.value.proof);
    var rs' := s.rs.(prevotes := s'.rs.prevotes);
    FastFinalizationJustified(config, s, h, msg.voter, rs', fast', outcome.value.proof);
    if r == U32_MAX {
      RunAtOnce(vs, config, states, inputs, events, i + 1);
      RunKeepsInv(vs, config, states, inputs, events, i + 1);
      forall v: u64, g: Hash | VotedFor(s'.rs.prevotes, r, v, g) ensures g == h {
        assert Attested(s'.fast, v, g);
      }
    }
  }
}
