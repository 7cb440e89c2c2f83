/** What every run of a single engine keeps: justified locks and commits, and a fast path that
    mirrors the prevote table. */
module EngineRuns {
  import opened Common
  import opened Validators
  import opened Engine
  import FastPath
  import Orders

  const Initial := EngineState(FreshState(0), FastPath.Empty)

  /** A new engine after `r` timeouts. */
  function AtRound(r: u32): EngineState {
    EngineState(FreshState(0).(round := r), FastPath.Empty)
  }

  /** A finite run: `states[i]` reacts to `inputs[i]` by emitting `events[i]`. */
  ghost predicate IsRun(vs: ValidatorSet, config: FastPath.Config, states: seq<EngineState>,
                        inputs: seq<Input>, events: seq<seq<Event>>)
  {
    && |states| == |inputs| + 1 == |events| + 1
    && states[0] == Initial
    && forall i :: 0 <= i < |inputs| ==> Handles(vs, config, states[i], inputs[i], Outcome(states[i + 1], events[i]))
  }

  /** A run can be continued by any possible reaction. */
  lemma {:induction false} ExtendRun(vs: ValidatorSet, config: FastPath.Config, states: seq<EngineState>,
                                    inputs: seq<Input>, events: seq<seq<Event>>, input: Input, o: Outcome)
    requires IsRun(vs, config, states, inputs, events)
    requires Handles(vs, config, states[|states| - 1], input, o)
    ensures IsRun(vs, config, states + [o.state], inputs + [input], events + [o.events])
  {
    var states', inputs', events' := states + [o.state], inputs + [input], events + [o.events];
    forall i | 0 <= i < |inputs'|
      ensures Handles(vs, config, states'[i], inputs'[i], Outcome(states'[i + 1], events'[i]))
    {
      if i < |inputs| {
        assert Handles(vs, config, states[i], inputs[i], Outcome(states[i + 1], events[i]));
      }
    }
  }

  // ---- the invariant ----

  ghost predicate VotesWithin(votes: Votes, round: u32) {
    forall k :: k in votes ==> k.0 <= round
  }

  /** A lock names a hash whose prevote quorum is on record, from no later than the current round. */
  ghost predicate LockJustified(vs: ValidatorSet, rs: RoundState) {
    && (rs.lockedHash.Some? <==> rs.lockedRound.Some?)
    && (rs.lockedRound.Some? ==>
          && rs.lockedRound.value <= rs.round
          && HasQuorum(vs, rs.prevotes, rs.lockedRound.value, rs.lockedHash.value))
  }

  ghost predicate VotedFor(votes: Votes, r: u32, voter: u64, h: Hash) {
    (r, voter) in votes && votes[(r, voter)] == Some(h)
  }

  /** This round's prevotes name two different hashes. */
  ghost predicate Divided(rs: RoundState) {
    exists v: u64, h: Hash, v': u64, h': Hash ::
      VotedFor(rs.prevotes, rs.round, v, h) && VotedFor(rs.prevotes, rs.round, v', h') && h != h'
  }

  ghost predicate Attested(fast: FastPath.Accumulated, voter: u64, h: Hash) {
    exists i :: 0 <= i < |fast.attestations| && fast.attestations[i].attester == voter
                && fast.attestations[i].blockHash == h
  }

  /** Every attestation is a recorded prevote of this round, one per voter, all for one hash. */
  ghost predicate Backed(rs: RoundState, fast: FastPath.Accumulated) {
    var atts := fast.attestations;
    && (forall i, j :: 0 <= i < j < |atts| ==> atts[i].attester != atts[j].attester)
    && (fast.roundHash.None? <==> atts == [])
    && (forall i :: 0 <= i < |atts| ==>
          && Some(atts[i].blockHash) == fast.roundHash
          && VotedFor(rs.prevotes, rs.round, atts[i].attester, atts[i].blockHash))
  }

  /** Nothing is missing: every non-nil prevote of this round was attested. */
  ghost predicate Complete(rs: RoundState, fast: FastPath.Accumulated) {
    forall v: u64, h: Hash :: VotedFor(rs.prevotes, rs.round, v, h) ==> Attested(fast, v, h)
  }

  ghost predicate FastCoupled(rs: RoundState, fast: FastPath.Accumulated) {
    && (fast.roundStartMs.Some? ==> fast.roundStartMs.value == ReceivedAt(rs.height, rs.round))
    && (fast.conflict ==> Divided(rs))
    && (!fast.conflict ==> Backed(rs, fast))
    && (!fast.conflict && rs.round < U32_MAX ==> Complete(rs, fast))
  }

  ghost predicate Inv(vs: ValidatorSet, s: EngineState) {
    && VotesWithin(s.rs.prevotes, s.rs.round) && VotesWithin(s.rs.precommits, s.rs.round)
    && LockJustified(vs, s.rs)
    && FastCoupled(s.rs, s.fast)
  }

  // ---- one step ----

  lemma {:induction false} QuorumKept(vs: ValidatorSet, votes: Votes, key: (u32, u64), vote: Option<Hash>, r: u32,
                                      h: Hash)
    requires key !in votes && HasQuorum(vs, votes, r, h)
    ensures HasQuorum(vs, votes[key := vote], r, h)
  {
    VotersInsert(votes, key, vote, r, h);
    SetWeightMonotone(vs.validators, Voters(votes, r, h), Voters(votes[key := vote], r, h));
  }

  /** The effect of a newcomer's attestation on an unconflicted accumulator that has not timed out. */
  lemma {:induction false} NewAttester(config: FastPath.Config, fast: FastPath.Accumulated, att: FastPath.Attestation)
    requires !fast.conflict
    requires fast.roundStartMs.Some? ==> fast.roundStartMs.value == att.receivedAtMs
    requires forall i :: 0 <= i < |fast.attestations| ==> fast.attestations[i].attester != att.attester
    ensures var fast' := FastPath.Add(config, fast, att).0;
            && fast'.attestations == fast.attestations + [att]
            && fast'.roundStartMs == Some(att.receivedAtMs)
            && fast'.conflict == (fast.roundHash.Some? && fast.roundHash.value != att.blockHash)
            && (!fast'.conflict ==> fast'.roundHash == Some(att.blockHash))
            && FastPath.Add(config, fast, att).1 == FastPath.Verdict(config, fast', att)
  {
    assert FastPath.Find(fast.attestations, att.attester) == |fast.attestations|;
  }

  ghost predicate VoteAdded(rs: RoundState, rs': RoundState, vote: Option<Hash>, voter: u64) {
    (rs.round, voter) !in rs.prevotes && rs' == rs.(prevotes := rs.prevotes[(rs.round, voter) := vote])
  }

  lemma {:induction false} BackedAfterVote(rs: RoundState, rs': RoundState, fast: FastPath.Accumulated,
                                           fast': FastPath.Accumulated, h: Hash, voter: u64,
                                           att: FastPath.Attestation)
    requires Backed(rs, fast) && VoteAdded(rs, rs', Some(h), voter) && att.blockHash == h && att.attester == voter
    requires fast'.attestations == fast.attestations + [att]
    requires fast.roundHash == None || fast.roundHash == Some(h)
    requires fast'.roundHash == Some(h)
    ensures Backed(rs', fast')
    ensures Complete(rs, fast) ==> Complete(rs', fast')
  {
    forall i | 0 <= i < |fast'.attestations|
      ensures VotedFor(rs'.prevotes, rs'.round, fast'.attestations[i].attester, fast'.attestations[i].blockHash)
    {
      if i < |fast.attestations| {
        assert VotedFor(rs.prevotes, rs.round, fast.attestations[i].attester, fast.attestations[i].blockHash);
      }
    }
    if Complete(rs, fast) {
      forall v: u64, g: Hash | VotedFor(rs'.prevotes, rs'.round, v, g) ensures Attested(fast', v, g) {
        if v == voter {
          assert fast'.attestations[|fast.attestations|] == att;
        } else {
          assert VotedFor(rs.prevotes, rs.round, v, g);
          var i :| 0 <= i < |fast.attestations| && fast.attestations[i].attester == v
                   && fast.attestations[i].blockHash == g;
          assert fast'.attestations[i] == fast.attestations[i];
        }
      }
    }
  }

  lemma {:induction false} DividedKept(rs: RoundState, rs': RoundState, vote: Option<Hash>, voter: u64)
    requires VoteAdded(rs, rs', vote, voter) && Divided(rs)
    ensures Divided(rs')
  {
    var v: u64, h: Hash, v': u64, h': Hash :|
      VotedFor(rs.prevotes, rs.round, v, h) && VotedFor(rs.prevotes, rs.round, v', h') && h != h';
    assert VotedFor(rs'.prevotes, rs.round, v, h) && VotedFor(rs'.prevotes, rs.round, v', h');
  }

  lemma {:induction false} CoupledAfterNil(rs: RoundState, rs': RoundState, fast: FastPath.Accumulated, voter: u64)
    requires FastCoupled(rs, fast) && VoteAdded(rs, rs', None, voter)
    ensures FastCoupled(rs', fast)
  {
    if fast.conflict {
      DividedKept(rs, rs', None, voter);
    } else {
      forall i | 0 <= i < |fast.attestations|
        ensures VotedFor(rs'.prevotes, rs'.round, fast.attestations[i].attester, fast.attestations[i].blockHash)
      {
        assert VotedFor(rs.prevotes, rs.round, fast.attestations[i].attester, fast.attestations[i].blockHash);
      }
      assert forall v: u64, h: Hash :: VotedFor(rs'.prevotes, rs.round, v, h) ==> VotedFor(rs.prevotes, rs.round, v, h);
    }
  }

  /** Recording one prevote of the current round keeps the accumulator coupled to the table. */
  lemma {:induction false} CoupledAfterVote(config: FastPath.Config, s: EngineState, rs': RoundState,
                                            vote: Option<Hash>, voter: u64)
    requires FastCoupled(s.rs, s.fast) && VoteAdded(s.rs, rs', vote, voter)
    ensures FastCoupled(rs', FastStep(config, s, vote, voter).0)
  {
    var rs, fast := s.rs, s.fast;
    if vote.None? {
      CoupledAfterNil(rs, rs', fast, voter);
    } else if fast.conflict {
      DividedKept(rs, rs', vote, voter);
    } else {
      var h := vote.value;
      var att := AttestationOf(rs.height, rs.round, h, voter);
      forall i | 0 <= i < |fast.attestations| ensures fast.attestations[i].attester != voter {
        assert VotedFor(rs.prevotes, rs.round, fast.attestations[i].attester, fast.attestations[i].blockHash);
      }
      NewAttester(config, fast, att);
      var fast' := FastPath.Add(config, fast, att).0;
      if fast'.conflict {
        var first := fast.attestations[0];
        assert VotedFor(rs.prevotes, rs.round, first.attester, first.blockHash);
        assert VotedFor(rs'.prevotes, rs'.round, first.attester, first.blockHash);
        assert VotedFor(rs'.prevotes, rs'.round, voter, h);
      } else {
        BackedAfterVote(rs, rs', fast, fast', h, voter, att);
      }
    }
  }

  lemma {:induction false} InvAfterPrevote(vs: ValidatorSet, config: FastPath.Config, s: EngineState,
                                          vote: Option<Hash>, voter: u64, o: Outcome)
    requires Inv(vs, s) && Prevoted(vs, config, s, vote, voter, o)
    ensures Inv(vs, o.state)
  {
    var rs := s.rs;
    var key := (rs.round, voter);
    if key !in rs.prevotes {
      CoupledAfterVote(config, s, rs.(prevotes := rs.prevotes[key := vote]), vote, voter);
      if rs.lockedRound.Some? {
        QuorumKept(vs, rs.prevotes, key, vote, rs.lockedRound.value, rs.lockedHash.value);
      }
    }
  }

  /** Every input keeps the invariant. */
  lemma {:induction false} StepKeepsInv(vs: ValidatorSet, config: FastPath.Config, s: EngineState, input: Input,
                                        o: Outcome)
    requires Inv(vs, s) && Handles(vs, config, s, input, o)
    ensures Inv(vs, o.state)
  {
    match input
    case StartHeight(_) =>
    case Timeout =>
    case Receive(msg) =>
      if s.rs.step != Committed && msg.height == s.rs.height && msg.round == s.rs.round {
        match msg
        case Prevote(_, _, vote, voter) => InvAfterPrevote(vs, config, s, vote, voter, o);
        case Proposal(_, _, _, _) =>
        case Precommit(_, _, _, _) =>
      }
  }

  lemma {:induction false} RunKeepsInv(vs: ValidatorSet, config: FastPath.Config, states: seq<EngineState>,
                                       inputs: seq<Input>, events: seq<seq<Event>>, i: nat)
    requires IsRun(vs, config, states, inputs, events) && i < |states|
    ensures Inv(vs, states[i])
  {
    if i > 0 {
      RunKeepsInv(vs, config, states, inputs, events, i - 1);
      StepKeepsInv(vs, config, states[i - 1], inputs[i - 1], Outcome(states[i], events[i - 1]));
    }
  }

  // ---- what a reachable state guarantees ----

  /** The accumulator is in conflict exactly when the round's prevotes name two hashes, and otherwise its
      attestations are exactly the round's non-nil prevotes. */
  ghost predicate Mirrors(s: EngineState) {
    && (s.fast.conflict <==> Divided(s.rs))
    && (!s.fast.conflict ==>
          forall v: u64, h: Hash :: VotedFor(s.rs.prevotes, s.rs.round, v, h) <==> Attested(s.fast, v, h))
  }

  lemma {:induction false} CompleteMirrors(s: EngineState)
    requires FastCoupled(s.rs, s.fast) && (!s.fast.conflict ==> Complete(s.rs, s.fast))
    ensures Mirrors(s)
  {
    var votes, r := s.rs.prevotes, s.rs.round;
    if !s.fast.conflict {
      forall v: u64, h: Hash, v': u64, h': Hash | VotedFor(votes, r, v, h) && VotedFor(votes, r, v', h')
        ensures h == h'
      {
        assert Attested(s.fast, v, h) && Attested(s.fast, v', h');
      }
    }
  }

  /** Below the saturating last round the accumulator mirrors the prevote table. */
  lemma {:induction false} FastPathMirrorsVotes(vs: ValidatorSet, config: FastPath.Config, states: seq<EngineState>,
                                               inputs: seq<Input>, events: seq<seq<Event>>, i: nat)
    requires IsRun(vs, config, states, inputs, events) && i < |states|
    requires states[i].rs.round < U32_MAX
    ensures Mirrors(states[i])
  {
    RunKeepsInv(vs, config, states, inputs, events, i);
    CompleteMirrors(states[i]);
  }

  /** The accumulator never times out inside the engine. */
  lemma {:induction false} NoFastTimeout(vs: ValidatorSet, config: FastPath.Config, states: seq<EngineState>,
                                        inputs: seq<Input>, events: seq<seq<Event>>, i: nat, h: Hash, voter: u64)
    requires IsRun(vs, config, states, inputs, events) && i < |states|
    ensures FastPath.Add(config, states[i].fast, AttestationOf(states[i].rs.height, states[i].rs.round, h, voter)).1
            != Some(FastPath.Timeout)
  {
    RunKeepsInv(vs, config, states, inputs, events, i);
  }

  // ---- finalization ----

  ghost predicate SlowJustified(vs: ValidatorSet, rs: RoundState, h: Hash) {
    HasQuorum(vs, rs.precommits, rs.round, h)
  }

  /** Nobody prevoted another hash this round. */
  ghost predicate Unopposed(rs: RoundState, h: Hash) {
    forall v: u64, h': Hash :: VotedFor(rs.prevotes, rs.round, v, h') ==> h' == h
  }

  /** Enough distinct voters prevoted `h` this round and, below the last round, nobody prevoted another hash. */
  ghost predicate FastJustified(config: FastPath.Config, rs: RoundState, h: Hash) {
    && 0 < config.optimisticThreshold <= |Voters(rs.prevotes, rs.round, h)|
    && (rs.round < U32_MAX ==> Unopposed(rs, h))
  }

  lemma {:induction false} CountAll(atts: seq<FastPath.Attestation>, h: Hash)
    requires forall i :: 0 <= i < |atts| ==> atts[i].blockHash == h
    ensures FastPath.CountFor(atts, h) == |atts| == |FastPath.AttestersFor(atts, h)|
    ensures forall i :: 0 <= i < |atts| ==> FastPath.AttestersFor(atts, h)[i] == atts[i].attester
  {
    if atts != [] {
      CountAll(atts[..|atts| - 1], h);
    }
  }

  /** The attesters an unconflicted accumulator lists for its hash are distinct recorded voters. */
  lemma {:induction false} ListedVoters(rs: RoundState, fast: FastPath.Accumulated, h: Hash)
    requires Backed(rs, fast) && fast.roundHash == Some(h)
    ensures var listed := FastPath.AttestersFor(fast.attestations, h);
            && FastPath.CountFor(fast.attestations, h) == |listed| <= |Voters(rs.prevotes, rs.round, h)|
            && (forall i, j :: 0 <= i < j < |listed| ==> listed[i] != listed[j])
            && (forall v: u64 :: v in listed ==> VotedFor(rs.prevotes, rs.round, v, h))
  {
    CountAll(fast.attestations, h);
    var listed := FastPath.AttestersFor(fast.attestations, h);
    Orders.DistinctSize(listed);
    var voters := Voters(rs.prevotes, rs.round, h);
    forall v: u64 | v in listed
      ensures v in voters && VotedFor(rs.prevotes, rs.round, v, h)
    {
      var i :| 0 <= i < |listed| && listed[i] == v;
      assert VotedFor(rs.prevotes, rs.round, fast.attestations[i].attester, fast.attestations[i].blockHash);
      assert (rs.round, v) in rs.prevotes;
    }
    SubsetSize(Orders.Elements(listed), voters);
  }

  lemma {:induction false} FinalizedHash(config: FastPath.Config, rs: RoundState, fast: FastPath.Accumulated,
                                         att: FastPath.Attestation, fast': FastPath.Accumulated,
                                         proof: FastPath.FinalityProof)
    requires !fast.conflict ==> Backed(rs, fast)
    requires (rs.round, att.attester) !in rs.prevotes
    requires FastPath.Add(config, fast, att) == (fast', Some(FastPath.FastFinalized(proof)))
    ensures !fast'.conflict && fast'.roundHash == Some(att.blockHash)
    ensures proof == FastPath.ProofFor(fast'.attestations, att.blockHash, att.receivedAtMs)
    ensures 0 < config.optimisticThreshold <= FastPath.CountFor(fast'.attestations, att.blockHash)
  {
    forall i | 0 <= i < |fast.attestations| ensures fast.attestations[i].attester != att.attester {
      assert VotedFor(rs.prevotes, rs.round, fast.attestations[i].attester, fast.attestations[i].blockHash);
    }
    assert FastPath.Find(fast.attestations, att.attester) == |fast.attestations|;
  }

  /** A fast finalization is backed by its threshold of distinct voters. */
  lemma {:induction false} FastFinalizationJustified(config: FastPath.Config, s: EngineState, h: Hash, voter: u64,
                                                     rs': RoundState, fast': FastPath.Accumulated,
                                                     proof: FastPath.FinalityProof)
    requires FastCoupled(s.rs, s.fast) && VoteAdded(s.rs, rs', Some(h), voter)
    requires FastPath.Add(config, s.fast, AttestationOf(s.rs.height, s.rs.round, h, voter))
             == (fast', Some(FastPath.FastFinalized(proof)))
    ensures FastJustified(config, rs', h)
  {
    CoupledAfterVote(config, s, rs', Some(h), voter);
    FinalizedHash(config, s.rs, s.fast, AttestationOf(s.rs.height, s.rs.round, h, voter), fast', proof);
    ListedVoters(rs', fast', h);
    if rs'.round < U32_MAX {
      forall v: u64, h': Hash | VotedFor(rs'.prevotes, rs'.round, v, h') ensures h' == h {
        assert Attested(fast', v, h');
      }
    }
  }

  /** Its proof data spells out the indices of these voters, once each. */
  lemma {:induction false} FastProofListsVoters(config: FastPath.Config, s: EngineState, h: Hash, voter: u64,
                                                rs': RoundState, fast': FastPath.Accumulated,
                                                proof: FastPath.FinalityProof)
    returns (listed: seq<u64>)
    requires FastCoupled(s.rs, s.fast) && VoteAdded(s.rs, rs', Some(h), voter)
    requires FastPath.Add(config, s.fast, AttestationOf(s.rs.height, s.rs.round, h, voter))
             == (fast', Some(FastPath.FastFinalized(proof)))
    ensures proof.commitment.blockHash == h && proof.proofData == FastPath.IndexBytes(listed)
    ensures |listed| >= config.optimisticThreshold && Orders.Distinct(listed)
    ensures forall v: u64 :: v in listed ==> VotedFor(rs'.prevotes, rs'.round, v, h)
  {
    listed := FastPath.AttestersFor(fast'.attestations, h);
    CoupledAfterVote(config, s, rs', Some(h), voter);
    FinalizedHash(config, s.rs, s.fast, AttestationOf(s.rs.height, s.rs.round, h, voter), fast', proof);
    ListedVoters(rs', fast', h);
  }

  lemma {:induction false} SubsetSize(a: set<u64>, b: set<u64>)
    requires a <= b
    ensures |a| <= |b|
  {
    assert a + (b - a) == b;
  }

  lemma {:induction false} CommitStep(vs: ValidatorSet, config: FastPath.Config, s: EngineState, input: Input,
                                      o: Outcome, e: Event)
    requires Inv(vs, s) && Handles(vs, config, s, input, o)
    requires e in o.events && e.BlockFinalized?
    ensures o.events == [e] && e.height == s.rs.height && e.round == s.rs.round
    ensures s.rs.step != Committed && o.state.rs.step == Committed
    ensures SlowJustified(vs, o.state.rs, e.hash) || FastJustified(config, o.state.rs, e.hash)
  {
    var msg := input.msg;
    if msg.Prevote? && FastStep(config, s, msg.blockHash, msg.voter).1 {
      var h := msg.blockHash.value;
      var (fast', outcome) := FastPath.Add(config, s.fast, AttestationOf(s.rs.height, s.rs.round, h, msg.voter));
      var rs' := s.rs.(prevotes := s.rs.prevotes[(s.rs.round, msg.voter) := Some(h)]);
      FastFinalizationJustified(config, s, h, msg.voter, rs', fast', outcome.value.proof);
    }
  }

  /** Any block an engine finalizes, it finalizes for its current height and round with a recorded
      precommit quorum or a full fast-path agreement, and it stops there. */
  lemma {:induction false} CommitJustified(vs: ValidatorSet, config: FastPath.Config, states: seq<EngineState>,
                                          inputs: seq<Input>, events: seq<seq<Event>>, i: nat, e: Event)
    requires IsRun(vs, config, states, inputs, events) && i < |events|
    requires e in events[i] && e.BlockFinalized?
    ensures events[i] == [e] && e.height == states[i].rs.height && e.round == states[i].rs.round
    ensures states[i].rs.step != Committed && states[i + 1].rs.step == Committed
    ensures SlowJustified(vs, states[i + 1].rs, e.hash) || FastJustified(config, states[i + 1].rs, e.hash)
  {
    RunKeepsInv(vs, config, states, inputs, events, i);
    CommitStep(vs, config, states[i], inputs[i], Outcome(states[i + 1], events[i]), e);
  }

  /** Until the next `start_height`, a committed engine stays as it is. */
  lemma {:induction false} CommittedStays(vs: ValidatorSet, config: FastPath.Config, states: seq<EngineState>,
                                          inputs: seq<Input>, events: seq<seq<Event>>, i: nat, j: nat)
    requires IsRun(vs, config, states, inputs, events) && i <= j < |states|
    requires states[i].rs.step == Committed
    requires forall k :: i <= k < j ==> !inputs[k].StartHeight?
    ensures states[j] == states[i]
    decreases j
  {
    if i < j {
      CommittedStays(vs, config, states, inputs, events, i, j - 1);
      assert Handles(vs, config, states[j - 1], inputs[j - 1], Outcome(states[j], events[j - 1]));
    }
  }

  /** Two finalizations in one run have a `start_height` between them. */
  lemma {:induction false} FinalizesOncePerStart(vs: ValidatorSet, config: FastPath.Config, states: seq<EngineState>,
                                                 inputs: seq<Input>, events: seq<seq<Event>>, i: nat, j: nat,
                                                 e: Event, e': Event)
    requires IsRun(vs, config, states, inputs, events) && i < j < |events|
    requires e in events[i] && e.BlockFinalized? && e' in events[j] && e'.BlockFinalized?
    ensures exists k :: i < k < j && inputs[k].StartHeight?
  {
    CommitJustified(vs, config, states, inputs, events, i, e);
    CommitJustified(vs, config, states, inputs, events, j, e');
    if forall k :: i < k < j ==> !inputs[k].StartHeight? {
      CommittedStays(vs, config, states, inputs, events, i + 1, j);
      assert false;
    }
  }

  // ---- one quorum per round ----

  /** First-vote-wins tables hold at most one quorum per round, so the unordered search has one answer. */
  lemma {:induction false} QuorumUnique(vs: ValidatorSet, votes: Votes, r: u32, h: Hash, h': Hash)
    requires 2 * vs.QuorumWeight() > vs.ExactTotal()
    requires HasQuorum(vs, votes, r, h) && HasQuorum(vs, votes, r, h')
    ensures h == h'
  {
    var a, b := Voters(votes, r, h), Voters(votes, r, h');
    if h != h' {
      assert a * b == {};
      SetWeightOverlap(vs.validators, a, b);
      SetWeightBound(vs.validators, a + b);
      SetWeightEmpty(vs.validators);
      assert false;
    }
  }

  /** A recorded prevote quorum stays on record until the next `start_height`. */
  lemma {:induction false} QuorumStays(vs: ValidatorSet, config: FastPath.Config, states: seq<EngineState>,
                                       inputs: seq<Input>, events: seq<seq<Event>>, i: nat, j: nat, r: u32, h: Hash)
    requires IsRun(vs, config, states, inputs, events) && i <= j < |states|
    requires forall k :: i <= k < j ==> !inputs[k].StartHeight?
    requires HasQuorum(vs, states[i].rs.prevotes, r, h)
    ensures HasQuorum(vs, states[j].rs.prevotes, r, h)
    decreases j
  {
    if i < j {
      QuorumStays(vs, config, states, inputs, events, i, j - 1, r, h);
      var s, input := states[j - 1], inputs[j - 1];
      assert Handles(vs, config, s, input, Outcome(states[j], events[j - 1]));
      if states[j].rs.prevotes != s.rs.prevotes {
        QuorumKept(vs, s.rs.prevotes, (s.rs.round, input.msg.voter), input.msg.blockHash, r, h);
      }
    }
  }

  /** A precommit is emitted for a hash whose prevote quorum has just been recorded. */
  lemma {:induction false} PrecommitStep(vs: ValidatorSet, config: FastPath.Config, s: EngineState, input: Input,
                                         o: Outcome, height: u64, r: u32, vote: Option<Hash>)
    requires Handles(vs, config, s, input, o) && SendPrecommit(height, r, vote) in o.events
    ensures height == s.rs.height && r == s.rs.round && vote.Some? && HasQuorum(vs, o.state.rs.prevotes, r, vote.value)
  {
  }

  /** Whatever the fast path does, all precommits an engine emits in one round of a height name one hash. */
  lemma {:induction false} OnePrecommitPerRound(vs: ValidatorSet, config: FastPath.Config, states: seq<EngineState>,
                                               inputs: seq<Input>, events: seq<seq<Event>>, i: nat, j: nat,
                                               height: u64, r: u32, vote: Option<Hash>, vote': Option<Hash>)
    requires 2 * vs.QuorumWeight() > vs.ExactTotal()
    requires IsRun(vs, config, states, inputs, events) && i <= j < |events|
    requires forall k :: i < k <= j ==> !inputs[k].StartHeight?
    requires SendPrecommit(height, r, vote) in events[i] && SendPrecommit(height, r, vote') in events[j]
    ensures vote.Some? && vote == vote'
  {
    PrecommitStep(vs, config, states[i], inputs[i], Outcome(states[i + 1], events[i]), height, r, vote);
    PrecommitStep(vs, config, states[j], inputs[j], Outcome(states[j + 1], events[j]), height, r, vote');
    QuorumStays(vs, config, states, inputs, events, i + 1, j + 1, r, vote.value);
    QuorumUnique(vs, states[j + 1].rs.prevotes, r, vote.value, vote'.value);
  }

  /** Hence the engine is deterministic: the outcome does not depend on hash-map order. */
  lemma {:induction false} EngineDeterministic(vs: ValidatorSet, config: FastPath.Config, s: EngineState, input: Input,
                                              o: Outcome, o': Outcome)
    requires 2 * vs.QuorumWeight() > vs.ExactTotal()
    requires Handles(vs, config, s, input, o) && Handles(vs, config, s, input, o')
    ensures o == o'
  {
    if input.Receive? && s.rs.step != Committed && input.msg.height == s.rs.height
       && input.msg.round == s.rs.round && !input.msg.Proposal? {
      var key := (s.rs.round, input.msg.voter);
      var votes := if input.msg.Prevote? then s.rs.prevotes else s.rs.precommits;
      PickUnique(vs, votes[key := input.msg.blockHash], s.rs.round);
    }
  }

  lemma {:induction false} PickUnique(vs: ValidatorSet, votes: Votes, r: u32)
    requires 2 * vs.QuorumWeight() > vs.ExactTotal()
    ensures forall p, p' :: QuorumPick(vs, votes, r, p) && QuorumPick(vs, votes, r, p') ==> p == p'
  {
    forall p, p' | QuorumPick(vs, votes, r, p) && QuorumPick(vs, votes, r, p') ensures p == p' {
      if p.Some? && p'.Some? {
        QuorumUnique(vs, votes, r, p.value, p'.value);
      }
    }
  }
}
