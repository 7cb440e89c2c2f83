/** One consensus engine: propose, prevote, precommit, commit. */
module Engine {
  import opened Common
  import opened Validators
  import FastPath

  const U32_MAX: nat := 0xFFFF_FFFF
  type u32 = n: nat | n <= U32_MAX

  datatype Step = Propose | Prevoting | Precommitting | Committed

  datatype Message =
    | Proposal(height: u64, round: u32, hash: Hash, proposer: u64)
    | Prevote(height: u64, round: u32, blockHash: Option<Hash>, voter: u64)
    | Precommit(height: u64, round: u32, blockHash: Option<Hash>, voter: u64)

  datatype Event =
    | BlockFinalized(height: u64, hash: Hash, round: u32)
    | RoundTimeout(height: u64, round: u32)
    | NeedProposal(height: u64, round: u32, leader: u64)
    | SendPrevote(height: u64, round: u32, blockHash: Option<Hash>)
    | SendPrecommit(height: u64, round: u32, blockHash: Option<Hash>)

  /** First-vote-wins table: (round, voter) to the hash voted for, `None` being a nil vote. */
  type Votes = map<(u32, u64), Option<Hash>>

  datatype RoundState = RoundState(
    height: u64,
    round: u32,
    step: Step,
    proposals: map<u32, Hash>,
    prevotes: Votes,
    precommits: Votes,
    lockedRound: Option<u32>,
    lockedHash: Option<Hash>)

  function FreshState(height: u64): RoundState {
    RoundState(height, 0, Propose, map[], map[], map[], None, None)
  }

  // ---- specification ----

  /** Voters recorded for `h` in round `r`. */
  ghost function Voters(votes: Votes, r: u32, h: Hash): set<u64> {
    set k | k in votes && k.0 == r && votes[k] == Some(h) :: k.1
  }

  ghost predicate HasQuorum(vs: ValidatorSet, votes: Votes, r: u32, h: Hash) {
    vs.Weight(Voters(votes, r, h)) >= vs.QuorumWeight()
  }

  /** `pick` is a possible answer of the unordered search for a hash with a quorum. */
  ghost predicate QuorumPick(vs: ValidatorSet, votes: Votes, r: u32, pick: Option<Hash>) {
    match pick
    case Some(h) => HasQuorum(vs, votes, r, h)
    case None => forall h :: !HasQuorum(vs, votes, r, h)
  }

  datatype EngineState = EngineState(rs: RoundState, fast: FastPath.Accumulated)

  datatype Input = StartHeight(height: u64) | Receive(msg: Message) | Timeout

  datatype Outcome = Outcome(state: EngineState, events: seq<Event>)

  function ReceivedAt(height: u64, round: u32): (t: u64)
    ensures var exact := height * 1000 + round;
            t == if exact < 0x1_0000_0000_0000_0000 then exact else 0xFFFF_FFFF_FFFF_FFFF
  {
    SatAdd(if height * 1000 <= U64_MAX then height * 1000 else U64_MAX, round)
  }

  function AttestationOf(height: u64, round: u32, h: Hash, voter: u64): FastPath.Attestation {
    FastPath.Attestation(h, voter, [], ReceivedAt(height, round))
  }

  function Started(vs: ValidatorSet, height: u64): Outcome {
    Outcome(EngineState(FreshState(height), FastPath.Empty),
            [NeedProposal(height, 0, vs.LeaderForRound(height, 0))])
  }

  function TimedOut(vs: ValidatorSet, s: EngineState): Outcome {
    var rs := s.rs;
    if rs.step == Committed then Outcome(s, [])
    else
      var next: u32 := if rs.round < U32_MAX then rs.round + 1 else U32_MAX;
      Outcome(EngineState(rs.(round := next, step := Propose), FastPath.Empty),
              [RoundTimeout(rs.height, rs.round),
               NeedProposal(rs.height, next, vs.LeaderForRound(rs.height, next))])
  }

  function Proposed(vs: ValidatorSet, s: EngineState, h: Hash, proposer: u64): Outcome {
    var rs := s.rs;
    if proposer != vs.LeaderForRound(rs.height, rs.round) then Outcome(s, [])
    else
      Outcome(s.(rs := rs.(proposals := rs.proposals[rs.round := h], step := Prevoting)),
              [SendPrevote(rs.height, rs.round, if rs.lockedHash.Some? then rs.lockedHash else Some(h))])
  }

  /** The accumulator after a newly recorded prevote of the current round, and whether it finalized. */
  function FastStep(config: FastPath.Config, s: EngineState, vote: Option<Hash>, voter: u64)
    : (FastPath.Accumulated, bool)
  {
    if vote.None? then (s.fast, false)
    else
      var (fast, outcome) :=
        FastPath.Add(config, s.fast, AttestationOf(s.rs.height, s.rs.round, vote.value, voter));
      (fast, outcome.Some? && outcome.value.FastFinalized?)
  }

  function Locked(rs: RoundState, pick: Option<Hash>): (RoundState, seq<Event>) {
    if pick.None? then (rs, [])
    else
      (rs.(lockedRound := Some(rs.round), lockedHash := pick, step := Precommitting),
       if rs.step == Precommitting && rs.lockedHash == pick && rs.lockedRound == Some(rs.round) then []
       else [SendPrecommit(rs.height, rs.round, pick)])
  }

  ghost predicate Prevoted(vs: ValidatorSet, config: FastPath.Config, s: EngineState,
                           vote: Option<Hash>, voter: u64, o: Outcome)
  {
    var rs := s.rs;
    var key := (rs.round, voter);
    if key in rs.prevotes then o == Outcome(s, [])
    else
      var voted := rs.(prevotes := rs.prevotes[key := vote]);
      var (fast, finalized) := FastStep(config, s, vote, voter);
      if finalized then
        o == Outcome(EngineState(voted.(step := Committed), fast),
                     [BlockFinalized(rs.height, vote.value, rs.round)])
      else
        exists pick :: QuorumPick(vs, voted.prevotes, rs.round, pick) &&
                       o == Outcome(EngineState(Locked(voted, pick).0, fast), Locked(voted, pick).1)
  }

  ghost predicate Precommitted(vs: ValidatorSet, s: EngineState, vote: Option<Hash>, voter: u64, o: Outcome)
  {
    var rs := s.rs;
    var key := (rs.round, voter);
    if key in rs.precommits then o == Outcome(s, [])
    else
      var voted := rs.(precommits := rs.precommits[key := vote]);
      exists pick :: QuorumPick(vs, voted.precommits, rs.round, pick) &&
                     o == if pick.None? then Outcome(s.(rs := voted), [])
                          else Outcome(s.(rs := voted.(step := Committed)),
                                       [BlockFinalized(rs.height, pick.value, rs.round)])
  }

  /** `o` is a possible result of giving `input` to an engine in state `s`. */
  ghost predicate Handles(vs: ValidatorSet, config: FastPath.Config, s: EngineState, input: Input, o: Outcome)
  {
    match input
    case StartHeight(height) => o == Started(vs, height)
    case Timeout => o == TimedOut(vs, s)
    case Receive(msg) =>
      if s.rs.step == Committed || msg.height != s.rs.height || msg.round != s.rs.round then
        o == Outcome(s, [])
      else
        match msg
        case Proposal(_, _, h, proposer) => o == Proposed(vs, s, h, proposer)
        case Prevote(_, _, vote, voter) => Prevoted(vs, config, s, vote, voter, o)
        case Precommit(_, _, vote, voter) => Precommitted(vs, s, vote, voter, o)
  }

  // ---- tallies ----

  lemma {:induction false} VotersInsert(votes: Votes, key: (u32, u64), vote: Option<Hash>, r: u32, h: Hash)
    requires key !in votes
    ensures Voters(votes[key := vote], r, h) ==
            Voters(votes, r, h) + (if key.0 == r && vote == Some(h) then {key.1} else {})
  {
    var after := votes[key := vote];
    assert forall k :: k in after ==> (k in votes && after[k] == votes[k]) || (k == key && after[k] == vote);
    assert forall k :: k in votes ==> k in after && after[k] == votes[k];
    assert key in after && after[key] == vote;
    if key.0 == r && vote == Some(h) {
      assert key.1 in Voters(after, r, h);
    }
  }

  function Restricted(votes: Votes, keys: set<(u32, u64)>): Votes {
    map k | k in keys && k in votes :: votes[k]
  }

  ghost predicate TallyOf(vs: ValidatorSet, votes: Votes, r: u32, tally: map<Hash, u64>) {
    forall h :: (if h in tally then tally[h] else 0) == Capped(vs.Weight(Voters(votes, r, h)))
  }

  /** `tally_prevotes` and `tally_precommits`: the two bodies are the same loop over a different table. */
  method Tally(vs: ValidatorSet, votes: Votes, r: u32) returns (tally: map<Hash, u64>)
    ensures TallyOf(vs, votes, r, tally)
  {
    tally := map[];
    var todo, done := votes.Keys, {};
    forall h
      ensures vs.Weight(Voters(Restricted(votes, {}), r, h)) == 0
    {
      assert Voters(Restricted(votes, {}), r, h) == {};
      SetWeightEmpty(vs.validators);
    }
    while todo != {}
      invariant todo !! done && todo + done == votes.Keys
      invariant TallyOf(vs, Restricted(votes, done), r, tally)
      decreases |todo|
    {
      var key :| key in todo;
      ghost var before := Restricted(votes, done);
      ghost var tallied := tally;
      if key.0 == r && votes[key].Some? {
        var weight := WeightOf(vs.validators, key.1);
        if weight != 0 {
          var h := votes[key].value;
          tally := tally[h := SatAdd(if h in tally then tally[h] else 0, weight)];
        }
      }
      TallyStep(vs, before, key, votes[key], r, tallied, tally);
      assert Restricted(votes, done + {key}) == before[key := votes[key]];
      todo, done := todo - {key}, done + {key};
    }
    assert Restricted(votes, done) == votes;
  }

  lemma {:induction false} TallyStep(vs: ValidatorSet, votes: Votes, key: (u32, u64), vote: Option<Hash>, r: u32,
                                    before: map<Hash, u64>, after: map<Hash, u64>)
    requires key !in votes && TallyOf(vs, votes, r, before)
    requires var w := WeightOf(vs.validators, key.1);
             after == if key.0 == r && vote.Some? && w != 0
                      then before[vote.value :=
                                    SatAdd(if vote.value in before then before[vote.value] else 0, w)]
                      else before
    ensures TallyOf(vs, votes[key := vote], r, after)
  {
    forall h
      ensures (if h in after then after[h] else 0) == Capped(vs.Weight(Voters(votes[key := vote], r, h)))
    {
      VotersInsert(votes, key, vote, r, h);
      assert (if h in before then before[h] else 0) == Capped(vs.Weight(Voters(votes, r, h)));
      if key.0 == r && vote == Some(h) {
        assert key.1 !in Voters(votes, r, h);
        SetWeightAdd(vs.validators, Voters(votes, r, h), key.1);
      } else {
        assert Voters(votes[key := vote], r, h) == Voters(votes, r, h);
      }
    }
  }

  method QuorumHash(tally: map<Hash, u64>, quorum: u64) returns (pick: Option<Hash>)
    ensures pick.Some? ==> pick.value in tally && tally[pick.value] >= quorum
    ensures pick.None? ==> forall h :: h in tally ==> tally[h] < quorum
  {
    var todo := tally.Keys;
    while todo != {}
      invariant todo <= tally.Keys
      invariant forall h :: h in tally && h !in todo ==> tally[h] < quorum
      decreases |todo|
    {
      var h :| h in todo;
      if tally[h] >= quorum {
        return Some(h);
      }
      todo := todo - {h};
    }
    return None;
  }

  method FindQuorum(vs: ValidatorSet, votes: Votes, r: u32) returns (pick: Option<Hash>)
    ensures QuorumPick(vs, votes, r, pick)
  {
    var tally := Tally(vs, votes, r);
    pick := QuorumHash(tally, vs.QuorumWeight());
    forall h
      ensures HasQuorum(vs, votes, r, h) <==> h in tally && tally[h] >= vs.QuorumWeight()
    {
      assert (if h in tally then tally[h] else 0) == Capped(vs.Weight(Voters(votes, r, h)));
    }
  }

  // ---- implementation ----

  class ConsensusEngine {
    const validatorSet: ValidatorSet
    const fastPath: FastPath.FastPathAccumulator
    var state: RoundState

    ghost function State(): EngineState
      reads this, fastPath
    {
      EngineState(state, fastPath.State())
    }

    constructor (validatorSet: ValidatorSet, config: FastPath.Config)
      ensures this.validatorSet == validatorSet && fastPath.config == config && fresh(fastPath)
      ensures State() == EngineState(FreshState(0), FastPath.Empty)
    {
      this.validatorSet := validatorSet;
      fastPath := new FastPath.FastPathAccumulator(config);
      state := FreshState(0);
    }

    method OnStartHeight(height: u64) returns (events: seq<Event>)
      modifies this, fastPath
      ensures Handles(validatorSet, fastPath.config, old(State()), StartHeight(height), Outcome(State(), events))
    {
      state := FreshState(height);
      fastPath.Reset();
      events := [NeedProposal(height, 0, validatorSet.LeaderForRound(height, 0))];
    }

    method OnMessage(msg: Message) returns (events: seq<Event>)
      modifies this, fastPath
      ensures Handles(validatorSet, fastPath.config, old(State()), Receive(msg), Outcome(State(), events))
    {
      if state.step == Committed {
        return [];
      }
      match msg
      case Proposal(height, round, h, proposer) => events := OnProposal(height, round, h, proposer);
      case Prevote(height, round, vote, voter) => events := OnPrevote(height, round, vote, voter);
      case Precommit(height, round, vote, voter) => events := OnPrecommit(height, round, vote, voter);
    }

    method OnTimeout() returns (events: seq<Event>)
      modifies this, fastPath
      ensures Handles(validatorSet, fastPath.config, old(State()), Timeout, Outcome(State(), events))
    {
      if state.step == Committed {
        return [];
      }
      var timedOut := state.round;
      state := state.(round := if state.round < U32_MAX then state.round + 1 else U32_MAX, step := Propose);
      fastPath.Reset();
      events := [RoundTimeout(state.height, timedOut),
                 NeedProposal(state.height, state.round,
                              validatorSet.LeaderForRound(state.height, state.round))];
    }

    method OnProposal(height: u64, round: u32, h: Hash, proposer: u64) returns (events: seq<Event>)
      requires state.step != Committed
      modifies this
      ensures Handles(validatorSet, fastPath.config, old(State()),
                      Receive(Proposal(height, round, h, proposer)), Outcome(State(), events))
    {
      if height != state.height || round != state.round {
        return [];
      }
      if proposer != validatorSet.LeaderForRound(height, round) {
        return [];
      }
      state := state.(proposals := state.proposals[round := h]);
      state := state.(step := Prevoting);
      var vote := if state.lockedHash.Some? then state.lockedHash else Some(h);
      events := [SendPrevote(height, round, vote)];
    }

    method OnPrevote(height: u64, round: u32, vote: Option<Hash>, voter: u64) returns (events: seq<Event>)
      requires state.step != Committed
      modifies this, fastPath
      ensures Handles(validatorSet, fastPath.config, old(State()),
                      Receive(Prevote(height, round, vote, voter)), Outcome(State(), events))
    {
      if height != state.height || round != state.round {
        return [];
      }
      if (round, voter) in state.prevotes {
        return [];
      }
      state := state.(prevotes := state.prevotes[(round, voter) := vote]);
      if vote.Some? {
        var outcome := fastPath.AddAttestation(AttestationOf(state.height, state.round, vote.value, voter));
        if outcome.Some? && outcome.value.FastFinalized? {
          state := state.(step := Committed);
          return [BlockFinalized(height, vote.value, round)];
        }
      }
      var pick := FindQuorum(validatorSet, state.prevotes, round);
      events := [];
      if pick.Some? {
        var shouldEmit := state.step != Precommitting || state.lockedHash != pick
                          || state.lockedRound != Some(round);
        state := state.(lockedRound := Some(round), lockedHash := pick, step := Precommitting);
        if shouldEmit {
          events := [SendPrecommit(height, round, pick)];
        }
      }
    }

    method OnPrecommit(height: u64, round: u32, vote: Option<Hash>, voter: u64) returns (events: seq<Event>)
      requires state.step != Committed
      modifies this
      ensures Handles(validatorSet, fastPath.config, old(State()),
                      Receive(Precommit(height, round, vote, voter)), Outcome(State(), events))
    {
      if height != state.height || round != state.round {
        return [];
      }
      if (round, voter) in state.precommits {
        return [];
      }
      state := state.(precommits := state.precommits[(round, voter) := vote]);
      var pick := FindQuorum(validatorSet, state.precommits, round);
      if pick.None? {
        return [];
      }
      state := state.(step := Committed);
      return [BlockFinalized(height, pick.value, round)];
    }
  }
}
