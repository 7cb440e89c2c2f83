/** Equal prevotes, delivered one by one, drive the optimistic path to its threshold. */
module FastFeed {
  import opened Common
  import opened Validators
  import opened Engine
  import opened EngineRuns
  import opened Orders
  import FastPath

  /** Since its accumulator was last empty, the engine has recorded prevotes for `h` from the first `k`
      of `voters`, and the others have not prevoted in this round. */
  ghost predicate Fed(s: EngineState, r: u32, h: Hash, voters: seq<u64>, k: nat)
    requires k <= |voters|
  {
    var atts := s.fast.attestations;
    && s.rs.height == 0 && s.rs.round == r && s.rs.step != Committed
    && !s.fast.conflict && |atts| == k
    && s.fast.roundHash == (if k == 0 then None else Some(h))
    && (s.fast.roundStartMs.Some? ==> s.fast.roundStartMs.value == ReceivedAt(0, r))
    && (forall i :: 0 <= i < k ==> atts[i].blockHash == h && atts[i].attester == voters[i])
    && (forall i :: k <= i < |voters| ==> (r, voters[i]) !in s.rs.prevotes)
  }

  /** The next prevote for `h` is counted, and finalizes once the threshold is met. */
  lemma {:induction false} Counted(config: FastPath.Config, s: EngineState, r: u32, h: Hash, voters: seq<u64>, k: nat)
    requires Distinct(voters) && k < |voters| && Fed(s, r, h, voters, k)
    ensures var (fast, finalized) := FastStep(config, s, Some(h), voters[k]);
            && !fast.conflict && fast.roundHash == Some(h) && fast.roundStartMs == Some(ReceivedAt(0, r))
            && fast.attestations == s.fast.attestations + [AttestationOf(0, r, h, voters[k])]
            && (finalized <==> 0 < config.optimisticThreshold <= k + 1)
  {
    var att := AttestationOf(0, r, h, voters[k]);
    NewAttester(config, s.fast, att);
    UnanimousVerdict(config, FastPath.Add(config, s.fast, att).0, att);
  }

  lemma {:induction false} UnanimousVerdict(config: FastPath.Config, a: FastPath.Accumulated, att: FastPath.Attestation)
    requires !a.conflict && a.roundHash == Some(att.blockHash)
    requires forall i :: 0 <= i < |a.attestations| ==> a.attestations[i].blockHash == att.blockHash
    ensures var outcome := FastPath.Verdict(config, a, att);
            outcome.Some? && outcome.value.FastFinalized? <==> 0 < config.optimisticThreshold <= |a.attestations|
  {
    CountAll(a.attestations, att.blockHash);
  }

  /** The unordered search always has an answer. */
  lemma {:induction false} PickExists(vs: ValidatorSet, votes: Votes, r: u32) returns (pick: Option<Hash>)
    ensures QuorumPick(vs, votes, r, pick)
  {
    if h :| HasQuorum(vs, votes, r, h) {
      pick := Some(h);
    } else {
      pick := None;
    }
  }

  function NextVote(r: u32, h: Hash, voters: seq<u64>, k: nat): Input
    requires k < |voters|
  {
    Receive(Prevote(0, r, Some(h), voters[k]))
  }

  /** The reaction to the next prevote. */
  lemma {:induction false} FeedVote(vs: ValidatorSet, config: FastPath.Config, s: EngineState, r: u32, h: Hash,
                                    voters: seq<u64>, k: nat)
    returns (o: Outcome)
    requires Distinct(voters) && k < |voters| && Fed(s, r, h, voters, k)
    ensures Handles(vs, config, s, NextVote(r, h, voters, k), o)
    ensures o.state.rs.prevotes == s.rs.prevotes[(r, voters[k]) := Some(h)]
    ensures o.state.rs.height == 0 && o.state.rs.round == r
    ensures 0 < config.optimisticThreshold <= k + 1 ==>
              o.state.rs.step == Committed && o.events == [BlockFinalized(0, h, r)]
    ensures !(0 < config.optimisticThreshold <= k + 1) ==>
              Fed(o.state, r, h, voters, k + 1) && forall e :: e in o.events ==> !e.BlockFinalized?
  {
    var voter := voters[k];
    Counted(config, s, r, h, voters, k);
    var voted := s.rs.(prevotes := s.rs.prevotes[(r, voter) := Some(h)]);
    var (fast, finalized) := FastStep(config, s, Some(h), voter);
    if finalized {
      o := Outcome(EngineState(voted.(step := Committed), fast), [BlockFinalized(0, h, r)]);
    } else {
      var pick := PickExists(vs, voted.prevotes, r);
      o := Outcome(EngineState(Locked(voted, pick).0, fast), Locked(voted, pick).1);
    }
    assert Prevoted(vs, config, s, Some(h), voter, o);
  }
}
