/** The optimistic side channel: one round's attestations, their conflict flag and the fast proof. */
module FastPath {
  import opened Common
  import opened ByteOrder
  import opened Validators

  datatype Config = Config(quorumThreshold: u64, timeoutMs: u64, optimisticThreshold: u64)

  datatype Attestation = Attestation(blockHash: Hash, attester: u64, signature: Bytes, receivedAtMs: u64)

  datatype CommitmentEnvelope = CommitmentEnvelope(
    blockHash: Hash,
    blockNumber: u64,
    stateRoot: Hash,
    timestamp: u64,
    signature: Bytes,
    proposerIndex: u64)

  datatype FinalityProof = FinalityProof(commitment: CommitmentEnvelope, proofData: Bytes, finalizedAt: u64)

  datatype Outcome = FastFinalized(proof: FinalityProof) | SlowPath | Timeout | ConflictDetected

  datatype Accumulated = Accumulated(
    attestations: seq<Attestation>,
    roundHash: Option<Hash>,
    roundStartMs: Option<u64>,
    conflict: bool)

  const Empty := Accumulated([], None, None, false)

  // ---- specification ----

  /** Number of attestations naming `h`. */
  function CountFor(atts: seq<Attestation>, h: Hash): nat {
    if atts == [] then 0
    else CountFor(atts[..|atts| - 1], h) + (if atts[|atts| - 1].blockHash == h then 1 else 0)
  }

  /** Indices of the attesters naming `h`, in arrival order. */
  function AttestersFor(atts: seq<Attestation>, h: Hash): seq<u64> {
    if atts == [] then []
    else AttestersFor(atts[..|atts| - 1], h)
         + (if atts[|atts| - 1].blockHash == h then [atts[|atts| - 1].attester] else [])
  }

  /** The signature carried by the proof: the first non-empty one among attestations naming `h`. */
  function FirstSignature(atts: seq<Attestation>, h: Hash): Bytes {
    if atts == [] then []
    else
      var sig := FirstSignature(atts[..|atts| - 1], h);
      if sig == [] && atts[|atts| - 1].blockHash == h then atts[|atts| - 1].signature else sig
  }

  /** The indices as consecutive 8-byte little-endian numbers. */
  function IndexBytes(attesters: seq<u64>): (b: Bytes)
    ensures |b| == 8 * |attesters|
  {
    if attesters == [] then []
    else IndexBytes(attesters[..|attesters| - 1]) + LittleEndian(attesters[|attesters| - 1], 8)
  }

  /** The proof of a fast finalization: the attesters of `h` and the first signature, in an envelope whose
      other fields are zero. */
  function ProofFor(atts: seq<Attestation>, h: Hash, finalizedAt: u64): FinalityProof {
    FinalityProof(CommitmentEnvelope(h, 0, 0, finalizedAt, FirstSignature(atts, h), 0),
                  IndexBytes(AttestersFor(atts, h)), finalizedAt)
  }

  lemma {:induction false} ProofDataStep(atts: seq<Attestation>, i: nat, h: Hash)
    requires i < |atts|
    ensures IndexBytes(AttestersFor(atts[..i + 1], h)) ==
            IndexBytes(AttestersFor(atts[..i], h))
            + if atts[i].blockHash == h then LittleEndian(atts[i].attester, 8) else []
  {
    var before := AttestersFor(atts[..i], h);
    assert atts[..i + 1][..i] == atts[..i];
    if atts[i].blockHash == h {
      assert (before + [atts[i].attester])[..|before|] == before;
    } else {
      assert AttestersFor(atts[..i + 1], h) == before;
    }
  }

  /** The proof data names its attesters unambiguously. */
  lemma {:induction false} IndexBytesInjective(a: seq<u64>, b: seq<u64>)
    requires IndexBytes(a) == IndexBytes(b)
    ensures a == b
  {
    assert |a| == |b|;
    if a != [] {
      var n := |a| - 1;
      var (x, y) := (LittleEndian(a[n], 8), LittleEndian(b[n], 8));
      assert IndexBytes(a)[..8 * n] == IndexBytes(a[..n]) && IndexBytes(a)[8 * n..] == x;
      assert IndexBytes(b)[..8 * n] == IndexBytes(b[..n]) && IndexBytes(b)[8 * n..] == y;
      IndexBytesInjective(a[..n], b[..n]);
      LittleEndianInjective(a[n], b[n], 8);
      assert a == a[..n] + [a[n]] && b == b[..n] + [b[n]];
    }
  }

  /** Position of the first attestation of `attester`, or the length when there is none. */
  function Find(atts: seq<Attestation>, attester: u64): (k: nat)
    ensures k <= |atts|
    ensures forall i :: 0 <= i < k ==> atts[i].attester != attester
    ensures k < |atts| ==> atts[k].attester == attester
  {
    if atts == [] then 0
    else if atts[0].attester == attester then 0
    else
      var k := Find(atts[1..], attester);
      assert forall i :: 1 <= i < k + 1 ==> atts[i] == atts[1..][i - 1];
      k + 1
  }

  function AgreementCount(a: Accumulated): nat {
    if a.roundHash.None? then 0 else CountFor(a.attestations, a.roundHash.value)
  }

  predicate TimedOut(config: Config, start: u64, now: u64) {
    now > start && now - start > config.timeoutMs
  }

  function Recorded(a: Accumulated, att: Attestation): Accumulated {
    var k := Find(a.attestations, att.attester);
    if k < |a.attestations| then
      if a.attestations[k].blockHash != att.blockHash
      then a.(attestations := a.attestations + [att], conflict := true)
      else a.(attestations := a.attestations[k := att])
    else if a.roundHash.Some? && a.roundHash.value != att.blockHash
    then a.(attestations := a.attestations + [att], conflict := true)
    else a.(attestations := a.attestations + [att], roundHash := Some(att.blockHash))
  }

  function Verdict(config: Config, a: Accumulated, att: Attestation): Option<Outcome> {
    if a.conflict then Some(ConflictDetected)
    else if config.optimisticThreshold > 0 && AgreementCount(a) >= config.optimisticThreshold then
      var h := if a.roundHash.Some? then a.roundHash.value else att.blockHash;
      Some(FastFinalized(ProofFor(a.attestations, h, att.receivedAtMs)))
    else if AgreementCount(a) >= config.quorumThreshold then Some(SlowPath)
    else None
  }

  function Started(a: Accumulated, now: u64): Accumulated {
    if a.roundStartMs.None? then a.(roundStartMs := Some(now)) else a
  }

  /** What adding one attestation does to the accumulator and what it reports. */
  function Add(config: Config, a: Accumulated, att: Attestation): (Accumulated, Option<Outcome>) {
    if a.conflict then (a, Some(ConflictDetected))
    else
      var b := Started(a, att.receivedAtMs);
      if TimedOut(config, b.roundStartMs.value, att.receivedAtMs) then (b, Some(Timeout))
      else
        var c := Recorded(b, att);
        (c, Verdict(config, c, att))
  }

  // ---- implementation ----

  class FastPathAccumulator {
    const config: Config
    var attestations: seq<Attestation>
    var roundBlockHash: Option<Hash>
    var roundStartMs: Option<u64>
    var conflictDetected: bool

    ghost function State(): Accumulated
      reads this
    {
      Accumulated(attestations, roundBlockHash, roundStartMs, conflictDetected)
    }

    constructor (config: Config)
      ensures this.config == config && State() == Empty
    {
      this.config := config;
      attestations, roundBlockHash, roundStartMs, conflictDetected := [], None, None, false;
    }

    method Reset()
      modifies this
      ensures State() == Empty
    {
      attestations, roundBlockHash, roundStartMs, conflictDetected := [], None, None, false;
    }

    method AddAttestation(att: Attestation) returns (outcome: Option<Outcome>)
      modifies this
      ensures (State(), outcome) == Add(config, old(State()), att)
    {
      if conflictDetected {
        return Some(ConflictDetected);
      }
      if roundStartMs.None? {
        roundStartMs := Some(att.receivedAtMs);
      }
      if TimedOut(config, roundStartMs.value, att.receivedAtMs) {
        return Some(Timeout);
      }
      Record(att);
      if conflictDetected {
        return Some(ConflictDetected);
      }
      var agreed := CountAgreement();
      if config.optimisticThreshold > 0 && agreed >= config.optimisticThreshold {
        var h := if roundBlockHash.Some? then roundBlockHash.value else att.blockHash;
        var proof := BuildFastProof(h, att.receivedAtMs);
        return Some(FastFinalized(proof));
      }
      if !conflictDetected && agreed >= config.quorumThreshold {
        return Some(SlowPath);
      }
      return None;
    }

    /** Enters the attestation, or flags a conflict. */
    method Record(att: Attestation)
      requires !conflictDetected
      modifies this
      ensures State() == Recorded(old(State()), att)
    {
      var k := Find(attestations, att.attester);
      if k < |attestations| {
        if attestations[k].blockHash != att.blockHash {
          conflictDetected := true;
          attestations := attestations + [att];
          return;
        }
        attestations := attestations[k := att];
      } else {
        if roundBlockHash.Some? {
          if roundBlockHash.value != att.blockHash {
            conflictDetected := true;
            attestations := attestations + [att];
            return;
          }
        } else {
          roundBlockHash := Some(att.blockHash);
        }
        attestations := attestations + [att];
      }
    }

    method CountAgreement() returns (n: nat)
      ensures n == AgreementCount(State())
    {
      if roundBlockHash.None? {
        return 0;
      }
      n := 0;
      for i := 0 to |attestations|
        invariant n == CountFor(attestations[..i], roundBlockHash.value)
      {
        assert attestations[..i + 1][..i] == attestations[..i];
        if attestations[i].blockHash == roundBlockHash.value {
          n := n + 1;
        }
      }
      assert attestations[..|attestations|] == attestations;
    }

    method BuildFastProof(h: Hash, finalizedAt: u64) returns (proof: FinalityProof)
      ensures proof == ProofFor(attestations, h, finalizedAt)
    {
      var proofData: Bytes, signature: Bytes := [], [];
      for i := 0 to |attestations|
        invariant proofData == IndexBytes(AttestersFor(attestations[..i], h))
        invariant signature == FirstSignature(attestations[..i], h)
      {
        assert attestations[..i + 1][..i] == attestations[..i];
        ProofDataStep(attestations, i, h);
        if attestations[i].blockHash == h {
          if signature == [] {
            signature := attestations[i].signature;
          }
          proofData := proofData + LittleEndian(attestations[i].attester, 8);
        }
      }
      assert attestations[..|attestations|] == attestations;
      return FinalityProof(CommitmentEnvelope(h, 0, 0, finalizedAt, signature, 0), proofData, finalizedAt);
    }
  }
}
