/** What the optimistic accumulator reports depends on the attestations it was given in a simple way. */
module FastHistory {
  import opened Common
  import opened Validators
  import opened FastPath
  import opened ByteOrder
  import Orders

  /** The accumulator after these attestations, since it was last empty. */
  function After(config: Config, atts: seq<Attestation>): Accumulated {
    if atts == [] then Empty else Add(config, After(config, atts[..|atts| - 1]), atts[|atts| - 1]).0
  }

  /** The attestations that arrived no later than `timeoutMs` after the first one. */
  function OnTime(config: Config, atts: seq<Attestation>): seq<Attestation> {
    if atts == [] then []
    else
      var last := atts[|atts| - 1];
      OnTime(config, atts[..|atts| - 1])
      + if last.receivedAtMs <= atts[0].receivedAtMs + config.timeoutMs then [last] else []
  }

  predicate Unanimous(atts: seq<Attestation>) {
    forall i, j :: 0 <= i < j < |atts| ==> atts[i].blockHash == atts[j].blockHash
  }

  function Attesters(atts: seq<Attestation>): set<u64> {
    set a | a in atts :: a.attester
  }

  /** `a` is the last attestation of its attester. */
  ghost predicate LastOfAttester(atts: seq<Attestation>, a: Attestation) {
    exists i :: 0 <= i < |atts| && atts[i] == a && forall j :: i < j < |atts| ==> atts[j].attester != a.attester
  }

  /** One entry per attester, its last attestation. */
  ghost predicate Latest(kept: seq<Attestation>, entries: seq<Attestation>) {
    && (forall i, j :: 0 <= i < j < |entries| ==> entries[i].attester != entries[j].attester)
    && (forall i :: 0 <= i < |entries| ==> LastOfAttester(kept, entries[i]))
    && Attesters(entries) == Attesters(kept)
  }

  /** What the accumulator knows of its history. */
  ghost predicate Remembers(config: Config, atts: seq<Attestation>, a: Accumulated) {
    if atts == [] then a == Empty
    else
      var kept := OnTime(config, atts);
      && kept != [] && kept[0] == atts[0]
      && a.roundStartMs == Some(atts[0].receivedAtMs)
      && (a.conflict <==> !Unanimous(kept))
      && (!a.conflict ==> a.roundHash == Some(kept[0].blockHash) && Latest(kept, a.attestations))
  }

  lemma {:induction false} UnanimousMore(kept: seq<Attestation>, att: Attestation)
    requires kept != []
    ensures Unanimous(kept + [att]) <==> Unanimous(kept) && att.blockHash == kept[0].blockHash
  {
    var more := kept + [att];
    assert forall i :: 0 <= i < |kept| ==> more[i] == kept[i];
    if Unanimous(more) {
      assert more[0].blockHash == more[|kept|].blockHash;
    }
  }

  lemma {:induction false} LastOfMore(kept: seq<Attestation>, att: Attestation, a: Attestation)
    ensures LastOfAttester(kept + [att], a) <==>
            a == att || (LastOfAttester(kept, a) && a.attester != att.attester)
  {
    var more := kept + [att];
    if LastOfAttester(more, a) {
      var i :| 0 <= i < |more| && more[i] == a && forall j :: i < j < |more| ==> more[j].attester != a.attester;
      if i < |kept| {
        assert more[|kept|] == att;
        assert forall j :: i < j < |kept| ==> kept[j] == more[j];
      }
    }
    if a == att {
      assert more[|kept|] == a;
    } else if LastOfAttester(kept, a) && a.attester != att.attester {
      var i :| 0 <= i < |kept| && kept[i] == a && forall j :: i < j < |kept| ==> kept[j].attester != a.attester;
      assert more[i] == a && forall j :: i < j < |more| ==> more[j].attester != a.attester;
    }
  }

  lemma {:induction false} AttestersMore(kept: seq<Attestation>, att: Attestation)
    ensures Attesters(kept + [att]) == Attesters(kept) + {att.attester}
  {
    assert forall a :: a in kept + [att] <==> a in kept || a == att;
    assert att in kept + [att];
  }

  lemma {:induction false} AttestersReplaced(entries: seq<Attestation>, k: nat, att: Attestation)
    requires k < |entries| && entries[k].attester == att.attester
    ensures Attesters(entries[k := att]) == Attesters(entries)
  {
    var after := entries[k := att];
    forall v | v in Attesters(entries) ensures v in Attesters(after) {
      var i :| 0 <= i < |entries| && entries[i].attester == v;
      assert after[i] in after && after[i].attester == v;
    }
    forall v | v in Attesters(after) ensures v in Attesters(entries) {
      var i :| 0 <= i < |after| && after[i].attester == v;
      assert entries[i] in entries && entries[i].attester == v;
    }
  }

  /** Entering an attestation of the same hash keeps one latest entry per attester. */
  lemma {:induction false} LatestAfter(kept: seq<Attestation>, a: Accumulated, att: Attestation)
    requires Latest(kept, a.attestations) && !a.conflict && kept != [] && Unanimous(kept)
    requires a.roundHash == Some(att.blockHash) && att.blockHash == kept[0].blockHash
    ensures var b := Recorded(a, att);
            !b.conflict && b.roundHash == a.roundHash && Latest(kept + [att], b.attestations)
  {
    var entries := a.attestations;
    var k := Find(entries, att.attester);
    if k < |entries| {
      var j :| 0 <= j < |kept| && kept[j] == entries[k];
      assert kept[j].blockHash == kept[0].blockHash;
      AttestersReplaced(entries, k, att);
      assert entries[k] in entries;
    }
    var after := Recorded(a, att).attestations;
    AttestersMore(kept, att);
    AttestersMore(entries, att);
    forall i | 0 <= i < |after| ensures LastOfAttester(kept + [att], after[i]) {
      LastOfMore(kept, att, after[i]);
    }
  }

  /** An attestation of another hash is a conflict, whoever sent it. */
  lemma {:induction false} OtherConflicts(kept: seq<Attestation>, a: Accumulated, att: Attestation)
    requires Latest(kept, a.attestations) && !a.conflict && kept != [] && Unanimous(kept)
    requires a.roundHash == Some(kept[0].blockHash) && att.blockHash != kept[0].blockHash
    ensures Recorded(a, att).conflict
  {
    var k := Find(a.attestations, att.attester);
    if k < |a.attestations| {
      var j :| 0 <= j < |kept| && kept[j] == a.attestations[k];
      assert kept[j].blockHash == kept[0].blockHash;
    }
  }

  lemma {:induction false} FirstRemembered(config: Config, att: Attestation)
    ensures Remembers(config, [att], Add(config, Empty, att).0)
  {
    var a := Add(config, Empty, att).0;
    assert [att][..0] == [];
    assert OnTime(config, []) == [] && OnTime(config, [att]) == [att];
    assert a.attestations == [att];
    assert [att][0] == att;
    assert LastOfAttester([att], att);
  }

  lemma {:induction false} NextRemembered(config: Config, atts: seq<Attestation>, a: Accumulated, att: Attestation)
    requires atts != [] && Remembers(config, atts, a)
    ensures Remembers(config, atts + [att], Add(config, a, att).0)
  {
    var all, kept := atts + [att], OnTime(config, atts);
    assert all[..|atts|] == atts && all[0] == atts[0];
    UnanimousMore(kept, att);
    if att.receivedAtMs <= atts[0].receivedAtMs + config.timeoutMs {
      assert OnTime(config, all) == kept + [att];
      if !a.conflict {
        if att.blockHash == kept[0].blockHash {
          LatestAfter(kept, a, att);
        } else {
          OtherConflicts(kept, a, att);
        }
      }
    } else {
      assert OnTime(config, all) == kept + [] == kept;
    }
  }

  lemma {:induction false} AfterRemembers(config: Config, atts: seq<Attestation>)
    ensures Remembers(config, atts, After(config, atts))
  {
    if atts != [] {
      var n := |atts| - 1;
      AfterRemembers(config, atts[..n]);
      assert atts == atts[..n] + [atts[n]];
      if n == 0 {
        FirstRemembered(config, atts[0]);
      } else {
        NextRemembered(config, atts[..n], After(config, atts[..n]), atts[n]);
      }
    }
  }

  lemma {:induction false} AttestersInOrder(entries: seq<Attestation>, h: Hash)
    requires forall i :: 0 <= i < |entries| ==> entries[i].blockHash == h
    ensures CountFor(entries, h) == |AttestersFor(entries, h)| == |entries|
    ensures forall i :: 0 <= i < |entries| ==> AttestersFor(entries, h)[i] == entries[i].attester
  {
    if entries != [] {
      AttestersInOrder(entries[..|entries| - 1], h);
    }
  }

  lemma {:induction false} CountUnanimous(entries: seq<Attestation>, h: Hash)
    requires forall i :: 0 <= i < |entries| ==> entries[i].blockHash == h
    requires forall i, j :: 0 <= i < j < |entries| ==> entries[i].attester != entries[j].attester
    ensures CountFor(entries, h) == |entries| == |Attesters(entries)|
  {
    AttestersInOrder(entries, h);
    var listed := AttestersFor(entries, h);
    Orders.DistinctSize(listed);
    forall v | v in Attesters(entries) ensures v in listed {
      var i :| 0 <= i < |entries| && entries[i].attester == v;
      assert listed[i] == v;
    }
    forall v | v in listed ensures v in Attesters(entries) {
      var i :| 0 <= i < |listed| && listed[i] == v;
      assert entries[i] in entries;
    }
    assert Orders.Elements(listed) == Attesters(entries);
  }

  /** The answer to an attestation, after any history: a conflict once two timely attestations differ, a
      timeout for a late one, and otherwise by the number of timely attesters. */
  lemma {:induction false} HistoryDecides(config: Config, atts: seq<Attestation>, att: Attestation)
    ensures var outcome := Add(config, After(config, atts), att).1;
            var kept := OnTime(config, atts + [att]);
            var late := atts != [] && att.receivedAtMs > atts[0].receivedAtMs + config.timeoutMs;
            var n := |Attesters(kept)|;
            && (outcome == Some(ConflictDetected) <==> !Unanimous(kept))
            && (outcome == Some(Timeout) <==> Unanimous(kept) && late)
            && (outcome.Some? && outcome.value.FastFinalized? <==>
                  Unanimous(kept) && !late && 0 < config.optimisticThreshold <= n)
            && (outcome == Some(SlowPath) <==>
                  && Unanimous(kept) && !late && config.quorumThreshold <= n
                  && (config.optimisticThreshold == 0 || n < config.optimisticThreshold))
  {
    var a, all := After(config, atts), atts + [att];
    var kept := OnTime(config, all);
    assert all[..|atts|] == atts;
    AfterRemembers(config, atts);
    AfterRemembers(config, all);
    assert all[0] == if atts == [] then att else atts[0];
    var late := atts != [] && att.receivedAtMs > atts[0].receivedAtMs + config.timeoutMs;
    if late {
      assert kept == OnTime(config, atts) + [] == OnTime(config, atts);
    } else {
      var b := After(config, all);
      if !b.conflict {
        EntriesNameFirst(kept, b.attestations);
        CountUnanimous(b.attestations, kept[0].blockHash);
      }
    }
  }

  lemma {:induction false} EntriesNameFirst(kept: seq<Attestation>, entries: seq<Attestation>)
    requires kept != [] && Unanimous(kept) && Latest(kept, entries)
    ensures forall i :: 0 <= i < |entries| ==> entries[i].blockHash == kept[0].blockHash
  {
    forall i | 0 <= i < |entries| ensures entries[i].blockHash == kept[0].blockHash {
      var j :| 0 <= j < |kept| && kept[j] == entries[i];
      assert kept[j].blockHash == kept[0].blockHash;
    }
  }

  // ---- the proof ----

  lemma {:induction false} IndexBytesAt(attesters: seq<u64>, i: nat, j: nat)
    requires i < |attesters| && j < 8
    ensures IndexBytes(attesters)[8 * i + j] == attesters[i] / Pow256(j) % 256
  {
    var n := |attesters| - 1;
    if i < n {
      IndexBytesAt(attesters[..n], i, j);
    } else {
      LittleEndianDigit(attesters[n], 8, j);
    }
  }

  lemma {:induction false} FirstSignatureIs(entries: seq<Attestation>, h: Hash)
    requires forall i :: 0 <= i < |entries| ==> entries[i].blockHash == h
    ensures forall i :: 0 <= i < |entries| && entries[i].signature != []
                        && (forall j :: 0 <= j < i ==> entries[j].signature == []) ==>
              FirstSignature(entries, h) == entries[i].signature
    ensures (forall i :: 0 <= i < |entries| ==> entries[i].signature == []) ==> FirstSignature(entries, h) == []
  {
    if entries != [] {
      FirstSignatureIs(entries[..|entries| - 1], h);
      assert forall i :: 0 <= i < |entries| - 1 ==> entries[..|entries| - 1][i] == entries[i];
    }
  }

  /** The fields of a proof about entries that all name `h`: the block, the time, the first signature there
      is, and each attester's index in eight bytes, least significant first. */
  ghost predicate Spells(proof: FinalityProof, entries: seq<Attestation>, h: Hash, time: u64) {
    && proof.finalizedAt == proof.commitment.timestamp == time
    && proof.commitment.blockHash == h && proof.commitment.blockNumber == proof.commitment.stateRoot == 0
    && proof.commitment.proposerIndex == 0
    && |proof.proofData| == 8 * |entries|
    && (forall i, j :: 0 <= i < |entries| && 0 <= j < 8 ==>
          proof.proofData[8 * i + j] == entries[i].attester / Pow256(j) % 256)
    && (forall i :: 0 <= i < |entries| && entries[i].signature != []
                    && (forall k :: 0 <= k < i ==> entries[k].signature == []) ==>
          proof.commitment.signature == entries[i].signature)
    && ((forall i :: 0 <= i < |entries| ==> entries[i].signature == []) ==> proof.commitment.signature == [])
  }

  lemma {:induction false} ProofSpells(entries: seq<Attestation>, h: Hash, time: u64)
    requires forall i :: 0 <= i < |entries| ==> entries[i].blockHash == h
    ensures Spells(ProofFor(entries, h, time), entries, h, time)
  {
    AttestersInOrder(entries, h);
    FirstSignatureIs(entries, h);
    var proof := ProofFor(entries, h, time);
    forall i, j | 0 <= i < |entries| && 0 <= j < 8
      ensures proof.proofData[8 * i + j] == entries[i].attester / Pow256(j) % 256
    {
      IndexBytesAt(AttestersFor(entries, h), i, j);
    }
  }

  /** The proof of a fast finalization spells out the latest attestation of each timely attester. */
  lemma {:induction false} ProofContents(config: Config, atts: seq<Attestation>, att: Attestation, proof: FinalityProof)
    requires Add(config, After(config, atts), att).1 == Some(FastFinalized(proof))
    ensures var entries := After(config, atts + [att]).attestations;
            Latest(OnTime(config, atts + [att]), entries) && Spells(proof, entries, att.blockHash, att.receivedAtMs)
  {
    var all := atts + [att];
    assert all[..|atts|] == atts && all[|atts|] == att;
    HistoryDecides(config, atts, att);
    AfterRemembers(config, all);
    LastKept(config, atts, att);
    var entries := After(config, all).attestations;
    EntriesNameFirst(OnTime(config, all), entries);
    ProofSpells(entries, att.blockHash, att.receivedAtMs);
  }

  lemma {:induction false} LastKept(config: Config, atts: seq<Attestation>, att: Attestation)
    requires Unanimous(OnTime(config, atts + [att]))
    requires atts != [] ==> att.receivedAtMs <= atts[0].receivedAtMs + config.timeoutMs
    ensures OnTime(config, atts + [att]) != [] && OnTime(config, atts + [att])[0].blockHash == att.blockHash
  {
    var all := atts + [att];
    assert all[..|atts|] == atts && all[|all| - 1] == att && all[0] == if atts == [] then att else atts[0];
    var kept := OnTime(config, all);
    assert kept == OnTime(config, atts) + [att];
    assert kept[|kept| - 1] == att;
  }
}
