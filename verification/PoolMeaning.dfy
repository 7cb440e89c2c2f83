/** What the pool accepts, evicts and drains, told from its transactions alone. */
module PoolMeaning {
  import opened Common
  import opened Mempool

  /** Accepted transactions of this sender. */
  function SentBy(txs: Table, sender: Address): set<Hash> {
    set h | h in txs && txs[h].sender == sender
  }

  /** Each refusal and its cause, in the order in which they are looked for. */
  lemma {:induction false} RefusalMeans(config: Config, txs: Table, tx: Transaction)
    ensures var r := Verdict(config, txs, tx);
            var known := tx.hash in txs;
            var cheap := tx.gasLimit == 0 || tx.gasPrice < config.minGasPrice;
            var stale := exists h :: h in txs && txs[h].sender == tx.sender && txs[h].nonce == tx.nonce;
            var crowded := |SentBy(txs, tx.sender)| >= config.maxPerAccount;
            var full := |txs| >= config.maxSize && (config.evictionPercent == 0 || config.maxSize == 0);
            && (r == Some(DuplicateTransaction) <==> known)
            && (r == Some(InsufficientGas) <==> !known && cheap)
            && (r == Some(InvalidNonce) <==> !known && !cheap && stale)
            && (r == Some(AccountLimit) <==> !known && !cheap && !stale && crowded)
            && (r == Some(MempoolFull) <==> !known && !cheap && !stale && !crowded && full)
            && (r == None <==> !known && !cheap && !stale && !crowded && !full)
  {
    assert tx.nonce in NoncesOf(txs, tx.sender) <==>
           exists h :: h in txs && txs[h].sender == tx.sender && txs[h].nonce == tx.nonce;
    assert SentBy(txs, tx.sender) == HashesOf(txs, tx.sender);
  }

  /** An accepted transaction joins the pool; a pool that was at its limit loses one transaction for it, of
      least price and, among those, of greatest nonce. */
  lemma {:induction false} InsertionMeans(config: Config, before: Table, after: Table, tx: Transaction,
                                          victim: Option<Hash>)
    requires Inserted(config, before, after, tx, victim) && tx.hash !in before
    ensures |before| < config.maxSize ==> after == before[tx.hash := tx]
    ensures |before| >= config.maxSize ==>
              && victim.Some? && victim.value in before
              && (forall h :: h in after <==> h == tx.hash || (h in before && h != victim.value))
              && (forall h :: h in after ==> after[h] == if h == tx.hash then tx else before[h])
              && (forall h :: h in before ==> before[victim.value].gasPrice <= before[h].gasPrice)
              && (forall h :: h in before && before[h].gasPrice == before[victim.value].gasPrice ==>
                    before[h].nonce <= before[victim.value].nonce)
  {
    if |before| >= config.maxSize {
      forall h | h in before
        ensures before[victim.value].gasPrice <= before[h].gasPrice
        ensures before[h].gasPrice == before[victim.value].gasPrice ==> before[h].nonce <= before[victim.value].nonce
      {
        assert EvictsBefore(before[victim.value], before[h]);
      }
    }
  }

  /** Dearer first; at one price the lower nonce first; at one nonce the lower hash first. */
  predicate Precedes(a: Transaction, b: Transaction) {
    || b.gasPrice < a.gasPrice
    || (b.gasPrice == a.gasPrice && (a.nonce < b.nonce || (a.nonce == b.nonce && a.hash < b.hash)))
  }

  /** Draining takes as many as asked for and there are, strictly in order, and everything it leaves comes
      after everything it takes. */
  lemma {:induction false} DrainingMeans(txs: Table, k: nat)
    requires KeyedByHash(txs)
    ensures var taken, left := Best(txs, k), Rest(txs, k);
            && |taken| == (if k <= |txs| then k else |txs|)
            && (forall i, j :: 0 <= i < j < |taken| ==> Precedes(taken[i], taken[j]))
            && (forall h :: h in txs <==> h in left || exists i :: 0 <= i < |taken| && taken[i].hash == h)
            && (forall i :: 0 <= i < |taken| ==> taken[i].hash in txs && taken[i] == txs[taken[i].hash])
            && (forall h :: h in left ==> h in txs && left[h] == txs[h])
            && (forall i, h :: 0 <= i < |taken| && h in left ==> Precedes(taken[i], left[h]))
  {
    DrainedOutranksRest(txs, k);
    TakenOrLeft(txs, k);
    var taken, left := Best(txs, k), Rest(txs, k);
    forall i, j | 0 <= i < j < |taken| ensures Precedes(taken[i], taken[j]) {
      assert Outranks(taken[i], taken[j]);
    }
    forall i, h | 0 <= i < |taken| && h in left ensures Precedes(taken[i], left[h]) {
      assert Outranks(taken[i], txs[h]);
    }
  }

  /** Each transaction is taken once or left. */
  lemma {:induction false} TakenOrLeft(txs: Table, k: nat)
    requires KeyedByHash(txs)
    ensures forall h :: h in txs <==>
              h in Rest(txs, k) || exists i :: 0 <= i < |Best(txs, k)| && Best(txs, k)[i].hash == h
    ensures forall i :: 0 <= i < |Best(txs, k)| ==> Best(txs, k)[i].hash !in Rest(txs, k)
    ensures forall i, j :: 0 <= i < j < |Best(txs, k)| ==> Best(txs, k)[i].hash != Best(txs, k)[j].hash
    decreases k
  {
    if k > 0 && txs != map[] {
      var top := Top(txs);
      var rest := txs - {top};
      TakenOrLeft(rest, k - 1);
      var taken, later := Best(txs, k), Best(rest, k - 1);
      assert taken[0] == txs[top] && forall i :: 0 < i < |taken| ==> taken[i] == later[i - 1];
      forall h | h in txs ensures h in Rest(txs, k) || exists i :: 0 <= i < |taken| && taken[i].hash == h {
        if h == top {
          assert taken[0].hash == h;
        } else if h !in Rest(txs, k) {
          assert h in rest;
          var i :| 0 <= i < |later| && later[i].hash == h;
          assert taken[i + 1].hash == h;
        }
      }
      forall i | 0 <= i < |later| ensures later[i].hash in rest {
      }
    }
  }
}
