/** The transaction pool: a primary table with two per-account indexes, eviction and priority draining. */
module Mempool {
  import opened Common
  import Orders

  type Hash = nat
  type Address = nat

  datatype Transaction = Transaction(
    hash: Hash, sender: Address, to: Address, nonce: nat, gasLimit: nat, gasPrice: nat, value: nat, data: seq<bv8>)

  datatype Error = DuplicateTransaction | InvalidNonce | InsufficientGas | MempoolFull | AccountLimit

  datatype Config = Config(maxSize: nat, maxPerAccount: nat, minGasPrice: nat, evictionPercent: nat)

  type Table = map<Hash, Transaction>

  // ---- what a scan of the table gives ----

  function HashesOf(txs: Table, a: Address): set<Hash> {
    set h | h in txs && txs[h].sender == a
  }

  function NoncesOf(txs: Table, a: Address): set<nat> {
    set h | h in txs && txs[h].sender == a :: txs[h].nonce
  }

  predicate KeyedByHash(txs: Table) {
    forall h :: h in txs ==> txs[h].hash == h
  }

  predicate NoncesUnique(txs: Table) {
    forall h, g :: h in txs && g in txs && txs[h].sender == txs[g].sender && txs[h].nonce == txs[g].nonce ==> h == g
  }

  ghost predicate WithinLimits(config: Config, txs: Table) {
    |txs| <= config.maxSize && forall a: Address :: |HashesOf(txs, a)| <= config.maxPerAccount
  }

  ghost predicate CountsMatch(txs: Table, counts: map<Address, nat>) {
    && (forall a: Address :: a in counts ==> counts[a] == |HashesOf(txs, a)| > 0)
    && (forall a: Address :: a !in counts ==> HashesOf(txs, a) == {})
  }

  ghost predicate NoncesMatch(txs: Table, nonces: map<Address, set<nat>>) {
    && (forall a: Address :: a in nonces ==> nonces[a] == NoncesOf(txs, a) != {})
    && (forall a: Address :: a !in nonces ==> NoncesOf(txs, a) == {})
  }

  /** Why a candidate is turned away, read off the table alone. */
  function Objection(config: Config, txs: Table, tx: Transaction): Option<Error> {
    if tx.hash in txs then Some(DuplicateTransaction)
    else if tx.gasLimit == 0 || tx.gasPrice < config.minGasPrice then Some(InsufficientGas)
    else if tx.nonce in NoncesOf(txs, tx.sender) then Some(InvalidNonce)
    else if |HashesOf(txs, tx.sender)| >= config.maxPerAccount then Some(AccountLimit)
    else None
  }

  // ---- rankings ----

  /** Eviction order: cheapest first, among equals the highest nonce first. */
  predicate EvictsBefore(a: Transaction, b: Transaction) {
    a.gasPrice < b.gasPrice || (a.gasPrice == b.gasPrice && a.nonce >= b.nonce)
  }

  /** Draining order: dearest first, then lowest nonce, then lowest hash. */
  predicate Outranks(a: Transaction, b: Transaction) {
    || a.gasPrice > b.gasPrice
    || (a.gasPrice == b.gasPrice && a.nonce < b.nonce)
    || (a.gasPrice == b.gasPrice && a.nonce == b.nonce && a.hash <= b.hash)
  }

  predicate IsTop(txs: Table, within: set<Hash>, h: Hash) {
    h in within && h in txs && forall g :: g in within && g in txs ==> Outranks(txs[h], txs[g])
  }

  predicate IsVictim(txs: Table, within: set<Hash>, h: Hash) {
    h in within && h in txs && forall g :: g in within && g in txs ==> EvictsBefore(txs[h], txs[g])
  }

  /** `before` as an order on all hashes, those outside the table coming last. */
  predicate InTable(before: (Transaction, Transaction) -> bool, txs: Table, h: Hash, g: Hash) {
    if h in txs && g in txs then before(txs[h], txs[g]) else g !in txs
  }

  lemma {:induction false} HasTop(txs: Table, within: set<Hash>)
    requires within != {} && within <= txs.Keys
    ensures exists h :: IsTop(txs, within, h)
  {
    var le := (h, g) => InTable(Outranks, txs, h, g);
    Orders.HasLeast(le, within);
    var h :| Orders.IsLeast(le, within, h);
    assert forall g :: g in within ==> le(h, g);
    assert IsTop(txs, within, h);
  }

  lemma {:induction false} TopUnique(txs: Table, within: set<Hash>, h: Hash, g: Hash)
    requires KeyedByHash(txs) && IsTop(txs, within, h) && IsTop(txs, within, g)
    ensures h == g
  {
    assert Outranks(txs[h], txs[g]) && Outranks(txs[g], txs[h]);
  }

  // ---- table changes seen by the indexes ----

  lemma {:induction false} NoncesAfterInsert(txs: Table, tx: Transaction, a: Address)
    requires tx.hash !in txs
    ensures NoncesOf(txs[tx.hash := tx], a) == NoncesOf(txs, a) + (if tx.sender == a then {tx.nonce} else {})
  {
    var after := txs[tx.hash := tx];
    forall n: nat | n in NoncesOf(txs, a) ensures n in NoncesOf(after, a) {
      var h :| h in txs && txs[h].sender == a && txs[h].nonce == n;
      assert h in after && after[h] == txs[h];
    }
    forall n: nat | n in NoncesOf(after, a) && n !in NoncesOf(txs, a) ensures tx.sender == a && n == tx.nonce {
      var h :| h in after && after[h].sender == a && after[h].nonce == n;
    }
    if tx.sender == a {
      assert tx.hash in after && after[tx.hash] == tx;
    }
  }

  lemma {:induction false} AfterInsert(txs: Table, tx: Transaction, a: Address)
    requires tx.hash !in txs
    ensures var after := txs[tx.hash := tx];
            && HashesOf(after, a) == HashesOf(txs, a) + (if tx.sender == a then {tx.hash} else {})
            && NoncesOf(after, a) == NoncesOf(txs, a) + (if tx.sender == a then {tx.nonce} else {})
            && |HashesOf(after, a)| == |HashesOf(txs, a)| + (if tx.sender == a then 1 else 0)
  {
    NoncesAfterInsert(txs, tx, a);
    assert HashesOf(txs[tx.hash := tx], a) == HashesOf(txs, a) + (if tx.sender == a then {tx.hash} else {});
  }

  lemma {:induction false} AfterRemove(txs: Table, h: Hash, a: Address)
    requires h in txs && NoncesUnique(txs)
    ensures var after := txs - {h};
            && HashesOf(after, a) == HashesOf(txs, a) - (if txs[h].sender == a then {h} else {})
            && NoncesOf(after, a) == NoncesOf(txs, a) - (if txs[h].sender == a then {txs[h].nonce} else {})
            && |HashesOf(after, a)| == |HashesOf(txs, a)| - (if txs[h].sender == a then 1 else 0)
  {
    var after := txs - {h};
    assert HashesOf(after, a) == HashesOf(txs, a) - (if txs[h].sender == a then {h} else {});
    if txs[h].sender == a {
      assert h in HashesOf(txs, a);
    }
    forall n | n in NoncesOf(txs, a) && (txs[h].sender == a ==> n != txs[h].nonce) ensures n in NoncesOf(after, a) {
      var g :| g in txs && txs[g].sender == a && txs[g].nonce == n;
      assert g in after && after[g] == txs[g];
    }
  }

  // ---- draining, as repeated extraction of the top ----

  ghost function Top(txs: Table): (h: Hash)
    requires txs != map[]
    ensures IsTop(txs, txs.Keys, h)
  {
    HasTop(txs, txs.Keys);
    var h :| IsTop(txs, txs.Keys, h);
    h
  }

  /** The `k` best transactions, best first. */
  ghost function Best(txs: Table, k: nat): seq<Transaction>
    decreases k
  {
    if k == 0 || txs == map[] then [] else [txs[Top(txs)]] + Best(txs - {Top(txs)}, k - 1)
  }

  /** What draining the `k` best leaves. */
  ghost function Rest(txs: Table, k: nat): Table
    decreases k
  {
    if k == 0 || txs == map[] then txs else Rest(txs - {Top(txs)}, k - 1)
  }

  /** Draining `k` and then `m` is draining `k + m`. */
  lemma {:induction false} DrainComposes(txs: Table, k: nat, m: nat)
    ensures Best(txs, k + m) == Best(txs, k) + Best(Rest(txs, k), m)
    ensures Rest(txs, k + m) == Rest(Rest(txs, k), m)
    decreases k
  {
    if k > 0 && txs != map[] {
      DrainComposes(txs - {Top(txs)}, k - 1, m);
    }
  }

  /** What is drained comes from the pool in rank order, and outranks whatever stays. */
  lemma {:induction false} DrainedOutranksRest(txs: Table, k: nat)
    requires KeyedByHash(txs)
    ensures forall i :: 0 <= i < |Best(txs, k)| ==>
              Best(txs, k)[i].hash in txs && txs[Best(txs, k)[i].hash] == Best(txs, k)[i]
    ensures forall i, j :: 0 <= i < j < |Best(txs, k)| ==> Outranks(Best(txs, k)[i], Best(txs, k)[j])
    ensures forall h :: h in Rest(txs, k) ==> h in txs && Rest(txs, k)[h] == txs[h]
    ensures forall i, h :: 0 <= i < |Best(txs, k)| && h in Rest(txs, k) ==> Outranks(Best(txs, k)[i], txs[h])
    ensures |Best(txs, k)| == if k <= |txs| then k else |txs|
    decreases k
  {
    if k > 0 && txs != map[] {
      var top := Top(txs);
      var rest := txs - {top};
      assert rest.Keys == txs.Keys - {top};
      DrainedOutranksRest(rest, k - 1);
      var best := Best(txs, k);
      assert best == [txs[top]] + Best(rest, k - 1);
      forall i | 0 <= i < |best|
        ensures best[i].hash in txs && txs[best[i].hash] == best[i] && Outranks(best[0], best[i])
      {
        if i > 0 {
          assert best[i] == Best(rest, k - 1)[i - 1];
          assert rest[best[i].hash] == best[i];
        }
      }
    }
  }

  // ---- index changes ----

  function CountsWith(counts: map<Address, nat>, tx: Transaction): map<Address, nat> {
    counts[tx.sender := if tx.sender in counts then counts[tx.sender] + 1 else 1]
  }

  function NoncesWith(nonces: map<Address, set<nat>>, tx: Transaction): map<Address, set<nat>> {
    nonces[tx.sender := (if tx.sender in nonces then nonces[tx.sender] else {}) + {tx.nonce}]
  }

  function CountsWithout(counts: map<Address, nat>, tx: Transaction): map<Address, nat> {
    if tx.sender !in counts then counts
    else if counts[tx.sender] <= 1 then counts - {tx.sender}
    else counts[tx.sender := counts[tx.sender] - 1]
  }

  function NoncesWithout(nonces: map<Address, set<nat>>, tx: Transaction): map<Address, set<nat>> {
    if tx.sender !in nonces then nonces
    else if nonces[tx.sender] - {tx.nonce} == {} then nonces - {tx.sender}
    else nonces[tx.sender := nonces[tx.sender] - {tx.nonce}]
  }

  lemma {:induction false} CountsAfterInsert(config: Config, txs: Table, counts: map<Address, nat>, tx: Transaction)
    requires CountsMatch(txs, counts) && WithinLimits(config, txs) && tx.hash !in txs
    requires |txs| < config.maxSize && |HashesOf(txs, tx.sender)| < config.maxPerAccount
    ensures CountsMatch(txs[tx.hash := tx], CountsWith(counts, tx)) && WithinLimits(config, txs[tx.hash := tx])
  {
    var after, counts' := txs[tx.hash := tx], CountsWith(counts, tx);
    forall a: Address
      ensures a in counts' ==> counts'[a] == |HashesOf(after, a)| > 0
      ensures a !in counts' ==> HashesOf(after, a) == {}
      ensures |HashesOf(after, a)| <= config.maxPerAccount
    {
      AfterInsert(txs, tx, a);
      assert |HashesOf(txs, a)| <= config.maxPerAccount;
    }
  }

  lemma {:induction false} NoncesMatchAfterInsert(txs: Table, nonces: map<Address, set<nat>>, tx: Transaction)
    requires NoncesMatch(txs, nonces) && tx.hash !in txs
    ensures NoncesMatch(txs[tx.hash := tx], NoncesWith(nonces, tx))
  {
    var after, nonces' := txs[tx.hash := tx], NoncesWith(nonces, tx);
    forall a: Address
      ensures a in nonces' ==> nonces'[a] == NoncesOf(after, a) != {}
      ensures a !in nonces' ==> NoncesOf(after, a) == {}
    {
      NoncesAfterInsert(txs, tx, a);
    }
  }

  lemma {:induction false} CountAfterRemove(txs: Table, counts: map<Address, nat>, h: Hash, a: Address)
    requires CountsMatch(txs, counts) && NoncesUnique(txs) && h in txs
    ensures var after, counts' := txs - {h}, CountsWithout(counts, txs[h]);
            && (a in counts' ==> counts'[a] == |HashesOf(after, a)| > 0)
            && (a !in counts' ==> HashesOf(after, a) == {})
            && |HashesOf(after, a)| <= |HashesOf(txs, a)|
  {
    AfterRemove(txs, h, a);
    if a == txs[h].sender {
      assert h in HashesOf(txs, a);
    }
  }

  lemma {:induction false} CountsAfterRemove(config: Config, txs: Table, counts: map<Address, nat>, h: Hash)
    requires CountsMatch(txs, counts) && WithinLimits(config, txs) && NoncesUnique(txs) && h in txs
    ensures CountsMatch(txs - {h}, CountsWithout(counts, txs[h])) && WithinLimits(config, txs - {h})
  {
    var after, counts' := txs - {h}, CountsWithout(counts, txs[h]);
    forall a: Address
      ensures a in counts' ==> counts'[a] == |HashesOf(after, a)| > 0
      ensures a !in counts' ==> HashesOf(after, a) == {}
      ensures |HashesOf(after, a)| <= config.maxPerAccount
    {
      CountAfterRemove(txs, counts, h, a);
      assert |HashesOf(txs, a)| <= config.maxPerAccount;
    }
    SmallerTable(txs, h);
  }

  lemma {:induction false} SmallerTable(txs: Table, h: Hash)
    requires h in txs
    ensures |txs - {h}| == |txs| - 1
  {
    assert (txs - {h}).Keys == txs.Keys - {h};
  }

  lemma {:induction false} NoncesMatchAfterRemove(txs: Table, nonces: map<Address, set<nat>>, h: Hash)
    requires NoncesMatch(txs, nonces) && NoncesUnique(txs) && h in txs
    ensures NoncesMatch(txs - {h}, NoncesWithout(nonces, txs[h]))
  {
    var after, nonces' := txs - {h}, NoncesWithout(nonces, txs[h]);
    forall a: Address
      ensures a in nonces' ==> nonces'[a] == NoncesOf(after, a) != {}
      ensures a !in nonces' ==> NoncesOf(after, a) == {}
    {
      AfterRemove(txs, h, a);
      assert a in nonces ==> nonces[a] == NoncesOf(txs, a);
      assert a !in nonces ==> NoncesOf(txs, a) == {};
    }
  }

  // ---- insertion, as a change of the table ----

  predicate Full(config: Config, txs: Table) {
    |txs| >= config.maxSize
  }

  /** An acceptable candidate is refused only by a full pool that may not evict, or has no room at all. */
  function Verdict(config: Config, txs: Table, tx: Transaction): Option<Error> {
    var objection := Objection(config, txs, tx);
    if objection.Some? then objection
    else if Full(config, txs) && (config.evictionPercent == 0 || config.maxSize == 0) then Some(MempoolFull)
    else None
  }

  /** The table gains `tx` and, if it was full, loses exactly one transaction: one of lowest price and
      of highest nonce among those. */
  predicate Inserted(config: Config, before: Table, after: Table, tx: Transaction, victim: Option<Hash>) {
    if Full(config, before) then
      && victim.Some? && IsVictim(before, before.Keys, victim.value)
      && after == (before - {victim.value})[tx.hash := tx]
    else
      victim.None? && after == before[tx.hash := tx]
  }

  /** Every pooled transaction has gas and pays the minimum price. */
  predicate PaysEnough(config: Config, txs: Table) {
    forall h :: h in txs ==> txs[h].gasLimit > 0 && txs[h].gasPrice >= config.minGasPrice
  }

  /** Both indexes say what a scan of the table would, no sender repeats a nonce, the limits hold, and
      every transaction pays enough. */
  ghost predicate Consistent(config: Config, txs: Table, counts: map<Address, nat>, nonces: map<Address, set<nat>>) {
    && KeyedByHash(txs) && NoncesUnique(txs) && WithinLimits(config, txs)
    && CountsMatch(txs, counts) && NoncesMatch(txs, nonces) && PaysEnough(config, txs)
  }

  lemma {:induction false} ConsistentAfterInsert(config: Config, txs: Table, counts: map<Address, nat>,
                                                nonces: map<Address, set<nat>>, tx: Transaction)
    requires Consistent(config, txs, counts, nonces) && !Full(config, txs)
    requires tx.hash !in txs && tx.nonce !in NoncesOf(txs, tx.sender)
    requires |HashesOf(txs, tx.sender)| < config.maxPerAccount
    requires tx.gasLimit > 0 && tx.gasPrice >= config.minGasPrice
    ensures Consistent(config, txs[tx.hash := tx], CountsWith(counts, tx), NoncesWith(nonces, tx))
  {
    CountsAfterInsert(config, txs, counts, tx);
    NoncesMatchAfterInsert(txs, nonces, tx);
    NoncesStayUnique(txs, tx);
    TransactionsAfterInsert(config, txs, tx);
  }

  lemma {:induction false} TransactionsAfterInsert(config: Config, txs: Table, tx: Transaction)
    requires KeyedByHash(txs) && PaysEnough(config, txs) && tx.gasLimit > 0 && tx.gasPrice >= config.minGasPrice
    ensures KeyedByHash(txs[tx.hash := tx]) && PaysEnough(config, txs[tx.hash := tx])
  {
  }

  // ---- the pool ----

  class Pool {
    const config: Config
    var transactions: Table
    var accountCounts: map<Address, nat>
    var accountNonces: map<Address, set<nat>>

    ghost predicate Valid()
      reads this
    {
      Consistent(config, transactions, accountCounts, accountNonces)
    }

    constructor (config: Config)
      ensures this.config == config && Valid() && transactions == map[]
    {
      this.config := config;
      transactions, accountCounts, accountNonces := map[], map[], map[];
    }

    method Clear()
      modifies this
      ensures Valid() && transactions == map[]
    {
      transactions, accountCounts, accountNonces := map[], map[], map[];
    }

    predicate IsFull()
      reads this
    {
      Full(config, transactions)
    }

    method ValidateCandidate(tx: Transaction) returns (r: Option<Error>)
      requires Valid()
      ensures r == Objection(config, transactions, tx)
    {
      if tx.hash in transactions {
        return Some(DuplicateTransaction);
      }
      if tx.gasLimit == 0 || tx.gasPrice < config.minGasPrice {
        return Some(InsufficientGas);
      }
      if tx.sender in accountNonces && tx.nonce in accountNonces[tx.sender] {
        return Some(InvalidNonce);
      }
      var count := if tx.sender in accountCounts then accountCounts[tx.sender] else 0;
      assert count == |HashesOf(transactions, tx.sender)|;
      assert tx.nonce !in NoncesOf(transactions, tx.sender);
      if count >= config.maxPerAccount {
        return Some(AccountLimit);
      }
      return None;
    }

    function SuggestedEvictionCount(): nat {
      var percent := if config.evictionPercent <= 100 then config.evictionPercent else 100;
      if percent == 0 then 0
      else
        var size := if config.maxSize == 0 then 1 else config.maxSize;
        if size * percent / 100 >= 1 then size * percent / 100 else 1
    }

    /** A failed insert changes nothing. */
    method Insert(tx: Transaction) returns (r: Option<Error>, ghost victim: Option<Hash>)
      requires Valid()
      modifies this
      ensures Valid()
      ensures r == Verdict(config, old(transactions), tx)
      ensures r.Some? ==> unchanged(this)
      ensures r.None? ==> Inserted(config, old(transactions), transactions, tx, victim)
    {
      victim := None;
      r := ValidateCandidate(tx);
      if r.Some? {
        return;
      }
      if IsFull() {
        var evictions := SuggestedEvictionCount();
        if evictions == 0 {
          return Some(MempoolFull), None;
        }
        victim := EvictLowestGas(evictions);
        if victim.Some? {
          FewerHashes(old(transactions), victim.value, tx.sender);
        }
      }
      if IsFull() {
        return Some(MempoolFull), None;
      }
      Record(tx);
    }

    /** What the ingress pipeline does with a submitted transaction: it validates twice. */
    method Submit(tx: Transaction) returns (r: Option<Error>, ghost victim: Option<Hash>)
      requires Valid()
      modifies this
      ensures Valid()
      ensures r == Verdict(config, old(transactions), tx)
      ensures r.Some? ==> unchanged(this)
      ensures r.None? ==> Inserted(config, old(transactions), transactions, tx, victim)
    {
      victim := None;
      r := ValidateCandidate(tx);
      if r.None? {
        r, victim := Insert(tx);
      }
    }

    /** The three table updates of a successful insert. */
    method Record(tx: Transaction)
      requires Valid() && !IsFull() && tx.hash !in transactions && tx.nonce !in NoncesOf(transactions, tx.sender)
      requires |HashesOf(transactions, tx.sender)| < config.maxPerAccount
      requires tx.gasLimit > 0 && tx.gasPrice >= config.minGasPrice
      modifies this
      ensures Valid() && transactions == old(transactions)[tx.hash := tx]
    {
      ConsistentAfterInsert(config, transactions, accountCounts, accountNonces, tx);
      IncrementAccountState(tx);
      transactions := transactions[tx.hash := tx];
    }

    method IncrementAccountState(tx: Transaction)
      modifies this`accountCounts, this`accountNonces
      ensures accountCounts == CountsWith(old(accountCounts), tx)
      ensures accountNonces == NoncesWith(old(accountNonces), tx)
    {
      var count := if tx.sender in accountCounts then accountCounts[tx.sender] else 0;
      accountCounts := accountCounts[tx.sender := count + 1];
      var nonces := if tx.sender in accountNonces then accountNonces[tx.sender] else {};
      accountNonces := accountNonces[tx.sender := nonces + {tx.nonce}];
    }

    method Remove(h: Hash) returns (r: Option<Transaction>)
      requires Valid()
      modifies this
      ensures Valid() && transactions == old(transactions) - {h}
      ensures r == if h in old(transactions) then Some(old(transactions)[h]) else None
    {
      if h !in transactions {
        assert transactions - {h} == transactions;
        return None;
      }
      var tx := transactions[h];
      CountsAfterRemove(config, transactions, accountCounts, h);
      NoncesMatchAfterRemove(transactions, accountNonces, h);
      transactions := transactions - {h};
      DecrementAccountState(tx);
      r := Some(tx);
    }

    method DecrementAccountState(tx: Transaction)
      modifies this`accountCounts, this`accountNonces
      ensures accountCounts == CountsWithout(old(accountCounts), tx)
      ensures accountNonces == NoncesWithout(old(accountNonces), tx)
    {
      var removeCount := false;
      if tx.sender in accountCounts {
        var count := accountCounts[tx.sender];
        accountCounts := accountCounts[tx.sender := if count == 0 then 0 else count - 1];
        removeCount := accountCounts[tx.sender] == 0;
      }
      if removeCount {
        accountCounts := accountCounts - {tx.sender};
      }
      var removeNonces := false;
      if tx.sender in accountNonces {
        accountNonces := accountNonces[tx.sender := accountNonces[tx.sender] - {tx.nonce}];
        removeNonces := accountNonces[tx.sender] == {};
      }
      if removeNonces {
        accountNonces := accountNonces - {tx.sender};
      }
    }

    method EvictLowestGas(toEvict: nat) returns (ghost victim: Option<Hash>)
      requires Valid()
      modifies this
      ensures Valid()
      ensures !old(IsFull()) || toEvict == 0 || config.maxSize == 0 ==> victim.None? && unchanged(this)
      ensures old(IsFull()) && toEvict > 0 && config.maxSize > 0 ==>
                && victim.Some? && IsVictim(old(transactions), old(transactions.Keys), victim.value)
                && transactions == old(transactions) - {victim.value} && !IsFull()
    {
      victim := None;
      if |transactions| == 0 {
        return;
      }
      var left := toEvict;
      var candidates := EvictionOrder(transactions);
      ghost var before := transactions;
      for i := 0 to |candidates|
        invariant Valid()
        invariant i == 0 ==> unchanged(this) && left == toEvict && victim.None?
        invariant i > 0 ==> old(IsFull()) && toEvict > 0
        invariant i > 0 ==> victim == Some(candidates[0]) && transactions == before - {candidates[0]} && !IsFull()
      {
        if !IsFull() || left == 0 {
          break;
        }
        var removed := Remove(candidates[i]);
        victim := Some(candidates[i]);
        assert transactions.Keys == before.Keys - {candidates[0]};
        left := left - 1;
      }
    }

    /** The best transactions first, at most `count` of them. */
    method PeekBest(count: nat) returns (best: seq<Transaction>)
      requires Valid()
      ensures best == Best(transactions, count)
    {
      var sorted := Ranking(transactions);
      RankedIsBest(transactions, sorted);
      BestPrefix(transactions, |sorted|, count);
      best := if count <= |sorted| then sorted[..count] else sorted;
    }

    /** Draining hands out the best transactions and removes them from all three tables. */
    method DrainBatch(count: nat) returns (drained: seq<Transaction>)
      requires Valid()
      modifies this
      ensures Valid()
      ensures drained == Best(old(transactions), count) && transactions == Rest(old(transactions), count)
    {
      var best := PeekBest(count);
      drained := [];
      ghost var before := transactions;
      for i := 0 to |best|
        invariant Valid() && drained == best[..i]
        invariant transactions == Rest(before, i)
      {
        RestStep(before, count, i);
        var removed := Remove(best[i].hash);
        if removed.Some? {
          drained := drained + [removed.value];
        }
        TakeNext(best, i);
      }
      RestAll(before, count, |best|);
    }
  }

  /** The pool's hashes in eviction order; ties in price and nonce may come out either way. */
  method EvictionOrder(txs: Table) returns (order: seq<Hash>)
    ensures |order| == |txs| && forall i :: 0 <= i < |order| ==> order[i] in txs
    ensures order != [] ==> IsVictim(txs, txs.Keys, order[0])
    ensures forall i, j :: 0 <= i < j < |order| ==>
              order[i] != order[j] && EvictsBefore(txs[order[i]], txs[order[j]])
  {
    var le := (h: Hash, g: Hash) => InTable(EvictsBefore, txs, h, g);
    order := Orders.SortedElements(le, txs.Keys);
    assert forall i :: 0 <= i < |order| ==> order[i] in txs;
    forall i, j | 0 <= i < j < |order| ensures EvictsBefore(txs[order[i]], txs[order[j]]) {
      assert le(order[i], order[j]);
    }
    if order != [] {
      forall g | g in txs ensures EvictsBefore(txs[order[0]], txs[g]) {
        assert g in order;
        var i :| 0 <= i < |order| && order[i] == g;
      }
    }
  }

  lemma {:induction false} TakeNext(txs: seq<Transaction>, i: nat)
    requires i < |txs|
    ensures txs[..i + 1] == txs[..i] + [txs[i]]
  {
  }

  /** The pool's transactions, each once, in draining order. */
  ghost predicate Ranked(txs: Table, sorted: seq<Transaction>) {
    && |sorted| == |txs| && Orders.SortedBy(Outranks, sorted)
    && (forall i :: 0 <= i < |sorted| ==> sorted[i].hash in txs && txs[sorted[i].hash] == sorted[i])
    && (forall h :: h in txs ==> txs[h] in sorted)
  }

  /** The library sort of the collected values. */
  method Ranking(txs: Table) returns (sorted: seq<Transaction>)
    requires KeyedByHash(txs)
    ensures Ranked(txs, sorted)
  {
    var le := (h: Hash, g: Hash) => InTable(Outranks, txs, h, g);
    var order := Orders.SortedElements(le, txs.Keys);
    assert forall i :: 0 <= i < |order| ==> order[i] in txs;
    sorted := seq(|order|, i requires 0 <= i < |order| => txs[order[i]]);
    forall i, j | 0 <= i < j < |sorted| ensures Outranks(sorted[i], sorted[j]) {
      assert le(order[i], order[j]);
    }
    forall h | h in txs ensures txs[h] in sorted {
      assert h in order;
      var i :| 0 <= i < |order| && order[i] == h;
      assert sorted[i] == txs[h];
    }
  }

  /** The first of a ranking is the top, and the rest ranks what the top leaves. */
  lemma {:induction false} RankedTop(txs: Table, sorted: seq<Transaction>)
    requires KeyedByHash(txs) && Ranked(txs, sorted) && sorted != []
    ensures txs != map[] && sorted[0].hash == Top(txs) && sorted[0] == txs[Top(txs)]
    ensures KeyedByHash(txs - {Top(txs)}) && Ranked(txs - {Top(txs)}, sorted[1..])
  {
    var h := sorted[0].hash;
    forall g | g in txs ensures Outranks(txs[h], txs[g]) {
      assert txs[g] in sorted;
      var i :| 0 <= i < |sorted| && sorted[i] == txs[g];
      assert i > 0 ==> Outranks(sorted[0], sorted[i]);
    }
    TopUnique(txs, txs.Keys, h, Top(txs));
    RankedRest(txs, sorted);
  }

  lemma {:induction false} TailHolds(sorted: seq<Transaction>, tx: Transaction)
    requires tx in sorted && tx != sorted[0]
    ensures tx in sorted[1..]
  {
    var i :| 0 <= i < |sorted| && sorted[i] == tx;
    assert sorted[1..][i - 1] == tx;
  }

  lemma {:induction false} RankedRest(txs: Table, sorted: seq<Transaction>)
    requires KeyedByHash(txs) && Ranked(txs, sorted) && sorted != []
    ensures Ranked(txs - {sorted[0].hash}, sorted[1..])
  {
    var h, tail := sorted[0].hash, sorted[1..];
    var rest := txs - {h};
    assert rest.Keys == txs.Keys - {h};
    forall g | g in rest ensures rest[g] in tail {
      TailHolds(sorted, txs[g]);
    }
    RankedOnce(txs, sorted);
    forall i | 0 <= i < |tail| ensures tail[i].hash in rest && rest[tail[i].hash] == tail[i] {
      assert tail[i] == sorted[i + 1];
    }
  }

  /** A list as long as the table that misses none of its entries repeats none. */
  lemma {:induction false} RankedOnce(txs: Table, sorted: seq<Transaction>)
    requires KeyedByHash(txs) && Ranked(txs, sorted) && sorted != []
    ensures forall i :: 0 < i < |sorted| ==> sorted[i].hash != sorted[0].hash
  {
    if i :| 0 < i < |sorted| && sorted[i].hash == sorted[0].hash {
      var tail := sorted[1..];
      forall h | h in txs ensures txs[h] in tail {
        assert txs[h] in sorted;
        var j :| 0 <= j < |sorted| && sorted[j] == txs[h];
        assert tail[if j == 0 then i - 1 else j - 1] == txs[h];
      }
      CoverSize(txs, tail);
      assert false;
    }
  }

  lemma {:induction false} CoverSize(txs: Table, listed: seq<Transaction>)
    requires KeyedByHash(txs) && forall h :: h in txs ==> txs[h] in listed
    ensures |txs| <= |listed|
    decreases |listed|
  {
    if listed == [] {
      assert txs.Keys == {};
    } else {
      var h := listed[0].hash;
      var rest := txs - {h};
      assert rest.Keys == txs.Keys - {h};
      CoverSize(rest, listed[1..]);
    }
  }

  lemma {:induction false} BestStep(txs: Table, sorted: seq<Transaction>)
    requires txs != map[] && sorted != [] && sorted[0] == txs[Top(txs)]
    requires sorted[1..] == Best(txs - {Top(txs)}, |sorted[1..]|)
    ensures sorted == Best(txs, |sorted|)
  {
    assert sorted == [sorted[0]] + sorted[1..];
  }

  /** There is one ranking, the order in which repeated extraction of the top drains the pool. */
  lemma {:induction false} RankedIsBest(txs: Table, sorted: seq<Transaction>)
    requires KeyedByHash(txs) && Ranked(txs, sorted)
    ensures sorted == Best(txs, |sorted|)
    decreases |sorted|
  {
    if sorted != [] {
      RankedTop(txs, sorted);
      RankedIsBest(txs - {Top(txs)}, sorted[1..]);
      BestStep(txs, sorted);
    }
  }

  /** Removing the `i`-th best transaction is the `i`-th step of draining. */
  lemma {:induction false} RestStep(txs: Table, k: nat, i: nat)
    requires KeyedByHash(txs) && i < |Best(txs, k)|
    ensures Rest(txs, i + 1) == Rest(txs, i) - {Best(txs, k)[i].hash}
    ensures Best(txs, k)[i].hash in Rest(txs, i) && Rest(txs, i)[Best(txs, k)[i].hash] == Best(txs, k)[i]
  {
    DrainedOutranksRest(txs, k);
    DrainComposes(txs, i, k - i);
    DrainedOutranksRest(txs, i);
    var left := Rest(txs, i);
    assert Best(txs, k)[i] == Best(left, k - i)[0];
    assert left != map[];
    assert Best(left, k - i)[0] == left[Top(left)];
    DrainComposes(txs, i, 1);
    assert Rest(left, 1) == Rest(left - {Top(left)}, 0);
  }

  /** Draining more than there is drains everything. */
  lemma {:induction false} RestAll(txs: Table, k: nat, n: nat)
    requires n == |Best(txs, k)|
    ensures Rest(txs, k) == Rest(txs, n)
    decreases k
  {
    if k > 0 && txs != map[] {
      RestAll(txs - {Top(txs)}, k - 1, n - 1);
    }
  }

  lemma {:induction false} FewerHashes(txs: Table, h: Hash, a: Address)
    requires h in txs && NoncesUnique(txs)
    ensures NoncesOf(txs - {h}, a) <= NoncesOf(txs, a) && |HashesOf(txs - {h}, a)| <= |HashesOf(txs, a)|
  {
    AfterRemove(txs, h, a);
  }

  lemma {:induction false} NoncesStayUnique(txs: Table, tx: Transaction)
    requires NoncesUnique(txs) && tx.hash !in txs && tx.nonce !in NoncesOf(txs, tx.sender)
    ensures NoncesUnique(txs[tx.hash := tx])
  {
    forall h | h in txs && txs[h].sender == tx.sender ensures txs[h].nonce != tx.nonce {
      assert txs[h].nonce in NoncesOf(txs, tx.sender);
    }
  }

  /** A shorter ranking is a prefix of a longer one. */
  lemma {:induction false} BestPrefix(txs: Table, n: nat, k: nat)
    requires n == |txs| && |Best(txs, n)| == n
    ensures Best(txs, k) == if k <= n then Best(txs, n)[..k] else Best(txs, n)
    decreases k
  {
    if k > 0 && txs != map[] {
      var rest := txs - {Top(txs)};
      assert rest.Keys == txs.Keys - {Top(txs)};
      BestPrefix(rest, n - 1, k - 1);
    }
  }
}
