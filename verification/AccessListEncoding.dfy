/** The byte string hashed for an access list: canonical and injective. */
module AccessListEncoding {
  import opened Common
  import opened ByteOrder
  import opened AccessLists

  // ---- the layout ----

  function EncodeKeys(keys: seq<Word>): Bytes {
    if keys == [] then [] else EncodeKeys(keys[..|keys| - 1]) + BigEndian(keys[|keys| - 1], 32)
  }

  function EncodeOption(o: Option<nat>, w: nat): Bytes {
    if o.None? then [0] else [1] + BigEndian(o.value, w)
  }

  function EncodePosts(p: Posts): Bytes {
    EncodeOption(p.balance, 16) + EncodeOption(p.nonce, 8) + EncodeOption(p.codeHash, 32)
  }

  function EncodeAccount(a: Account): Bytes {
    BigEndian(a.address, 20) + BigEndian(|a.storageKeys|, 8) + EncodeKeys(a.storageKeys) + EncodePosts(a.posts)
  }

  function EncodeAccounts(accounts: seq<Account>): Bytes {
    if accounts == [] then [] else EncodeAccounts(accounts[..|accounts| - 1]) + EncodeAccount(accounts[|accounts| - 1])
  }

  function EncodeAccess(a: (Word, StorageAccess)): Bytes {
    BigEndian(a.0, 20) + BigEndian(a.1.key, 32) + BigEndian(a.1.pre, 32) + BigEndian(a.1.post, 32)
  }

  function EncodeAccesses(accesses: seq<(Word, StorageAccess)>): Bytes {
    if accesses == [] then [] else EncodeAccesses(accesses[..|accesses| - 1]) + EncodeAccess(accesses[|accesses| - 1])
  }

  /** The ASCII bytes of "eip7928". */
  const Domain: Bytes := [101, 105, 112, 55, 57, 50, 56]

  function Encode(list: AccessList): Bytes {
    Domain + BigEndian(list.blockNumber, 8)
    + (BigEndian(|list.accounts|, 8) + EncodeAccounts(list.accounts)
       + (BigEndian(|list.accesses|, 8) + EncodeAccesses(list.accesses)))
  }

  // ---- ranges given by the Rust types ----

  predicate OptionFits(o: Option<nat>, w: nat) {
    o.Some? ==> o.value < Pow256(w)
  }

  predicate KeysFit(keys: seq<Word>) {
    |keys| < Pow256(8) && forall i :: 0 <= i < |keys| ==> keys[i] < Pow256(32)
  }

  predicate AccountFits(a: Account) {
    && a.address < Pow256(20) && KeysFit(a.storageKeys)
    && OptionFits(a.posts.balance, 16) && OptionFits(a.posts.nonce, 8) && OptionFits(a.posts.codeHash, 32)
  }

  predicate AccessFits(a: (Word, StorageAccess)) {
    a.0 < Pow256(20) && a.1.key < Pow256(32) && a.1.pre < Pow256(32) && a.1.post < Pow256(32)
  }

  predicate Fits(list: AccessList) {
    && list.blockNumber < Pow256(8) && |list.accounts| < Pow256(8) && |list.accesses| < Pow256(8)
    && (forall i :: 0 <= i < |list.accounts| ==> AccountFits(list.accounts[i]))
    && (forall i :: 0 <= i < |list.accesses| ==> AccessFits(list.accesses[i]))
  }

  // ---- decoding is unambiguous ----

  /** Equal-length beginnings of equal strings are equal. */
  lemma {:induction false} SplitAt(a: Bytes, b: Bytes, r: Bytes, s: Bytes)
    requires a + r == b + s && |a| == |b|
    ensures a == b && r == s
  {
    assert (a + r)[..|a|] == a && (b + s)[..|b|] == b;
    assert (a + r)[|a|..] == r && (b + s)[|b|..] == s;
  }

  lemma {:induction false} NumberPrefix(n: nat, m: nat, w: nat, r: Bytes, s: Bytes)
    requires n < Pow256(w) && m < Pow256(w) && BigEndian(n, w) + r == BigEndian(m, w) + s
    ensures n == m && r == s
  {
    SplitAt(BigEndian(n, w), BigEndian(m, w), r, s);
    BigEndianInjective(n, m, w);
  }

  lemma {:induction false} OptionPrefix(o: Option<nat>, p: Option<nat>, w: nat, r: Bytes, s: Bytes)
    requires OptionFits(o, w) && OptionFits(p, w) && EncodeOption(o, w) + r == EncodeOption(p, w) + s
    ensures o == p && r == s
  {
    assert (EncodeOption(o, w) + r)[0] == (EncodeOption(p, w) + s)[0];
    SplitAt(EncodeOption(o, w), EncodeOption(p, w), r, s);
    if o.Some? {
      SplitAt([1], [1], BigEndian(o.value, w), BigEndian(p.value, w));
      BigEndianInjective(o.value, p.value, w);
    }
  }

  lemma {:induction false} Assoc(a: Bytes, b: Bytes, c: Bytes)
    ensures (a + b) + c == a + (b + c)
  {
  }

  lemma {:induction false} Nest3(a: Bytes, b: Bytes, c: Bytes, r: Bytes)
    ensures ((a + b) + c) + r == a + (b + (c + r))
  {
    Assoc(a + b, c, r);
    Assoc(a, b, c + r);
  }

  lemma {:induction false} Nest4(a: Bytes, b: Bytes, c: Bytes, d: Bytes, r: Bytes)
    ensures (((a + b) + c) + d) + r == a + (b + (c + (d + r)))
  {
    Assoc((a + b) + c, d, r);
    Nest3(a, b, c, d + r);
  }

  lemma {:induction false} EmptyPrefix(r: Bytes, s: Bytes)
    requires [] + r == [] + s
    ensures r == s
  {
    assert [] + r == r && [] + s == s;
  }

  lemma {:induction false} SameLast<T>(a: seq<T>, b: seq<T>)
    requires |a| == |b| > 0 && a[..|a| - 1] == b[..|b| - 1] && a[|a| - 1] == b[|b| - 1]
    ensures a == b
  {
    assert a == a[..|a| - 1] + [a[|a| - 1]];
    assert b == b[..|b| - 1] + [b[|b| - 1]];
  }

  lemma {:induction false} KeysPrefix(ks: seq<Word>, ls: seq<Word>, r: Bytes, s: Bytes)
    requires KeysFit(ks) && KeysFit(ls) && |ks| == |ls|
    requires EncodeKeys(ks) + r == EncodeKeys(ls) + s
    ensures ks == ls && r == s
  {
    if ks == [] {
      EmptyPrefix(r, s);
    } else {
      var n := |ks| - 1;
      var k, l := BigEndian(ks[n], 32), BigEndian(ls[n], 32);
      Assoc(EncodeKeys(ks[..n]), k, r);
      Assoc(EncodeKeys(ls[..n]), l, s);
      KeysPrefix(ks[..n], ls[..n], k + r, l + s);
      NumberPrefix(ks[n], ls[n], 32, r, s);
      SameLast(ks, ls);
    }
  }

  lemma {:induction false} PostsPrefix(p: Posts, q: Posts, r: Bytes, s: Bytes)
    requires OptionFits(p.balance, 16) && OptionFits(p.nonce, 8) && OptionFits(p.codeHash, 32)
    requires OptionFits(q.balance, 16) && OptionFits(q.nonce, 8) && OptionFits(q.codeHash, 32)
    requires EncodePosts(p) + r == EncodePosts(q) + s
    ensures p == q && r == s
  {
    var (b, n, c) := (EncodeOption(p.balance, 16), EncodeOption(p.nonce, 8), EncodeOption(p.codeHash, 32));
    var (b', n', c') := (EncodeOption(q.balance, 16), EncodeOption(q.nonce, 8), EncodeOption(q.codeHash, 32));
    Nest3(b, n, c, r);
    Nest3(b', n', c', s);
    OptionPrefix(p.balance, q.balance, 16, n + (c + r), n' + (c' + s));
    OptionPrefix(p.nonce, q.nonce, 8, c + r, c' + s);
    OptionPrefix(p.codeHash, q.codeHash, 32, r, s);
  }

  lemma {:induction false} AccountPrefix(a: Account, b: Account, r: Bytes, s: Bytes)
    requires AccountFits(a) && AccountFits(b) && EncodeAccount(a) + r == EncodeAccount(b) + s
    ensures a == b && r == s
  {
    var (x, n, k, p) := (BigEndian(a.address, 20), BigEndian(|a.storageKeys|, 8), EncodeKeys(a.storageKeys),
                         EncodePosts(a.posts));
    var (x', n', k', p') := (BigEndian(b.address, 20), BigEndian(|b.storageKeys|, 8), EncodeKeys(b.storageKeys),
                             EncodePosts(b.posts));
    Nest4(x, n, k, p, r);
    Nest4(x', n', k', p', s);
    NumberPrefix(a.address, b.address, 20, n + (k + (p + r)), n' + (k' + (p' + s)));
    NumberPrefix(|a.storageKeys|, |b.storageKeys|, 8, k + (p + r), k' + (p' + s));
    KeysPrefix(a.storageKeys, b.storageKeys, p + r, p' + s);
    PostsPrefix(a.posts, b.posts, r, s);
  }

  lemma {:induction false} AccountsPrefix(a: seq<Account>, b: seq<Account>, r: Bytes, s: Bytes)
    requires |a| == |b| && (forall i :: 0 <= i < |a| ==> AccountFits(a[i]) && AccountFits(b[i]))
    requires EncodeAccounts(a) + r == EncodeAccounts(b) + s
    ensures a == b && r == s
  {
    if a == [] {
      EmptyPrefix(r, s);
    } else {
      var n := |a| - 1;
      Assoc(EncodeAccounts(a[..n]), EncodeAccount(a[n]), r);
      Assoc(EncodeAccounts(b[..n]), EncodeAccount(b[n]), s);
      AccountsPrefix(a[..n], b[..n], EncodeAccount(a[n]) + r, EncodeAccount(b[n]) + s);
      AccountPrefix(a[n], b[n], r, s);
      SameLast(a, b);
    }
  }

  lemma {:induction false} AccessInjective(a: (Word, StorageAccess), b: (Word, StorageAccess))
    requires AccessFits(a) && AccessFits(b) && EncodeAccess(a) == EncodeAccess(b)
    ensures a == b
  {
    var (x, k, p, q) := (BigEndian(a.0, 20), BigEndian(a.1.key, 32), BigEndian(a.1.pre, 32), BigEndian(a.1.post, 32));
    var (x', k', p', q') := (BigEndian(b.0, 20), BigEndian(b.1.key, 32), BigEndian(b.1.pre, 32), BigEndian(b.1.post,
                                                                                                           32));
    Nest3(x, k, p, q);
    Nest3(x', k', p', q');
    NumberPrefix(a.0, b.0, 20, k + (p + q), k' + (p' + q'));
    NumberPrefix(a.1.key, b.1.key, 32, p + q, p' + q');
    NumberPrefix(a.1.pre, b.1.pre, 32, q, q');
    BigEndianInjective(a.1.post, b.1.post, 32);
  }

  lemma {:induction false} SplitLastAccess(a: seq<(Word, StorageAccess)>, b: seq<(Word, StorageAccess)>)
    requires |a| == |b| > 0 && EncodeAccesses(a) == EncodeAccesses(b)
    ensures EncodeAccesses(a[..|a| - 1]) == EncodeAccesses(b[..|b| - 1])
    ensures EncodeAccess(a[|a| - 1]) == EncodeAccess(b[|b| - 1])
  {
    var n := |a| - 1;
    AccessesLength(a[..n]);
    AccessesLength(b[..n]);
    SplitAt(EncodeAccesses(a[..n]), EncodeAccesses(b[..n]), EncodeAccess(a[n]), EncodeAccess(b[n]));
  }

  lemma {:induction false} AccessesInjective(a: seq<(Word, StorageAccess)>, b: seq<(Word, StorageAccess)>)
    requires |a| == |b| && (forall i :: 0 <= i < |a| ==> AccessFits(a[i]) && AccessFits(b[i]))
    requires EncodeAccesses(a) == EncodeAccesses(b)
    ensures a == b
  {
    if a != [] {
      var n := |a| - 1;
      SplitLastAccess(a, b);
      AccessesInjective(a[..n], b[..n]);
      AccessInjective(a[n], b[n]);
      SameLast(a, b);
    }
  }

  lemma {:induction false} AccessesLength(a: seq<(Word, StorageAccess)>)
    ensures |EncodeAccesses(a)| == 116 * |a|
  {
    if a != [] {
      AccessesLength(a[..|a| - 1]);
    }
  }

  /** Different lists have different byte strings. */
  lemma {:induction false} EncodeInjective(a: AccessList, b: AccessList)
    requires Fits(a) && Fits(b) && Encode(a) == Encode(b)
    ensures a == b
  {
    var x := BigEndian(|a.accesses|, 8) + EncodeAccesses(a.accesses);
    var y := BigEndian(|b.accesses|, 8) + EncodeAccesses(b.accesses);
    var p := BigEndian(|a.accounts|, 8) + EncodeAccounts(a.accounts) + x;
    var q := BigEndian(|b.accounts|, 8) + EncodeAccounts(b.accounts) + y;
    Assoc(Domain, BigEndian(a.blockNumber, 8), p);
    Assoc(Domain, BigEndian(b.blockNumber, 8), q);
    SplitAt(Domain, Domain, BigEndian(a.blockNumber, 8) + p, BigEndian(b.blockNumber, 8) + q);
    NumberPrefix(a.blockNumber, b.blockNumber, 8, p, q);
    Assoc(BigEndian(|a.accounts|, 8), EncodeAccounts(a.accounts), x);
    Assoc(BigEndian(|b.accounts|, 8), EncodeAccounts(b.accounts), y);
    NumberPrefix(|a.accounts|, |b.accounts|, 8, EncodeAccounts(a.accounts) + x, EncodeAccounts(b.accounts) + y);
    AccountsPrefix(a.accounts, b.accounts, x, y);
    NumberPrefix(|a.accesses|, |b.accesses|, 8, EncodeAccesses(a.accesses), EncodeAccesses(b.accesses));
    AccessesInjective(a.accesses, b.accesses);
  }
}
