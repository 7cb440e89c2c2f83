/** The hash preimage of an access list depends on the list up to order, and on nothing less. */
module AccessListHash {
  import opened Common
  import opened ByteOrder
  import opened AccessLists
  import opened Orders
  import opened AccessListEncoding

  // ---- sorting ----

  predicate AddressLe(a: Account, b: Account) {
    a.address <= b.address
  }

  /** Address, then key, then value before, then value after. */
  predicate AccessLe(a: (Word, StorageAccess), b: (Word, StorageAccess)) {
    a.0 < b.0 || (a.0 == b.0 && (
      a.1.key < b.1.key || (a.1.key == b.1.key && (
        a.1.pre < b.1.pre || (a.1.pre == b.1.pre && a.1.post <= b.1.post)))))
  }

  lemma {:induction false} KeyOrder()
    ensures TotalOrder(NumberLe)
  {
  }

  lemma {:induction false} AccessOrder()
    ensures TotalOrder(AccessLe)
  {
  }

  // ---- the canonical form ----

  function NormalAccount(a: Account): Account {
    a.(storageKeys := Sort(NumberLe, a.storageKeys))
  }

  function NormalAccounts(accounts: seq<Account>): (out: seq<Account>)
    ensures |out| == |accounts| && forall i :: 0 <= i < |out| ==> out[i] == NormalAccount(accounts[i])
  {
    seq(|accounts|, i requires 0 <= i < |accounts| => NormalAccount(accounts[i]))
  }

  function CanonicalAccounts(accounts: seq<Account>): seq<Account> {
    NormalAccounts(Sort(AddressLe, accounts))
  }

  function Canonical(list: AccessList): AccessList {
    AccessList(list.blockNumber, CanonicalAccounts(list.accounts), Sort(AccessLe, list.accesses))
  }

  function Preimage(list: AccessList): Bytes {
    Encode(Canonical(list))
  }

  method AccountBytes(account: Account) returns (bytes: Bytes)
    ensures bytes == EncodeAccount(NormalAccount(account))
  {
    var keys := Sort(NumberLe, account.storageKeys);
    bytes := BigEndian(account.address, 20) + BigEndian(|keys|, 8);
    ghost var head := bytes;
    for k := 0 to |keys|
      invariant bytes == head + EncodeKeys(keys[..k])
    {
      assert keys[..k + 1][..k] == keys[..k];
      Assoc(head, EncodeKeys(keys[..k]), BigEndian(keys[k], 32));
      bytes := bytes + BigEndian(keys[k], 32);
    }
    assert keys[..|keys|] == keys;
    bytes := bytes + EncodePosts(account.posts);
  }

  lemma {:induction false} EncodeNext(accounts: seq<Account>, i: nat)
    requires i < |accounts|
    ensures EncodeAccounts(accounts[..i + 1]) == EncodeAccounts(accounts[..i]) + EncodeAccount(accounts[i])
  {
    assert accounts[..i + 1][..i] == accounts[..i];
  }

  method AccountsBytes(accounts: seq<Account>) returns (bytes: Bytes)
    ensures bytes == BigEndian(|accounts|, 8) + EncodeAccounts(NormalAccounts(accounts))
  {
    ghost var normal, head := NormalAccounts(accounts), BigEndian(|accounts|, 8);
    bytes := BigEndian(|accounts|, 8);
    for i := 0 to |accounts|
      invariant bytes == head + EncodeAccounts(normal[..i])
    {
      var piece := AccountBytes(accounts[i]);
      EncodeNext(normal, i);
      Assoc(head, EncodeAccounts(normal[..i]), piece);
      bytes := bytes + piece;
    }
    assert normal[..|accounts|] == normal;
  }

  method AccessesBytes(accesses: seq<(Word, StorageAccess)>) returns (bytes: Bytes)
    ensures bytes == BigEndian(|accesses|, 8) + EncodeAccesses(accesses)
  {
    ghost var head := BigEndian(|accesses|, 8);
    bytes := BigEndian(|accesses|, 8);
    for i := 0 to |accesses|
      invariant bytes == head + EncodeAccesses(accesses[..i])
    {
      assert accesses[..i + 1][..i] == accesses[..i];
      Assoc(head, EncodeAccesses(accesses[..i]), EncodeAccess(accesses[i]));
      bytes := bytes + EncodeAccess(accesses[i]);
    }
    assert accesses[..|accesses|] == accesses;
  }

  // ---- how far order matters ----

  /** What an account says: its keys counted, not ordered. */
  datatype View = View(address: Word, keys: multiset<Word>, posts: Posts)

  function ViewOf(a: Account): View {
    View(a.address, multiset(a.storageKeys), a.posts)
  }

  function Views(accounts: seq<Account>): multiset<View> {
    if accounts == [] then multiset{} else multiset{ViewOf(accounts[0])} + Views(accounts[1..])
  }

  /** What the accounts with this address say, in the order they are listed. */
  function ViewsAt(accounts: seq<Account>, x: Word): seq<View> {
    if accounts == [] then []
    else (if accounts[0].address == x then [ViewOf(accounts[0])] else []) + ViewsAt(accounts[1..], x)
  }

  ghost predicate SameViewsAt(a: seq<Account>, b: seq<Account>) {
    forall x :: ViewsAt(a, x) == ViewsAt(b, x)
  }

  /** The lists differ only in the order of accounts, of storage keys and of storage accesses. */
  ghost predicate SameUpToOrder(a: AccessList, b: AccessList) {
    && a.blockNumber == b.blockNumber && multiset(a.accesses) == multiset(b.accesses)
    && Views(a.accounts) == Views(b.accounts)
  }

  /** They differ only in that, and accounts that share an address have kept their relative order. */
  ghost predicate SameUpToStableOrder(a: AccessList, b: AccessList) {
    && a.blockNumber == b.blockNumber && multiset(a.accesses) == multiset(b.accesses)
    && SameViewsAt(a.accounts, b.accounts)
  }

  predicate DistinctAddresses(accounts: seq<Account>) {
    forall i, j :: 0 <= i < j < |accounts| ==> accounts[i].address != accounts[j].address
  }

  /** Two accounts normalize alike exactly when they say the same. */
  lemma {:induction false} NormalIffView(a: Account, b: Account)
    ensures NormalAccount(a) == NormalAccount(b) <==> ViewOf(a) == ViewOf(b)
    ensures ViewOf(NormalAccount(a)) == ViewOf(a)
  {
    KeyOrder();
    SortSorts(NumberLe, a.storageKeys);
    SortSorts(NumberLe, b.storageKeys);
    if multiset(a.storageKeys) == multiset(b.storageKeys) {
      SortedUnique(NumberLe, Sort(NumberLe, a.storageKeys), Sort(NumberLe, b.storageKeys));
    }
  }

  lemma {:induction false} AddressOrder()
    ensures TotalPreorder(AddressLe)
  {
  }

  // ---- sorting is stable ----

  lemma {:induction false} ViewsAtPrepend(a: Account, s: seq<Account>, x: Word)
    ensures ViewsAt([a] + s, x) == (if a.address == x then [ViewOf(a)] else []) + ViewsAt(s, x)
  {
    assert ([a] + s)[1..] == s;
  }

  lemma {:induction false} InsertKeepsViews(a: Account, s: seq<Account>, x: Word)
    ensures ViewsAt(Insert(AddressLe, a, s), x) == (if a.address == x then [ViewOf(a)] else []) + ViewsAt(s, x)
  {
    ViewsAtPrepend(a, s, x);
    if s == [] {
      assert [a] + s == [a];
    } else if !AddressLe(a, s[0]) {
      InsertKeepsViews(a, s[1..], x);
      ViewsAtPrepend(s[0], Insert(AddressLe, a, s[1..]), x);
    }
  }

  lemma {:induction false} SortKeepsViews(s: seq<Account>, x: Word)
    ensures ViewsAt(Sort(AddressLe, s), x) == ViewsAt(s, x)
  {
    if s != [] {
      SortKeepsViews(s[1..], x);
      InsertKeepsViews(s[0], Sort(AddressLe, s[1..]), x);
    }
  }

  lemma {:induction false} NormalKeepsViews(s: seq<Account>, x: Word)
    ensures ViewsAt(NormalAccounts(s), x) == ViewsAt(s, x)
  {
    if s != [] {
      NormalIffView(s[0], s[0]);
      NormalKeepsViews(s[1..], x);
      assert NormalAccounts(s)[1..] == NormalAccounts(s[1..]);
    }
  }

  lemma {:induction false} CanonicalKeepsViews(accounts: seq<Account>, x: Word)
    ensures ViewsAt(CanonicalAccounts(accounts), x) == ViewsAt(accounts, x)
  {
    SortKeepsViews(accounts, x);
    NormalKeepsViews(Sort(AddressLe, accounts), x);
  }

  // ---- sorted accounts are determined by their views ----

  ghost predicate InCanonicalForm(accounts: seq<Account>) {
    SortedBy(AddressLe, accounts) && forall i :: 0 <= i < |accounts| ==> accounts[i] == NormalAccount(accounts[i])
  }

  lemma {:induction false} CanonicalForm(accounts: seq<Account>)
    ensures InCanonicalForm(CanonicalAccounts(accounts))
  {
    AddressOrder();
    SortSorts(AddressLe, accounts);
    var sorted := Sort(AddressLe, accounts);
    forall i, j | 0 <= i < j < |sorted| ensures AddressLe(NormalAccount(sorted[i]), NormalAccount(sorted[j])) {
      assert AddressLe(sorted[i], sorted[j]);
    }
    forall i | 0 <= i < |sorted| ensures NormalAccount(NormalAccount(sorted[i])) == NormalAccount(sorted[i]) {
      NormalIffView(NormalAccount(sorted[i]), sorted[i]);
      NormalIffView(sorted[i], sorted[i]);
    }
  }

  /** Only a listed address is spoken of, and the least one comes first. */
  lemma {:induction false} LeastAddress(s: seq<Account>, x: Word)
    requires SortedBy(AddressLe, s) && ViewsAt(s, x) != []
    ensures s != [] && s[0].address <= x
  {
    if s[0].address != x {
      LeastAddress(s[1..], x);
      assert AddressLe(s[0], s[1..][0]);
    }
  }

  lemma {:induction false} FormDetermined(p: seq<Account>, q: seq<Account>)
    requires InCanonicalForm(p) && InCanonicalForm(q) && SameViewsAt(p, q)
    ensures p == q
  {
    if p != [] {
      LeastAddress(q, p[0].address);
    }
    if q != [] {
      assert ViewsAt(p, q[0].address) == ViewsAt(q, q[0].address);
      LeastAddress(p, q[0].address);
      var x := p[0].address;
      assert ViewsAt(p, x)[0] == ViewOf(p[0]) && ViewsAt(q, x)[0] == ViewOf(q[0]);
      NormalIffView(p[0], q[0]);
      SameTails(p, q);
      FormDetermined(p[1..], q[1..]);
      assert p == [p[0]] + p[1..] && q == [q[0]] + q[1..];
    }
  }

  lemma {:induction false} SameTails(p: seq<Account>, q: seq<Account>)
    requires p != [] && q != [] && p[0] == q[0] && SameViewsAt(p, q)
    ensures SameViewsAt(p[1..], q[1..])
  {
    forall x ensures ViewsAt(p[1..], x) == ViewsAt(q[1..], x) {
      var head := if p[0].address == x then [ViewOf(p[0])] else [];
      assert ViewsAt(p, x) == head + ViewsAt(p[1..], x) && ViewsAt(q, x) == head + ViewsAt(q[1..], x);
      assert ViewsAt(p, x)[|head|..] == ViewsAt(p[1..], x) && ViewsAt(q, x)[|head|..] == ViewsAt(q[1..], x);
    }
  }

  lemma {:induction false} CanonicalIffViews(a: seq<Account>, b: seq<Account>)
    ensures CanonicalAccounts(a) == CanonicalAccounts(b) <==> SameViewsAt(a, b)
  {
    forall x
      ensures ViewsAt(CanonicalAccounts(a), x) == ViewsAt(a, x) && ViewsAt(CanonicalAccounts(b), x) == ViewsAt(b, x)
    {
      CanonicalKeepsViews(a, x);
      CanonicalKeepsViews(b, x);
    }
    if SameViewsAt(a, b) {
      CanonicalForm(a);
      CanonicalForm(b);
      FormDetermined(CanonicalAccounts(a), CanonicalAccounts(b));
    }
  }

  lemma {:induction false} CanonicalFits(list: AccessList)
    requires Fits(list)
    ensures Fits(Canonical(list))
  {
    AddressOrder();
    AccessOrder();
    SortSorts(AddressLe, list.accounts);
    SortSorts(AccessLe, list.accesses);
    AccountsFit(list.accounts, Sort(AddressLe, list.accounts));
    AccessesFit(list.accesses, Sort(AccessLe, list.accesses));
  }

  lemma {:induction false} AccountsFit(accounts: seq<Account>, sorted: seq<Account>)
    requires multiset(accounts) == multiset(sorted)
    requires forall i :: 0 <= i < |accounts| ==> AccountFits(accounts[i])
    ensures forall i :: 0 <= i < |sorted| ==> AccountFits(NormalAccount(sorted[i]))
  {
    forall i | 0 <= i < |sorted| ensures AccountFits(NormalAccount(sorted[i])) {
      SameMembers(accounts, sorted, sorted[i]);
      NormalFits(sorted[i]);
    }
  }

  lemma {:induction false} AccessesFit(accesses: seq<(Word, StorageAccess)>, sorted: seq<(Word, StorageAccess)>)
    requires multiset(accesses) == multiset(sorted)
    requires forall i :: 0 <= i < |accesses| ==> AccessFits(accesses[i])
    ensures forall i :: 0 <= i < |sorted| ==> AccessFits(sorted[i])
  {
    forall i | 0 <= i < |sorted| ensures AccessFits(sorted[i]) {
      SameMembers(accesses, sorted, sorted[i]);
    }
  }

  lemma {:induction false} NormalFits(a: Account)
    requires AccountFits(a)
    ensures AccountFits(NormalAccount(a))
  {
    KeyOrder();
    SortSorts(NumberLe, a.storageKeys);
    var keys := Sort(NumberLe, a.storageKeys);
    forall i | 0 <= i < |keys| ensures keys[i] < Pow256(32) {
      SameMembers(a.storageKeys, keys, keys[i]);
    }
  }

  /** The hashed bytes of any two lists are equal exactly when the lists are equal up to reordering that
      keeps accounts with one address in order. */
  lemma {:induction false} PreimageExact(a: AccessList, b: AccessList)
    requires Fits(a) && Fits(b)
    ensures Preimage(a) == Preimage(b) <==> SameUpToStableOrder(a, b)
  {
    AccessOrder();
    SortSorts(AccessLe, a.accesses);
    SortSorts(AccessLe, b.accesses);
    CanonicalIffViews(a.accounts, b.accounts);
    if SameUpToStableOrder(a, b) {
      SortedUnique(AccessLe, Sort(AccessLe, a.accesses), Sort(AccessLe, b.accesses));
    }
    if Preimage(a) == Preimage(b) {
      CanonicalFits(a);
      CanonicalFits(b);
      EncodeInjective(Canonical(a), Canonical(b));
    }
  }

  // ---- distinct addresses ----

  lemma {:induction false} ViewCount(s: seq<Account>, v: View)
    ensures Views(s)[v] == multiset(ViewsAt(s, v.address))[v]
  {
    if s != [] {
      ViewCount(s[1..], v);
    }
  }

  lemma {:induction false} ViewsAtAddress(s: seq<Account>, x: Word)
    ensures forall v :: v in ViewsAt(s, x) ==> v.address == x
    ensures DistinctAddresses(s) ==> |ViewsAt(s, x)| <= 1
    ensures ViewsAt(s, x) != [] ==> Known(s, x)
  {
    if s != [] {
      ViewsAtAddress(s[1..], x);
      if Known(s[1..], x) {
        var i :| 0 <= i < |s[1..]| && s[1..][i].address == x;
        assert s[i + 1].address == x;
      }
      assert s[0].address == x ==> Known(s, x);
    }
  }

  lemma {:induction false} CountAt(s: seq<Account>, x: Word, v: View)
    ensures multiset(ViewsAt(s, x))[v] == if v.address == x then Views(s)[v] else 0
  {
    if v.address == x {
      ViewCount(s, v);
    } else {
      ViewsAtAddress(s, x);
      assert v !in ViewsAt(s, x);
    }
  }

  lemma {:induction false} SameCounts(a: seq<Account>, b: seq<Account>, x: Word)
    requires Views(a) == Views(b)
    ensures multiset(ViewsAt(a, x)) == multiset(ViewsAt(b, x))
  {
    forall v: View ensures multiset(ViewsAt(a, x))[v] == multiset(ViewsAt(b, x))[v] {
      CountAt(a, x, v);
      CountAt(b, x, v);
    }
  }

  lemma {:induction false} ShortSequence<T>(s: seq<T>, t: seq<T>)
    requires |s| <= 1 && multiset(s) == multiset(t)
    ensures s == t
  {
    assert |s| == |multiset(s)| == |t|;
    if |s| == 1 {
      assert s[0] in multiset(t);
    }
  }

  /** Stable reordering is reordering, and with distinct addresses every reordering is stable. */
  lemma {:induction false} StableOrder(a: AccessList, b: AccessList)
    ensures SameUpToStableOrder(a, b) ==> SameUpToOrder(a, b)
    ensures SameUpToOrder(a, b) && DistinctAddresses(a.accounts) ==> SameUpToStableOrder(a, b)
  {
    if SameUpToStableOrder(a, b) {
      forall v: View ensures Views(a.accounts)[v] == Views(b.accounts)[v] {
        ViewCount(a.accounts, v);
        ViewCount(b.accounts, v);
      }
    }
    if SameUpToOrder(a, b) && DistinctAddresses(a.accounts) {
      forall x ensures ViewsAt(a.accounts, x) == ViewsAt(b.accounts, x) {
        SameCounts(a.accounts, b.accounts, x);
        ViewsAtAddress(a.accounts, x);
        ShortSequence(ViewsAt(a.accounts, x), ViewsAt(b.accounts, x));
      }
    }
  }

  /** Equal bytes mean equal up to reordering; reordering distinct addresses leaves the bytes unchanged. */
  lemma {:induction false} PreimageCanonical(a: AccessList, b: AccessList)
    requires Fits(a) && Fits(b)
    ensures Preimage(a) == Preimage(b) ==> SameUpToOrder(a, b)
    ensures SameUpToOrder(a, b) && DistinctAddresses(a.accounts) ==> Preimage(a) == Preimage(b)
  {
    PreimageExact(a, b);
    StableOrder(a, b);
  }

  lemma {:induction false} ViewsOfTwo(p: Account, q: Account)
    ensures Views([p, q]) == multiset{ViewOf(p), ViewOf(q)}
    ensures ViewsAt([p, q], p.address) != [] && ViewsAt([p, q], p.address)[0] == ViewOf(p)
  {
    assert [p, q][1..] == [q] && [q][1..] == [];
    assert Views([q]) == multiset{ViewOf(q)};
  }

  lemma {:induction false} PowGrows(w: nat)
    ensures Pow256(w) >= 1 && (w > 0 ==> Pow256(w) >= 256)
  {
    if w > 0 {
      PowGrows(w - 1);
    }
  }

  lemma {:induction false} TwoFit(p: Account, q: Account)
    requires p.address == q.address == 0 && p.storageKeys == q.storageKeys == []
    requires p.posts.nonce in {None, Some(0)} && q.posts.nonce in {None, Some(0)}
    requires p.posts.balance == q.posts.balance == None && p.posts.codeHash == q.posts.codeHash == None
    ensures Fits(AccessList(0, [p, q], []))
  {
    PowGrows(8);
    BareFits(p);
    BareFits(q);
  }

  lemma {:induction false} BareFits(p: Account)
    requires p.address == 0 && p.storageKeys == [] && p.posts.nonce in {None, Some(0)}
    requires p.posts.balance == None && p.posts.codeHash == None
    ensures AccountFits(p)
  {
    PowGrows(8);
    PowGrows(20);
  }

  /** A repeated address: swapping its two accounts changes the bytes. */
  lemma {:induction false} RepeatedAddressMatters() returns (a: AccessList, b: AccessList)
    ensures Fits(a) && Fits(b) && SameUpToOrder(a, b) && Preimage(a) != Preimage(b)
  {
    var p, q := Account(0, [], NoPosts), Account(0, [], Posts(None, Some(0), None));
    a, b := AccessList(0, [p, q], []), AccessList(0, [q, p], []);
    ViewsOfTwo(p, q);
    ViewsOfTwo(q, p);
    TwoFit(p, q);
    TwoFit(q, p);
    PreimageExact(a, b);
  }
}
