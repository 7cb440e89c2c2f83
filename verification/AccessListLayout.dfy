/** Where each field of an access list stands in the hashed bytes. */
module AccessListLayout {
  import opened Common
  import opened ByteOrder
  import opened AccessLists
  import opened AccessListEncoding
  import opened AccessListHash
  import Orders

  /** `d` is `n` in `w` bytes, the most significant first. */
  ghost predicate IsNumber(d: Bytes, w: nat, n: nat) {
    |d| == w && forall i :: 0 <= i < w ==> d[i] == n / Pow256(w - 1 - i) % 256
  }

  function OptionSize(o: Option<nat>, w: nat): nat {
    if o.None? then 1 else 1 + w
  }

  /** A zero byte for an absent value; a one and then the value otherwise. */
  ghost predicate IsOption(d: Bytes, w: nat, o: Option<nat>) {
    match o
    case None => d == [0]
    case Some(n) => d != [] && d[0] == 1 && IsNumber(d[1..], w, n)
  }

  /** Balance, nonce, code hash. */
  ghost predicate ArePosts(d: Bytes, posts: Posts) {
    var nonce := OptionSize(posts.balance, 16);
    var code := nonce + OptionSize(posts.nonce, 8);
    && |d| == PostsSize(posts)
    && IsOption(d[..nonce], 16, posts.balance)
    && IsOption(d[nonce..code], 8, posts.nonce)
    && IsOption(d[code..], 32, posts.codeHash)
  }

  function PostsSize(posts: Posts): nat {
    OptionSize(posts.balance, 16) + OptionSize(posts.nonce, 8) + OptionSize(posts.codeHash, 32)
  }

  function AccountSize(a: Account): nat {
    28 + 32 * |a.storageKeys| + PostsSize(a.posts)
  }

  /** Address, number of keys, keys, post values. */
  ghost predicate IsAccount(d: Bytes, a: Account) {
    var n := |a.storageKeys|;
    && |d| == AccountSize(a)
    && IsNumber(d[..20], 20, a.address) && IsNumber(d[20..28], 8, n)
    && (forall k :: 0 <= k < n ==> IsNumber(d[28 + 32 * k..60 + 32 * k], 32, a.storageKeys[k]))
    && ArePosts(d[28 + 32 * n..], a.posts)
  }

  /** Address, key, value before, value after. */
  ghost predicate IsAccess(d: Bytes, a: (Word, StorageAccess)) {
    && |d| == 116
    && IsNumber(d[..20], 20, a.0) && IsNumber(d[20..52], 32, a.1.key)
    && IsNumber(d[52..84], 32, a.1.pre) && IsNumber(d[84..], 32, a.1.post)
  }

  /** Bytes taken by the first `i` accounts. */
  function AccountsSize(accounts: seq<Account>, i: nat): nat
    requires i <= |accounts|
  {
    if i == 0 then 0 else AccountsSize(accounts, i - 1) + AccountSize(accounts[i - 1])
  }

  /** The whole string: domain, block number, number of accounts, accounts, number of accesses, accesses. */
  ghost predicate IsList(b: Bytes, list: AccessList) {
    var n, m := |list.accounts|, |list.accesses|;
    var rest := 23 + AccountsSize(list.accounts, n);
    && |b| == rest + 8 + 116 * m
    && b[..7] == [101, 105, 112, 55, 57, 50, 56]
    && IsNumber(b[7..15], 8, list.blockNumber) && IsNumber(b[15..23], 8, n)
    && AccountsStandAt(b, 23, list.accounts)
    && IsNumber(b[rest..rest + 8], 8, m)
    && AccessesStandAt(b, rest + 8, list.accesses)
  }

  /** Account after account. */
  ghost predicate AccountsStandAt(b: Bytes, off: nat, accounts: seq<Account>) {
    forall i :: 0 <= i < |accounts| ==> AccountStandsAt(b, off + AccountsSize(accounts, i), accounts[i])
  }

  /** An access every 116 bytes. */
  ghost predicate AccessesStandAt(b: Bytes, off: nat, accesses: seq<(Word, StorageAccess)>) {
    forall j :: 0 <= j < |accesses| ==> AccessStandsAt(b, off + 116 * j, accesses[j])
  }

  ghost predicate AccountStandsAt(b: Bytes, off: nat, a: Account) {
    off + AccountSize(a) <= |b| && IsAccount(b[off..off + AccountSize(a)], a)
  }

  ghost predicate AccessStandsAt(b: Bytes, off: nat, a: (Word, StorageAccess)) {
    off + 116 <= |b| && IsAccess(b[off..off + 116], a)
  }

  // ---- one field ----

  lemma {:induction false} NumberWritten(n: nat, w: nat)
    ensures IsNumber(BigEndian(n, w), w, n)
  {
    forall i | 0 <= i < w ensures BigEndian(n, w)[i] == n / Pow256(w - 1 - i) % 256 {
      BigEndianDigit(n, w, i);
    }
  }

  lemma {:induction false} OptionWritten(o: Option<nat>, w: nat)
    ensures IsOption(EncodeOption(o, w), w, o) && |EncodeOption(o, w)| == OptionSize(o, w)
  {
    if o.Some? {
      NumberWritten(o.value, w);
      assert EncodeOption(o, w)[1..] == BigEndian(o.value, w);
    }
  }

  lemma {:induction false} CutThree(x: Bytes, y: Bytes, z: Bytes)
    ensures var b := x + y + z;
            b[..|x|] == x && b[|x|..|x| + |y|] == y && b[|x| + |y|..] == z
  {
  }

  lemma {:induction false} PostsWritten(posts: Posts)
    ensures ArePosts(EncodePosts(posts), posts)
  {
    OptionWritten(posts.balance, 16);
    OptionWritten(posts.nonce, 8);
    OptionWritten(posts.codeHash, 32);
    CutThree(EncodeOption(posts.balance, 16), EncodeOption(posts.nonce, 8), EncodeOption(posts.codeHash, 32));
  }

  // ---- one account ----

  lemma {:induction false} KeySlice(keys: seq<Word>, k: nat)
    requires k < |keys|
    ensures |EncodeKeys(keys)| == 32 * |keys|
    ensures EncodeKeys(keys)[32 * k..32 * k + 32] == BigEndian(keys[k], 32)
  {
    var n := |keys| - 1;
    KeysLength(keys);
    KeysLength(keys[..n]);
    if k < n {
      KeySlice(keys[..n], k);
      SliceOfFront(EncodeKeys(keys[..n]), BigEndian(keys[n], 32), 32 * k, 32 * k + 32);
    }
  }

  lemma {:induction false} KeysLength(keys: seq<Word>)
    ensures |EncodeKeys(keys)| == 32 * |keys|
  {
    if keys != [] {
      KeysLength(keys[..|keys| - 1]);
    }
  }

  lemma {:induction false} SliceOfFront(front: Bytes, back: Bytes, i: nat, j: nat)
    requires i <= j <= |front|
    ensures (front + back)[i..j] == front[i..j]
  {
  }

  lemma {:induction false} CutFour(x: Bytes, y: Bytes, z: Bytes, w: Bytes)
    ensures var b := x + y + z + w;
            && b[..|x|] == x && b[|x|..|x| + |y|] == y && b[|x| + |y| + |z|..] == w
            && forall i, j :: 0 <= i <= j <= |z| ==> b[|x| + |y| + i..|x| + |y| + j] == z[i..j]
  {
  }

  lemma {:induction false} AccountWritten(a: Account)
    ensures IsAccount(EncodeAccount(a), a)
  {
    var address, count, keys := BigEndian(a.address, 20), BigEndian(|a.storageKeys|, 8), EncodeKeys(a.storageKeys);
    var posts := EncodePosts(a.posts);
    NumberWritten(a.address, 20);
    NumberWritten(|a.storageKeys|, 8);
    PostsWritten(a.posts);
    KeysLength(a.storageKeys);
    KeysWritten(a.storageKeys);
    JoinAccount(address, count, keys, posts, a);
  }

  lemma {:induction false} KeysWritten(keys: seq<Word>)
    ensures |EncodeKeys(keys)| == 32 * |keys|
    ensures forall k :: 0 <= k < |keys| ==> IsNumber(EncodeKeys(keys)[32 * k..32 * k + 32], 32, keys[k])
  {
    KeysLength(keys);
    forall k | 0 <= k < |keys| ensures IsNumber(EncodeKeys(keys)[32 * k..32 * k + 32], 32, keys[k]) {
      KeySlice(keys, k);
      NumberWritten(keys[k], 32);
    }
  }

  lemma {:induction false} JoinAccount(address: Bytes, count: Bytes, keys: Bytes, posts: Bytes, a: Account)
    requires IsNumber(address, 20, a.address) && IsNumber(count, 8, |a.storageKeys|) && ArePosts(posts, a.posts)
    requires |keys| == 32 * |a.storageKeys|
    requires forall k :: 0 <= k < |a.storageKeys| ==> IsNumber(keys[32 * k..32 * k + 32], 32, a.storageKeys[k])
    ensures IsAccount(address + count + keys + posts, a)
  {
    var b := address + count + keys + posts;
    CutFour(address, count, keys, posts);
    forall k | 0 <= k < |a.storageKeys| ensures IsNumber(b[28 + 32 * k..60 + 32 * k], 32, a.storageKeys[k]) {
      assert b[28 + 32 * k..28 + (32 * k + 32)] == keys[32 * k..32 * k + 32];
    }
  }

  // ---- one access ----

  lemma {:induction false} JoinAccess(x: Bytes, k: Bytes, v: Bytes, w: Bytes, a: (Word, StorageAccess))
    requires IsNumber(x, 20, a.0) && IsNumber(k, 32, a.1.key) && IsNumber(v, 32, a.1.pre) && IsNumber(w, 32, a.1.post)
    ensures IsAccess(x + k + v + w, a)
  {
    CutFour(x, k, v, w);
    assert (x + k + v + w)[52..84] == v[0..32] == v;
  }

  lemma {:induction false} AccessWritten(a: (Word, StorageAccess))
    ensures IsAccess(EncodeAccess(a), a)
  {
    NumberWritten(a.0, 20);
    NumberWritten(a.1.key, 32);
    NumberWritten(a.1.pre, 32);
    NumberWritten(a.1.post, 32);
    JoinAccess(BigEndian(a.0, 20), BigEndian(a.1.key, 32), BigEndian(a.1.pre, 32), BigEndian(a.1.post, 32), a);
  }

  // ---- the whole ----

  /** Where each of several byte strings begins. */
  function Start(parts: seq<Bytes>, i: nat): nat
    requires i <= |parts|
  {
    if i == 0 then 0 else Start(parts, i - 1) + |parts[i - 1]|
  }

  lemma {:induction false} StartOfFront(parts: seq<Bytes>, n: nat, i: nat)
    requires i <= n <= |parts|
    ensures Start(parts[..n], i) == Start(parts, i)
  {
    if i > 0 {
      StartOfFront(parts, n, i - 1);
    }
  }

  lemma {:induction false} FlatLength(parts: seq<Bytes>)
    ensures |Concat(parts)| == Start(parts, |parts|)
  {
    if parts != [] {
      var n := |parts| - 1;
      FlatLength(parts[..n]);
      StartOfFront(parts, n, n);
    }
  }

  /** Part `i` stands after the parts before it. */
  lemma {:induction false} PartSlice(parts: seq<Bytes>, i: nat)
    requires i < |parts|
    ensures var off := Start(parts, i);
            off + |parts[i]| <= |Concat(parts)| && Concat(parts)[off..off + |parts[i]|] == parts[i]
  {
    var n := |parts| - 1;
    FlatLength(parts[..n]);
    StartOfFront(parts, n, i);
    if i < n {
      PartSlice(parts[..n], i);
      SliceOfFront(Concat(parts[..n]), parts[n], Start(parts, i), Start(parts, i) + |parts[i]|);
    }
  }

  function AccountParts(accounts: seq<Account>): seq<Bytes> {
    seq(|accounts|, i requires 0 <= i < |accounts| => EncodeAccount(accounts[i]))
  }

  lemma {:induction false} AccountsAreFlat(accounts: seq<Account>)
    ensures EncodeAccounts(accounts) == Concat(AccountParts(accounts))
  {
    if accounts != [] {
      var n := |accounts| - 1;
      AccountsAreFlat(accounts[..n]);
      assert AccountParts(accounts)[..n] == AccountParts(accounts[..n]);
    }
  }

  lemma {:induction false} AccountsStart(accounts: seq<Account>, parts: seq<Bytes>, i: nat)
    requires |parts| == |accounts| && forall k :: 0 <= k < |parts| ==> |parts[k]| == AccountSize(accounts[k])
    requires i <= |accounts|
    ensures Start(parts, i) == AccountsSize(accounts, i)
  {
    if i > 0 {
      AccountsStart(accounts, parts, i - 1);
    }
  }

  lemma {:induction false} AccessSlice(accesses: seq<(Word, StorageAccess)>, j: nat)
    requires j < |accesses|
    ensures |EncodeAccesses(accesses)| == 116 * |accesses|
    ensures EncodeAccesses(accesses)[116 * j..116 * j + 116] == EncodeAccess(accesses[j])
  {
    var n := |accesses| - 1;
    AccessesLength(accesses);
    AccessesLength(accesses[..n]);
    if j < n {
      AccessSlice(accesses[..n], j);
      SliceOfFront(EncodeAccesses(accesses[..n]), EncodeAccess(accesses[n]), 116 * j, 116 * j + 116);
    }
  }

  /** Six pieces, each at its place. */
  lemma {:induction false} CutSix(d: Bytes, x: Bytes, y: Bytes, z: Bytes, u: Bytes, v: Bytes)
    ensures var b := d + x + (y + z + (u + v));
            var p, q := |d| + |x| + |y|, |d| + |x| + |y| + |z|;
            && |b| == q + |u| + |v|
            && b[..|d|] == d && b[|d|..|d| + |x|] == x && b[|d| + |x|..p] == y && b[q..q + |u|] == u
            && Contains(b, p, z) && Contains(b, q + |u|, v)
  {
  }

  /** `b` has `z` at `off`. */
  ghost predicate Contains(b: Bytes, off: nat, z: Bytes) {
    off + |z| <= |b| && b[off..off + |z|] == z
  }

  lemma {:induction false} SliceIn(b: Bytes, off: nat, z: Bytes, i: nat, j: nat)
    requires Contains(b, off, z) && i <= j <= |z|
    ensures b[off + i..off + j] == z[i..j]
  {
    SliceOfSlice(b, off, off + |z|, i, j);
  }

  lemma {:induction false} SliceOfSlice(b: Bytes, p: nat, q: nat, i: nat, j: nat)
    requires p <= q <= |b| && i <= j <= q - p
    ensures b[p..q][i..j] == b[p + i..p + j]
  {
    forall k | 0 <= k < j - i ensures b[p..q][i..j][k] == b[p + i..p + j][k] {
    }
  }

  lemma {:induction false} AccountStands(b: Bytes, off: nat, d: Bytes, a: Account)
    requires Contains(b, off, d) && IsAccount(d, a)
    ensures AccountStandsAt(b, off, a)
  {
  }

  lemma {:induction false} AccountsStand(b: Bytes, off: nat, accounts: seq<Account>, parts: seq<Bytes>)
    requires Contains(b, off, Concat(parts)) && |parts| == |accounts|
    requires forall i :: 0 <= i < |parts| ==> IsAccount(parts[i], accounts[i])
    ensures AccountsStandAt(b, off, accounts)
  {
    forall i | 0 <= i < |accounts| ensures AccountStandsAt(b, off + AccountsSize(accounts, i), accounts[i]) {
      PartStands(b, off, accounts, parts, i);
    }
  }

  lemma {:induction false} PartStands(b: Bytes, off: nat, accounts: seq<Account>, parts: seq<Bytes>, i: nat)
    requires Contains(b, off, Concat(parts)) && i < |parts| == |accounts|
    requires forall i :: 0 <= i < |parts| ==> IsAccount(parts[i], accounts[i])
    ensures AccountStandsAt(b, off + AccountsSize(accounts, i), accounts[i])
  {
    PartIn(b, off, parts, i);
    AccountsStart(accounts, parts, i);
    AccountStands(b, off + Start(parts, i), parts[i], accounts[i]);
  }

  lemma {:induction false} PartIn(b: Bytes, off: nat, parts: seq<Bytes>, i: nat)
    requires Contains(b, off, Concat(parts)) && i < |parts|
    ensures Contains(b, off + Start(parts, i), parts[i])
  {
    PartSlice(parts, i);
    SliceIn(b, off, Concat(parts), Start(parts, i), Start(parts, i) + |parts[i]|);
  }

  lemma {:induction false} AccessStands(b: Bytes, off: nat, d: Bytes, a: (Word, StorageAccess))
    requires off + |d| <= |b| && b[off..off + |d|] == d && IsAccess(d, a)
    ensures AccessStandsAt(b, off, a)
  {
  }

  lemma {:induction false} AccessesStand(b: Bytes, off: nat, accesses: seq<(Word, StorageAccess)>)
    requires Contains(b, off, EncodeAccesses(accesses))
    ensures AccessesStandAt(b, off, accesses)
  {
    forall j | 0 <= j < |accesses| ensures AccessStandsAt(b, off + 116 * j, accesses[j]) {
      AccessSlice(accesses, j);
      AccessWritten(accesses[j]);
      SliceIn(b, off, EncodeAccesses(accesses), 116 * j, 116 * j + 116);
      AccessStands(b, off + 116 * j, EncodeAccess(accesses[j]), accesses[j]);
    }
  }

  lemma {:induction false} AccountsWritten(accounts: seq<Account>)
    ensures var parts := AccountParts(accounts);
            && |parts| == |accounts| && EncodeAccounts(accounts) == Concat(parts)
            && |EncodeAccounts(accounts)| == AccountsSize(accounts, |accounts|)
            && forall i :: 0 <= i < |parts| ==> IsAccount(parts[i], accounts[i])
  {
    var parts := AccountParts(accounts);
    AccountsAreFlat(accounts);
    FlatLength(parts);
    forall i | 0 <= i < |parts| ensures IsAccount(parts[i], accounts[i]) {
      AccountWritten(accounts[i]);
    }
    AccountsStart(accounts, parts, |accounts|);
  }

  /** The string made of these six pieces is laid out as it should be. */
  lemma {:induction false} PiecesLayout(number: Bytes, n: Bytes, parts: seq<Bytes>, m: Bytes, accesses: Bytes,
                                        list: AccessList)
    requires IsNumber(number, 8, list.blockNumber) && IsNumber(n, 8, |list.accounts|)
    requires IsNumber(m, 8, |list.accesses|)
    requires |parts| == |list.accounts| && forall i :: 0 <= i < |parts| ==> IsAccount(parts[i], list.accounts[i])
    requires accesses == EncodeAccesses(list.accesses)
    ensures IsList(Domain + number + (n + Concat(parts) + (m + accesses)), list)
  {
    var b := Domain + number + (n + Concat(parts) + (m + accesses));
    CutSix(Domain, number, n, Concat(parts), m, accesses);
    FlatLength(parts);
    AccountsStart(list.accounts, parts, |parts|);
    AccessesLength(list.accesses);
    AccountsStand(b, 23, list.accounts, parts);
    AccessesStand(b, 31 + |Concat(parts)|, list.accesses);
  }

  lemma {:induction false} EncodeLayout(list: AccessList)
    ensures IsList(Encode(list), list)
  {
    var n, m := |list.accounts|, |list.accesses|;
    NumberWritten(list.blockNumber, 8);
    NumberWritten(n, 8);
    NumberWritten(m, 8);
    AccountsWritten(list.accounts);
    PiecesLayout(BigEndian(list.blockNumber, 8), BigEndian(n, 8), AccountParts(list.accounts), BigEndian(m, 8),
                 EncodeAccesses(list.accesses), list);
  }

  /** `c` is `list` with accounts ascending by address, those of one address in their old order, keys
      ascending, and accesses ascending by address, key, value before and value after. */
  ghost predicate Arranges(c: AccessList, list: AccessList) {
    && c.blockNumber == list.blockNumber
    && |c.accounts| == |list.accounts| && SameViewsAt(c.accounts, list.accounts)
    && (forall i, j :: 0 <= i < j < |c.accounts| ==> c.accounts[i].address <= c.accounts[j].address)
    && (forall i, k, l :: 0 <= i < |c.accounts| && 0 <= k < l < |c.accounts[i].storageKeys| ==>
          c.accounts[i].storageKeys[k] <= c.accounts[i].storageKeys[l])
    && multiset(c.accesses) == multiset(list.accesses)
    && (forall i, j :: 0 <= i < j < |c.accesses| ==>
          var (x, a), (y, b) := c.accesses[i], c.accesses[j];
          || x < y
          || (x == y && a.key < b.key)
          || (x == y && a.key == b.key && a.pre < b.pre)
          || (x == y && a.key == b.key && a.pre == b.pre && a.post <= b.post))
  }

  lemma {:induction false} CanonicalArranges(list: AccessList)
    ensures Arranges(Canonical(list), list)
  {
    AddressOrder();
    KeyOrder();
    AccessOrder();
    Orders.SortSorts(AddressLe, list.accounts);
    Orders.SortSorts(AccessLe, list.accesses);
    var c := Canonical(list);
    CanonicalForm(list.accounts);
    forall x ensures ViewsAt(c.accounts, x) == ViewsAt(list.accounts, x) {
      CanonicalKeepsViews(list.accounts, x);
    }
    forall i, k, l | 0 <= i < |c.accounts| && 0 <= k < l < |c.accounts[i].storageKeys|
      ensures c.accounts[i].storageKeys[k] <= c.accounts[i].storageKeys[l]
    {
      var keys := c.accounts[i].storageKeys;
      Orders.SortSorts(Orders.NumberLe, keys);
      assert keys == Orders.Sort(Orders.NumberLe, keys);
      assert Orders.NumberLe(keys[k], keys[l]);
    }
    forall i, j | 0 <= i < j < |c.accounts| ensures c.accounts[i].address <= c.accounts[j].address {
      assert AddressLe(c.accounts[i], c.accounts[j]);
    }
    forall i, j | 0 <= i < j < |c.accesses| ensures AccessLe(c.accesses[i], c.accesses[j]) {
    }
  }

  /** The hashed bytes, field by field. */
  lemma {:induction false} PreimageLayout(list: AccessList) returns (c: AccessList)
    ensures Arranges(c, list) && IsList(Preimage(list), c)
  {
    c := Canonical(list);
    CanonicalArranges(list);
    EncodeLayout(c);
  }

  /** The bytes fed to the hasher: the fields of the arranged list, each at its place. */
  method HashedBytes(list: AccessList) returns (bytes: Bytes)
    ensures bytes == Preimage(list)
    ensures exists c :: Arranges(c, list) && IsList(bytes, c)
  {
    bytes := Domain + BigEndian(list.blockNumber, 8);
    var accounts := AccountsBytes(Orders.Sort(AddressLe, list.accounts));
    var accesses := AccessesBytes(Orders.Sort(AccessLe, list.accesses));
    AddressOrder();
    Orders.SortSorts(AddressLe, list.accounts);
    bytes := bytes + (accounts + accesses);
    ghost var c := PreimageLayout(list);
  }
}
