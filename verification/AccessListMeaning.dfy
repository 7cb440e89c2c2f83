/** What validation reports about access lists and what their merge holds, told from list positions. */
module AccessListMeaning {
  import opened Common
  import opened AccessLists
  import AccessListMerge

  // ---- validation ----

  /** Something to report. */
  ghost predicate Reportable(list: AccessList, e: Error) {
    var accounts, accesses := list.accounts, list.accesses;
    match e
    case EmptyAccessList => accounts == []
    case DuplicateAccount(x) =>
      exists i, j :: 0 <= i < j < |accounts| && accounts[i].address == accounts[j].address == x
    case StorageAccessWithoutAccount(x) =>
      (exists i :: 0 <= i < |accesses| && accesses[i].0 == x)
      && forall j :: 0 <= j < |accounts| ==> accounts[j].address != x
    case DuplicateStorageKey(x, k) =>
      || (exists a :: a in accounts && a.address == x && RepeatsKey(a.storageKeys, k))
      || (exists i, j :: 0 <= i < j < |accesses| && accesses[i].0 == accesses[j].0 == x
                         && accesses[i].1.key == accesses[j].1.key == k)
  }

  predicate RepeatsKey(keys: seq<Word>, k: Word) {
    exists i, j :: 0 <= i < j < |keys| && keys[i] == keys[j] == k
  }

  lemma {:induction false} KeyErrorsMean(address: Word, keys: seq<Word>, e: Error)
    ensures e in KeyErrors(address, keys) <==>
            e.DuplicateStorageKey? && e.address == address && RepeatsKey(keys, e.key)
  {
    if keys != [] {
      var n := |keys| - 1;
      KeyErrorsMean(address, keys[..n], e);
      if e.DuplicateStorageKey? {
        RepeatsKeyStep(keys, e.key);
      }
    }
  }

  lemma {:induction false} RepeatsKeyStep(keys: seq<Word>, k: Word)
    requires keys != []
    ensures var n := |keys| - 1; RepeatsKey(keys, k) <==> RepeatsKey(keys[..n], k) || (keys[n] == k && k in keys[..n])
  {
    var n := |keys| - 1;
    if RepeatsKey(keys, k) {
      var i, j :| 0 <= i < j < |keys| && keys[i] == keys[j] == k;
      assert keys[..n][i] == k;
      assert j < n ==> keys[..n][j] == k;
    }
    if RepeatsKey(keys[..n], k) {
      var i, j :| 0 <= i < j < n && keys[..n][i] == keys[..n][j] == k;
      assert keys[i] == keys[j] == k;
    }
    if k in keys[..n] {
      var i :| 0 <= i < n && keys[..n][i] == k;
      assert keys[i] == k;
    }
  }

  ghost predicate AccountReportable(accounts: seq<Account>, e: Error) {
    match e
    case DuplicateAccount(x) =>
      exists i, j :: 0 <= i < j < |accounts| && accounts[i].address == accounts[j].address == x
    case DuplicateStorageKey(x, k) => exists a :: a in accounts && a.address == x && RepeatsKey(a.storageKeys, k)
    case _ => false
  }

  lemma {:induction false} AccountReportableStep(accounts: seq<Account>, e: Error)
    requires accounts != []
    ensures var before, a := accounts[..|accounts| - 1], accounts[|accounts| - 1];
            AccountReportable(accounts, e) <==>
            || AccountReportable(before, e)
            || (e == DuplicateAccount(a.address) && Known(before, a.address))
            || (e.DuplicateStorageKey? && e.address == a.address && RepeatsKey(a.storageKeys, e.key))
  {
    var n := |accounts| - 1;
    var before, a := accounts[..n], accounts[n];
    assert accounts == before + [a];
    if e.DuplicateAccount? {
      if AccountReportable(accounts, e) {
        var i, j :| 0 <= i < j < |accounts| && accounts[i].address == accounts[j].address == e.address;
        assert before[i].address == e.address;
        assert j < n ==> before[j].address == e.address;
      }
      if AccountReportable(before, e) {
        var i, j :| 0 <= i < j < n && before[i].address == before[j].address == e.address;
        assert accounts[i].address == accounts[j].address;
      }
      if Known(before, e.address) {
        var i :| 0 <= i < n && before[i].address == e.address;
        assert accounts[i].address == e.address;
      }
    }
  }

  lemma {:induction false} AccountErrorsMean(accounts: seq<Account>, e: Error)
    ensures e in AccountErrors(accounts) <==> AccountReportable(accounts, e)
  {
    if accounts != [] {
      var n := |accounts| - 1;
      AccountErrorsMean(accounts[..n], e);
      AccountReportableStep(accounts, e);
      KeyErrorsMean(accounts[n].address, accounts[n].storageKeys, e);
    }
  }

  ghost predicate AccessReportable(accounts: seq<Account>, accesses: seq<(Word, StorageAccess)>, e: Error) {
    match e
    case StorageAccessWithoutAccount(x) =>
      !Known(accounts, x) && exists i :: 0 <= i < |accesses| && accesses[i].0 == x
    case DuplicateStorageKey(x, k) =>
      exists i, j :: 0 <= i < j < |accesses| && accesses[i].0 == accesses[j].0 == x
                     && accesses[i].1.key == accesses[j].1.key == k
    case _ => false
  }

  lemma {:induction false} AccessReportableStep(accounts: seq<Account>, accesses: seq<(Word, StorageAccess)>, e: Error)
    requires accesses != []
    ensures var before, a := accesses[..|accesses| - 1], accesses[|accesses| - 1];
            AccessReportable(accounts, accesses, e) <==>
            || AccessReportable(accounts, before, e)
            || (e == StorageAccessWithoutAccount(a.0) && !Known(accounts, a.0))
            || (e == DuplicateStorageKey(a.0, a.1.key) && Accessed(before, (a.0, a.1.key)))
  {
    var n := |accesses| - 1;
    var before, a := accesses[..n], accesses[n];
    if e.StorageAccessWithoutAccount? {
      if i :| 0 <= i < |accesses| && accesses[i].0 == e.address {
        assert i < n ==> before[i].0 == e.address;
      }
      if i :| 0 <= i < n && before[i].0 == e.address {
        assert accesses[i].0 == e.address;
      }
    } else if e.DuplicateStorageKey? {
      if AccessReportable(accounts, accesses, e) {
        var i, j :| 0 <= i < j < |accesses| && accesses[i].0 == accesses[j].0 == e.address
                    && accesses[i].1.key == accesses[j].1.key == e.key;
        assert PairOf(before[i]) == (e.address, e.key);
        assert j < n ==> before[j] == accesses[j] && before[i] == accesses[i];
      }
      if AccessReportable(accounts, before, e) {
        var i, j :| 0 <= i < j < n && before[i].0 == before[j].0 == e.address
                    && before[i].1.key == before[j].1.key == e.key;
        assert accesses[i] == before[i] && accesses[j] == before[j];
      }
      if Accessed(before, (e.address, e.key)) {
        var i :| 0 <= i < n && PairOf(before[i]) == (e.address, e.key);
        assert accesses[i] == before[i];
      }
    }
  }

  lemma {:induction false} AccessErrorsMean(accounts: seq<Account>, accesses: seq<(Word, StorageAccess)>, e: Error)
    ensures e in AccessErrors(accounts, accesses) <==> AccessReportable(accounts, accesses, e)
  {
    if accesses != [] {
      AccessErrorsMean(accounts, accesses[..|accesses| - 1], e);
      AccessReportableStep(accounts, accesses, e);
    }
  }

  /** Validation reports exactly what there is to report. */
  lemma {:induction false} ValidationMeans(list: AccessList, e: Error)
    ensures e in ErrorsOf(list) <==> Reportable(list, e)
  {
    AccountErrorsMean(list.accounts, e);
    AccessErrorsMean(list.accounts, list.accesses, e);
  }

  // ---- merging ----

  /** The last account of this address: in the last list that has one, its last. */
  ghost predicate LastAccount(lists: seq<AccessList>, i: nat, j: nat, x: Word) {
    && i < |lists| && j < |lists[i].accounts| && lists[i].accounts[j].address == x
    && (forall l :: j < l < |lists[i].accounts| ==> lists[i].accounts[l].address != x)
    && (forall m, l :: i < m < |lists| && 0 <= l < |lists[m].accounts| ==> lists[m].accounts[l].address != x)
  }

  /** The last storage access to this key of this address. */
  ghost predicate LastAccess(lists: seq<AccessList>, i: nat, j: nat, x: Word, k: Word) {
    && i < |lists| && j < |lists[i].accesses| && lists[i].accesses[j].0 == x && lists[i].accesses[j].1.key == k
    && (forall l :: j < l < |lists[i].accesses| ==> lists[i].accesses[l].0 != x || lists[i].accesses[l].1.key != k)
    && (forall m, l :: i < m < |lists| && 0 <= l < |lists[m].accesses| ==>
          lists[m].accesses[l].0 != x || lists[m].accesses[l].1.key != k)
  }

  ghost predicate HasAccount(list: AccessList, x: Word) {
    exists j :: 0 <= j < |list.accounts| && list.accounts[j].address == x
  }

  ghost predicate HasAccess(list: AccessList, x: Word, k: Word) {
    exists j :: 0 <= j < |list.accesses| && list.accesses[j].0 == x && list.accesses[j].1.key == k
  }

  ghost predicate ListsKey(list: AccessList, x: Word, k: Word) {
    exists j :: 0 <= j < |list.accounts| && list.accounts[j].address == x && k in list.accounts[j].storageKeys
  }

  ghost predicate Touches(list: AccessList, x: Word) {
    HasAccount(list, x) || exists j :: 0 <= j < |list.accesses| && list.accesses[j].0 == x
  }

  /** Some list has the account, the access, the key, the address. */
  ghost predicate AnyAccount(lists: seq<AccessList>, x: Word) {
    exists i :: 0 <= i < |lists| && HasAccount(lists[i], x)
  }

  ghost predicate AnyAccess(lists: seq<AccessList>, x: Word, k: Word) {
    exists i :: 0 <= i < |lists| && HasAccess(lists[i], x, k)
  }

  ghost predicate AnyKey(lists: seq<AccessList>, x: Word, k: Word) {
    exists i :: 0 <= i < |lists| && (ListsKey(lists[i], x, k) || HasAccess(lists[i], x, k))
  }

  ghost predicate AnyTouch(lists: seq<AccessList>, x: Word) {
    exists i :: 0 <= i < |lists| && Touches(lists[i], x)
  }

  lemma {:induction false} AnyStep(lists: seq<AccessList>, x: Word, k: Word)
    requires lists != []
    ensures var init, last := lists[..|lists| - 1], lists[|lists| - 1];
            && (AnyAccount(lists, x) <==> AnyAccount(init, x) || HasAccount(last, x))
            && (AnyAccess(lists, x, k) <==> AnyAccess(init, x, k) || HasAccess(last, x, k))
            && (AnyKey(lists, x, k) <==> AnyKey(init, x, k) || ListsKey(last, x, k) || HasAccess(last, x, k))
            && (AnyTouch(lists, x) <==> AnyTouch(init, x) || Touches(last, x))
  {
    var n := |lists| - 1;
    var init := lists[..n];
    assert forall i :: 0 <= i < n ==> init[i] == lists[i];
    if i :| 0 <= i < n && HasAccount(init[i], x) { assert HasAccount(lists[i], x); }
    if i :| 0 <= i < n && HasAccess(init[i], x, k) { assert HasAccess(lists[i], x, k); }
    if i :| 0 <= i < n && Touches(init[i], x) { assert Touches(lists[i], x); }
    if i :| 0 <= i < n && (ListsKey(init[i], x, k) || HasAccess(init[i], x, k)) {
      assert ListsKey(lists[i], x, k) || HasAccess(lists[i], x, k);
    }
  }

  lemma {:induction false} AccountPosts(accounts: seq<Account>, j: nat, x: Word)
    requires j < |accounts| && accounts[j].address == x
    requires forall l :: j < l < |accounts| ==> accounts[l].address != x
    ensures var posts := LastPosts(AccountEntries(accounts)); x in posts && posts[x] == accounts[j].posts
  {
    var n := |accounts| - 1;
    AccessListMerge.Snoc(AccountEntries(accounts[..n]), AccountEntry(accounts[n]));
    if j < n {
      AccountPosts(accounts[..n], j, x);
    }
  }

  lemma {:induction false} ListPosts(list: AccessList)
    ensures LastPosts(ListEntries(list)) == LastPosts(AccountEntries(list.accounts))
    ensures LastAccesses(ListEntries(list)) == LastAccesses(AccessEntries(list.accesses))
    ensures forall x :: x in LastPosts(ListEntries(list)) <==> HasAccount(list, x)
  {
    AccessListMerge.Concat(AccountEntries(list.accounts), AccessEntries(list.accesses));
    AccessListMerge.AccountEntriesTouch(list.accounts);
    AccessListMerge.AccessEntriesTouch(list.accesses);
    var posts, accesses := LastPosts(AccountEntries(list.accounts)), LastAccesses(AccessEntries(list.accesses));
    assert posts + map[] == posts;
    assert map[] + accesses == accesses;
  }

  lemma {:induction false} EntriesStep(lists: seq<AccessList>)
    requires lists != []
    ensures var init, last := lists[..|lists| - 1], lists[|lists| - 1];
            && LastPosts(Entries(lists)) == LastPosts(Entries(init)) + LastPosts(AccountEntries(last.accounts))
            && LastAccesses(Entries(lists)) == LastAccesses(Entries(init)) + LastAccesses(AccessEntries(last.accesses))
            && Keys(Entries(lists)) == Keys(Entries(init)) + Keys(ListEntries(last))
            && Addresses(Entries(lists)) == Addresses(Entries(init)) + Addresses(ListEntries(last))
  {
    var n := |lists| - 1;
    AccessListMerge.Concat(Entries(lists[..n]), ListEntries(lists[n]));
    ListPosts(lists[n]);
  }

  /** The merge gives post values to the addresses that have an account. */
  lemma {:induction false} PostsKnown(lists: seq<AccessList>, x: Word)
    ensures x in LastPosts(Entries(lists)) <==> AnyAccount(lists, x)
  {
    if lists != [] {
      var n := |lists| - 1;
      PostsKnown(lists[..n], x);
      EntriesStep(lists);
      ListPosts(lists[n]);
      AnyStep(lists, x, 0);
    }
  }

  lemma {:induction false} LastAccountEarlier(lists: seq<AccessList>, i: nat, j: nat, x: Word)
    requires LastAccount(lists, i, j, x) && i < |lists| - 1
    ensures LastAccount(lists[..|lists| - 1], i, j, x) && !HasAccount(lists[|lists| - 1], x)
  {
  }

  /** And they are those of its last account. */
  lemma {:induction false} PostsMean(lists: seq<AccessList>, i: nat, j: nat, x: Word)
    requires LastAccount(lists, i, j, x)
    ensures x in LastPosts(Entries(lists)) && LastPosts(Entries(lists))[x] == lists[i].accounts[j].posts
  {
    var n := |lists| - 1;
    EntriesStep(lists);
    ListPosts(lists[n]);
    if i == n {
      AccountPosts(lists[n].accounts, j, x);
    } else {
      LastAccountEarlier(lists, i, j, x);
      PostsMean(lists[..n], i, j, x);
    }
  }

  lemma {:induction false} LastAccountExists(lists: seq<AccessList>, x: Word) returns (i: nat, j: nat)
    requires AnyAccount(lists, x)
    ensures LastAccount(lists, i, j, x)
  {
    i := |lists| - 1;
    while !HasAccount(lists[i], x)
      invariant i < |lists| && forall m :: i < m < |lists| ==> !HasAccount(lists[m], x)
      decreases i
    {
      var m :| 0 <= m < |lists| && HasAccount(lists[m], x);
      assert m < i;
      i := i - 1;
    }
    var accounts := lists[i].accounts;
    j := |accounts| - 1;
    while accounts[j].address != x
      invariant j < |accounts| && forall l :: j < l < |accounts| ==> accounts[l].address != x
      decreases j
    {
      var l :| 0 <= l < |accounts| && accounts[l].address == x;
      assert l < j;
      j := j - 1;
    }
    forall m, l | i < m < |lists| && 0 <= l < |lists[m].accounts| ensures lists[m].accounts[l].address != x {
      assert !HasAccount(lists[m], x);
    }
  }

  lemma {:induction false} AccessValue(accesses: seq<(Word, StorageAccess)>, j: nat, x: Word, k: Word)
    requires j < |accesses| && accesses[j].0 == x && accesses[j].1.key == k
    requires forall l :: j < l < |accesses| ==> accesses[l].0 != x || accesses[l].1.key != k
    ensures var last := LastAccesses(AccessEntries(accesses)); (x, k) in last && last[(x, k)] == accesses[j].1
  {
    var n := |accesses| - 1;
    AccessListMerge.Snoc(AccessEntries(accesses[..n]), AccessEntry(accesses[n].0, accesses[n].1));
    if j < n {
      AccessValue(accesses[..n], j, x, k);
    }
  }

  lemma {:induction false} AccessesOf(accesses: seq<(Word, StorageAccess)>, x: Word, k: Word)
    ensures (x, k) in LastAccesses(AccessEntries(accesses)) <==>
            exists j :: 0 <= j < |accesses| && accesses[j].0 == x && accesses[j].1.key == k
  {
    if accesses != [] {
      var n := |accesses| - 1;
      AccessesOf(accesses[..n], x, k);
      AccessListMerge.Snoc(AccessEntries(accesses[..n]), AccessEntry(accesses[n].0, accesses[n].1));
      assert forall j :: 0 <= j < n ==> accesses[..n][j] == accesses[j];
    }
  }

  /** The merge has an access for each address and key that some list accesses. */
  lemma {:induction false} AccessesKnown(lists: seq<AccessList>, x: Word, k: Word)
    ensures (x, k) in LastAccesses(Entries(lists)) <==> AnyAccess(lists, x, k)
  {
    if lists != [] {
      var n := |lists| - 1;
      AccessesKnown(lists[..n], x, k);
      EntriesStep(lists);
      AccessesOf(lists[n].accesses, x, k);
      AnyStep(lists, x, k);
    }
  }

  lemma {:induction false} LastAccessEarlier(lists: seq<AccessList>, i: nat, j: nat, x: Word, k: Word)
    requires LastAccess(lists, i, j, x, k) && i < |lists| - 1
    ensures LastAccess(lists[..|lists| - 1], i, j, x, k) && !HasAccess(lists[|lists| - 1], x, k)
  {
  }

  /** And it is the last one. */
  lemma {:induction false} AccessesMean(lists: seq<AccessList>, i: nat, j: nat, x: Word, k: Word)
    requires LastAccess(lists, i, j, x, k)
    ensures (x, k) in LastAccesses(Entries(lists)) && LastAccesses(Entries(lists))[(x, k)] == lists[i].accesses[j].1
  {
    var n := |lists| - 1;
    EntriesStep(lists);
    AccessesOf(lists[n].accesses, x, k);
    if i == n {
      AccessValue(lists[n].accesses, j, x, k);
    } else {
      LastAccessEarlier(lists, i, j, x, k);
      AccessesMean(lists[..n], i, j, x, k);
    }
  }

  lemma {:induction false} ListTouches(list: AccessList, x: Word, k: Word)
    ensures (x, k) in Keys(ListEntries(list)) <==> ListsKey(list, x, k) || HasAccess(list, x, k)
    ensures x in Addresses(ListEntries(list)) <==> Touches(list, x)
  {
    AccessListMerge.Concat(AccountEntries(list.accounts), AccessEntries(list.accesses));
    AccessListMerge.AccountEntriesKeys(list.accounts, x, k);
    AccessListMerge.AccountEntriesTouch(list.accounts);
    AccessesTouched(list.accesses, x, k);
  }

  lemma {:induction false} AccessesTouched(accesses: seq<(Word, StorageAccess)>, x: Word, k: Word)
    ensures (x, k) in Keys(AccessEntries(accesses)) <==>
            exists j :: 0 <= j < |accesses| && accesses[j].0 == x && accesses[j].1.key == k
    ensures x in Addresses(AccessEntries(accesses)) <==> exists j :: 0 <= j < |accesses| && accesses[j].0 == x
  {
    if accesses != [] {
      var n := |accesses| - 1;
      AccessesTouched(accesses[..n], x, k);
      AccessListMerge.Snoc(AccessEntries(accesses[..n]), AccessEntry(accesses[n].0, accesses[n].1));
      assert forall j :: 0 <= j < n ==> accesses[..n][j] == accesses[j];
    }
  }

  /** The merge has the addresses and keys that some list has. */
  lemma {:induction false} TouchesMean(lists: seq<AccessList>, x: Word, k: Word)
    ensures (x, k) in Keys(Entries(lists)) <==> AnyKey(lists, x, k)
    ensures x in Addresses(Entries(lists)) <==> AnyTouch(lists, x)
  {
    if lists != [] {
      var n := |lists| - 1;
      TouchesMean(lists[..n], x, k);
      EntriesStep(lists);
      ListTouches(lists[n], x, k);
      AnyStep(lists, x, k);
    }
  }

  /** An account of the merge: its keys, ascending, are those listed or accessed for its address anywhere,
      and its post values are those of the last account of its address, if there is one. */
  ghost predicate MergedAccount(lists: seq<AccessList>, a: Account) {
    && (forall i, j :: 0 <= i < j < |a.storageKeys| ==> a.storageKeys[i] < a.storageKeys[j])
    && (forall k :: k in a.storageKeys <==> AnyKey(lists, a.address, k))
    && (forall i: nat, j: nat :: LastAccount(lists, i, j, a.address) ==> a.posts == lists[i].accounts[j].posts)
    && (!AnyAccount(lists, a.address) ==> a.posts == Posts(None, None, None))
  }

  lemma {:induction false} MergedAccountMeans(lists: seq<AccessList>, out: AccessList, n: nat)
    requires IsMerge(lists, out) && n < |out.accounts|
    ensures MergedAccount(lists, out.accounts[n])
  {
    var a := out.accounts[n];
    PostsKnown(lists, a.address);
    forall k ensures k in a.storageKeys <==> AnyKey(lists, a.address, k) {
      TouchesMean(lists, a.address, k);
    }
    forall i: nat, j: nat | LastAccount(lists, i, j, a.address) ensures a.posts == lists[i].accounts[j].posts {
      PostsMean(lists, i, j, a.address);
    }
  }

  /** The accounts of the merge ascend by address, one for each address that occurs. */
  ghost predicate MergedAccounts(lists: seq<AccessList>, out: AccessList) {
    && (forall i, j :: 0 <= i < j < |out.accounts| ==> out.accounts[i].address < out.accounts[j].address)
    && (forall x :: HasAccount(out, x) <==> AnyTouch(lists, x))
    && forall n :: 0 <= n < |out.accounts| ==> MergedAccount(lists, out.accounts[n])
  }

  /** Its accesses ascend by address and key, one for each pair that occurs, the last one. */
  ghost predicate MergedAccesses(lists: seq<AccessList>, out: AccessList) {
    && (forall i, j :: 0 <= i < j < |out.accesses| ==>
          var (x, a), (y, b) := out.accesses[i], out.accesses[j]; x < y || (x == y && a.key < b.key))
    && (forall x, k :: HasAccess(out, x, k) <==> AnyAccess(lists, x, k))
    && forall n: nat, i: nat, j: nat ::
         n < |out.accesses| && LastAccess(lists, i, j, out.accesses[n].0, out.accesses[n].1.key) ==>
           out.accesses[n].1 == lists[i].accesses[j].1
  }

  lemma {:induction false} AccountsMean(lists: seq<AccessList>, out: AccessList)
    requires IsMerge(lists, out)
    ensures MergedAccounts(lists, out)
  {
    forall x ensures HasAccount(out, x) <==> AnyTouch(lists, x) {
      TouchesMean(lists, x, 0);
      assert HasAccount(out, x) <==> Known(out.accounts, x);
    }
    forall n | 0 <= n < |out.accounts| ensures MergedAccount(lists, out.accounts[n]) {
      MergedAccountMeans(lists, out, n);
    }
  }

  lemma {:induction false} MergedAccessMeans(lists: seq<AccessList>, out: AccessList, x: Word, k: Word)
    requires IsMerge(lists, out)
    ensures HasAccess(out, x, k) <==> AnyAccess(lists, x, k)
  {
    AccessesKnown(lists, x, k);
    if HasAccess(out, x, k) {
      var j :| 0 <= j < |out.accesses| && out.accesses[j].0 == x && out.accesses[j].1.key == k;
      assert PairOf(out.accesses[j]) == (x, k);
    }
    if (x, k) in LastAccesses(Entries(lists)) {
      var j :| 0 <= j < |out.accesses| && PairOf(out.accesses[j]) == (x, k);
      assert out.accesses[j].0 == x && out.accesses[j].1.key == k;
    }
  }

  /** The merge, told from the lists: their last number, and its accounts and accesses. */
  lemma {:induction false} MergeMeans(lists: seq<AccessList>, out: AccessList)
    requires IsMerge(lists, out)
    ensures out.blockNumber == if lists == [] then 0 else lists[|lists| - 1].blockNumber
    ensures MergedAccounts(lists, out) && MergedAccesses(lists, out)
  {
    AccountsMean(lists, out);
    forall i, j | 0 <= i < j < |out.accesses|
      ensures var (x, a), (y, b) := out.accesses[i], out.accesses[j]; x < y || (x == y && a.key < b.key)
    {
      assert PairBefore(PairOf(out.accesses[i]), PairOf(out.accesses[j]));
    }
    forall x, k ensures HasAccess(out, x, k) <==> AnyAccess(lists, x, k) {
      MergedAccessMeans(lists, out, x, k);
    }
    forall n: nat, i: nat, j: nat |
      n < |out.accesses| && LastAccess(lists, i, j, out.accesses[n].0, out.accesses[n].1.key)
      ensures out.accesses[n].1 == lists[i].accesses[j].1
    {
      AccessesMean(lists, i, j, out.accesses[n].0, out.accesses[n].1.key);
      assert PairOf(out.accesses[n]) == (out.accesses[n].0, out.accesses[n].1.key);
    }
  }
}
