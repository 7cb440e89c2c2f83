/** Block access lists: validation and merging. */
module AccessLists {
  import opened Common

  /** Addresses, keys and values are byte strings read as big-endian numbers. */
  type Word = nat

  datatype Posts = Posts(balance: Option<nat>, nonce: Option<nat>, codeHash: Option<Word>)

  const NoPosts := Posts(None, None, None)

  datatype Account = Account(address: Word, storageKeys: seq<Word>, posts: Posts)

  datatype StorageAccess = StorageAccess(key: Word, pre: Word, post: Word)

  datatype AccessList = AccessList(blockNumber: nat, accounts: seq<Account>, accesses: seq<(Word, StorageAccess)>)

  datatype Error =
    | DuplicateAccount(address: Word)
    | DuplicateStorageKey(address: Word, key: Word)
    | EmptyAccessList
    | StorageAccessWithoutAccount(address: Word)

  // ---- validation ----

  predicate DistinctKeys(keys: seq<Word>) {
    forall i, j :: 0 <= i < j < |keys| ==> keys[i] != keys[j]
  }

  predicate DistinctAccounts(accounts: seq<Account>) {
    && (forall i, j :: 0 <= i < j < |accounts| ==> accounts[i].address != accounts[j].address)
    && (forall i :: 0 <= i < |accounts| ==> DistinctKeys(accounts[i].storageKeys))
  }

  predicate DistinctAccesses(accesses: seq<(Word, StorageAccess)>) {
    forall i, j :: 0 <= i < j < |accesses| ==>
      accesses[i].0 != accesses[j].0 || accesses[i].1.key != accesses[j].1.key
  }

  predicate Known(accounts: seq<Account>, address: Word) {
    exists i :: 0 <= i < |accounts| && accounts[i].address == address
  }

  predicate ValidList(list: AccessList) {
    && list.accounts != [] && DistinctAccounts(list.accounts) && DistinctAccesses(list.accesses)
    && forall i :: 0 <= i < |list.accesses| ==> Known(list.accounts, list.accesses[i].0)
  }

  // ---- what validation reports ----

  /** Every key that occurs earlier in the list. */
  function KeyErrors(address: Word, keys: seq<Word>): seq<Error> {
    if keys == [] then []
    else
      var before, key := keys[..|keys| - 1], keys[|keys| - 1];
      KeyErrors(address, before) + if key in before then [DuplicateStorageKey(address, key)] else []
  }

  /** Every account whose address occurs earlier, and every repeated key of each account. */
  function AccountErrors(accounts: seq<Account>): seq<Error> {
    if accounts == [] then []
    else
      var before, a := accounts[..|accounts| - 1], accounts[|accounts| - 1];
      AccountErrors(before) + (if Known(before, a.address) then [DuplicateAccount(a.address)] else [])
      + KeyErrors(a.address, a.storageKeys)
  }

  /** Every storage access without an account, and every one whose address and key occur earlier. */
  function AccessErrors(accounts: seq<Account>, accesses: seq<(Word, StorageAccess)>): seq<Error> {
    if accesses == [] then []
    else
      var before, a := accesses[..|accesses| - 1], accesses[|accesses| - 1];
      AccessErrors(accounts, before)
      + (if Known(accounts, a.0) then [] else [StorageAccessWithoutAccount(a.0)])
      + (if Accessed(before, PairOf(a)) then [DuplicateStorageKey(a.0, a.1.key)] else [])
  }

  predicate Accessed(accesses: seq<(Word, StorageAccess)>, p: (Word, Word)) {
    exists i :: 0 <= i < |accesses| && PairOf(accesses[i]) == p
  }

  function ErrorsOf(list: AccessList): seq<Error> {
    (if list.accounts == [] then [EmptyAccessList] else [])
    + AccountErrors(list.accounts) + AccessErrors(list.accounts, list.accesses)
  }

  lemma {:induction false} NoKeyErrors(address: Word, keys: seq<Word>)
    ensures KeyErrors(address, keys) == [] <==> DistinctKeys(keys)
  {
    if keys != [] {
      var n := |keys| - 1;
      NoKeyErrors(address, keys[..n]);
      if keys[n] in keys[..n] {
        var i :| 0 <= i < n && keys[..n][i] == keys[n];
        assert keys[i] == keys[n];
      } else {
        assert forall i :: 0 <= i < n ==> keys[i] == keys[..n][i];
      }
    }
  }

  lemma {:induction false} DistinctAccountsLast(accounts: seq<Account>)
    requires accounts != []
    ensures var before, a := accounts[..|accounts| - 1], accounts[|accounts| - 1];
            DistinctAccounts(accounts) <==>
            DistinctAccounts(before) && !Known(before, a.address) && DistinctKeys(a.storageKeys)
  {
    var n := |accounts| - 1;
    var before, a := accounts[..n], accounts[n];
    assert forall i :: 0 <= i < n ==> accounts[i] == before[i];
    if Known(before, a.address) {
      var i :| 0 <= i < n && before[i].address == a.address;
      assert accounts[i].address == accounts[n].address;
    }
  }

  lemma {:induction false} NoAccountErrors(accounts: seq<Account>)
    ensures AccountErrors(accounts) == [] <==> DistinctAccounts(accounts)
  {
    if accounts != [] {
      var n := |accounts| - 1;
      NoAccountErrors(accounts[..n]);
      NoKeyErrors(accounts[n].address, accounts[n].storageKeys);
      DistinctAccountsLast(accounts);
    }
  }

  lemma {:induction false} NoAccessErrors(accounts: seq<Account>, accesses: seq<(Word, StorageAccess)>)
    ensures AccessErrors(accounts, accesses) == [] <==>
            && DistinctAccesses(accesses)
            && forall i :: 0 <= i < |accesses| ==> Known(accounts, accesses[i].0)
  {
    if accesses != [] {
      var n := |accesses| - 1;
      var before, a := accesses[..n], accesses[n];
      NoAccessErrors(accounts, before);
      assert forall i :: 0 <= i < n ==> accesses[i] == before[i];
      if Accessed(before, PairOf(a)) {
        var i :| 0 <= i < n && PairOf(before[i]) == PairOf(a);
        assert PairOf(accesses[i]) == PairOf(accesses[n]);
      }
    }
  }

  /** Nothing is reported exactly about valid lists. */
  lemma {:induction false} NoErrorsIffValid(list: AccessList)
    ensures ErrorsOf(list) == [] <==> ValidList(list)
  {
    NoAccountErrors(list.accounts);
    NoAccessErrors(list.accounts, list.accesses);
  }

  method DuplicateKeys(address: Word, keys: seq<Word>) returns (errors: seq<Error>)
    ensures errors == KeyErrors(address, keys)
  {
    errors := [];
    var seen: set<Word> := {};
    for i := 0 to |keys|
      invariant seen == set k | k in keys[..i]
      invariant errors == KeyErrors(address, keys[..i])
    {
      assert keys[..i + 1][..i] == keys[..i];
      if keys[i] in seen {
        errors := errors + [DuplicateStorageKey(address, keys[i])];
      }
      seen := seen + {keys[i]};
    }
    assert keys[..|keys|] == keys;
  }

  lemma {:induction false} KnownStep(accounts: seq<Account>, a: Word)
    requires accounts != []
    ensures Known(accounts, a) <==> Known(accounts[..|accounts| - 1], a) || a == accounts[|accounts| - 1].address
  {
    var n := |accounts| - 1;
    var init := accounts[..n];
    if Known(init, a) {
      var i :| 0 <= i < |init| && init[i].address == a;
      assert accounts[i].address == a;
    }
    if Known(accounts, a) && a != accounts[n].address {
      var i :| 0 <= i < |accounts| && accounts[i].address == a;
      assert init[i].address == a;
    }
  }

  method ValidateAccounts(accounts: seq<Account>) returns (errors: seq<Error>, seen: set<Word>)
    ensures errors == AccountErrors(accounts)
    ensures forall a :: a in seen <==> Known(accounts, a)
  {
    errors, seen := [], {};
    for i := 0 to |accounts|
      invariant forall a :: a in seen <==> Known(accounts[..i], a)
      invariant errors == AccountErrors(accounts[..i])
    {
      var account := accounts[i];
      assert accounts[..i + 1][..i] == accounts[..i];
      var duplicates := DuplicateKeys(account.address, account.storageKeys);
      if account.address in seen {
        errors := errors + [DuplicateAccount(account.address)];
      }
      forall a ensures Known(accounts[..i + 1], a) <==> a in seen + {account.address} {
        KnownStep(accounts[..i + 1], a);
      }
      seen := seen + {account.address};
      errors := errors + duplicates;
    }
    assert accounts[..|accounts|] == accounts;
  }

  lemma {:induction false} AccessedStep(accesses: seq<(Word, StorageAccess)>, i: nat, p: (Word, Word))
    requires i < |accesses|
    ensures Accessed(accesses[..i + 1], p) <==> Accessed(accesses[..i], p) || p == PairOf(accesses[i])
  {
    var prev, next := accesses[..i], accesses[..i + 1];
    if Accessed(prev, p) {
      var j :| 0 <= j < |prev| && PairOf(prev[j]) == p;
      assert PairOf(next[j]) == p;
    }
    if p == PairOf(accesses[i]) {
      assert PairOf(next[i]) == p;
    }
  }

  method ValidateAccesses(ghost accounts: seq<Account>, known: set<Word>, accesses: seq<(Word, StorageAccess)>)
    returns (errors: seq<Error>)
    requires forall a :: a in known <==> Known(accounts, a)
    ensures errors == AccessErrors(accounts, accesses)
  {
    errors := [];
    var seen: set<(Word, Word)> := {};
    for i := 0 to |accesses|
      invariant forall p :: p in seen <==> Accessed(accesses[..i], p)
      invariant errors == AccessErrors(accounts, accesses[..i])
    {
      var (address, access) := accesses[i];
      assert accesses[..i + 1][..i] == accesses[..i];
      if address !in known {
        errors := errors + [StorageAccessWithoutAccount(address)];
      }
      if (address, access.key) in seen {
        errors := errors + [DuplicateStorageKey(address, access.key)];
      }
      forall p ensures Accessed(accesses[..i + 1], p) <==> p in seen + {(address, access.key)} {
        AccessedStep(accesses, i, p);
      }
      seen := seen + {(address, access.key)};
    }
    assert accesses[..|accesses|] == accesses;
  }

  method Validate(list: AccessList) returns (r: Result<(), seq<Error>>)
    ensures r == if ErrorsOf(list) == [] then Ok(()) else Err(ErrorsOf(list))
    ensures r.Ok? <==> ValidList(list)
  {
    NoErrorsIffValid(list);
    var errors := if list.accounts == [] then [EmptyAccessList] else [];
    var found, known := ValidateAccounts(list.accounts);
    errors := errors + found;
    found := ValidateAccesses(list.accounts, known, list.accesses);
    errors := errors + found;
    if errors == [] {
      return Ok(());
    } else {
      return Err(errors);
    }
  }

  // ---- what merging sees: entries in processing order ----

  datatype Entry = AccountEntry(account: Account) | AccessEntry(address: Word, access: StorageAccess)

  function AccountEntries(accounts: seq<Account>): seq<Entry> {
    if accounts == [] then [] else AccountEntries(accounts[..|accounts| - 1]) + [AccountEntry(accounts[|accounts| - 1])]
  }

  function AccessEntries(accesses: seq<(Word, StorageAccess)>): seq<Entry> {
    if accesses == [] then []
    else
      var last := accesses[|accesses| - 1];
      AccessEntries(accesses[..|accesses| - 1]) + [AccessEntry(last.0, last.1)]
  }

  function ListEntries(list: AccessList): seq<Entry> {
    AccountEntries(list.accounts) + AccessEntries(list.accesses)
  }

  function Entries(lists: seq<AccessList>): seq<Entry> {
    if lists == [] then [] else Entries(lists[..|lists| - 1]) + ListEntries(lists[|lists| - 1])
  }

  function Number(lists: seq<AccessList>): nat {
    if lists == [] then 0 else lists[|lists| - 1].blockNumber
  }

  function AddressOf(e: Entry): Word {
    if e.AccountEntry? then e.account.address else e.address
  }

  /** Addresses touched by an account or a storage access. */
  function Addresses(es: seq<Entry>): set<Word> {
    if es == [] then {} else Addresses(es[..|es| - 1]) + {AddressOf(es[|es| - 1])}
  }

  function EntryKeys(e: Entry): set<(Word, Word)> {
    if e.AccountEntry? then set k | k in e.account.storageKeys :: (e.account.address, k)
    else {(e.address, e.access.key)}
  }

  /** Every (address, key) named by an account or a storage access. */
  function Keys(es: seq<Entry>): set<(Word, Word)> {
    if es == [] then {} else Keys(es[..|es| - 1]) + EntryKeys(es[|es| - 1])
  }

  /** Post values of the last account entry of each address that has one. */
  function LastPosts(es: seq<Entry>): map<Word, Posts> {
    if es == [] then map[]
    else
      var before, e := LastPosts(es[..|es| - 1]), es[|es| - 1];
      if e.AccountEntry? then before[e.account.address := e.account.posts] else before
  }

  function PostsOf(es: seq<Entry>, a: Word): Posts {
    if a in LastPosts(es) then LastPosts(es)[a] else NoPosts
  }

  /** The last storage access of each (address, key). */
  function LastAccesses(es: seq<Entry>): map<(Word, Word), StorageAccess> {
    if es == [] then map[]
    else
      var before, e := LastAccesses(es[..|es| - 1]), es[|es| - 1];
      if e.AccessEntry? then before[(e.address, e.access.key) := e.access] else before
  }

  // ---- what a merge is ----

  predicate Ascending(keys: seq<Word>) {
    forall i, j :: 0 <= i < j < |keys| ==> keys[i] < keys[j]
  }

  predicate AccountsAscending(accounts: seq<Account>) {
    forall i, j :: 0 <= i < j < |accounts| ==> accounts[i].address < accounts[j].address
  }

  predicate PairBefore(p: (Word, Word), q: (Word, Word)) {
    p.0 < q.0 || (p.0 == q.0 && p.1 < q.1)
  }

  function PairOf(access: (Word, StorageAccess)): (Word, Word) {
    (access.0, access.1.key)
  }

  predicate AccessesAscending(accesses: seq<(Word, StorageAccess)>) {
    forall i, j :: 0 <= i < j < |accesses| ==> PairBefore(PairOf(accesses[i]), PairOf(accesses[j]))
  }

  ghost predicate RendersAccounts(es: seq<Entry>, accounts: seq<Account>) {
    && AccountsAscending(accounts)
    && (forall a :: a in Addresses(es) <==> Known(accounts, a))
    && (forall i :: 0 <= i < |accounts| ==>
          && Ascending(accounts[i].storageKeys)
          && (forall k :: k in accounts[i].storageKeys <==> (accounts[i].address, k) in Keys(es))
          && accounts[i].posts == PostsOf(es, accounts[i].address))
  }

  ghost predicate RendersAccesses(es: seq<Entry>, accesses: seq<(Word, StorageAccess)>) {
    && AccessesAscending(accesses)
    && (forall i :: 0 <= i < |accesses| ==>
          PairOf(accesses[i]) in LastAccesses(es) && LastAccesses(es)[PairOf(accesses[i])] == accesses[i].1)
    && (forall p :: p in LastAccesses(es) ==> exists i :: 0 <= i < |accesses| && PairOf(accesses[i]) == p)
  }

  /** `out` is the merge of `lists`: one sorted account per address with all its keys and its last post
      values, and one sorted storage access per (address, key), the last one. */
  ghost predicate IsMerge(lists: seq<AccessList>, out: AccessList) {
    && out.blockNumber == Number(lists)
    && RendersAccounts(Entries(lists), out.accounts)
    && RendersAccesses(Entries(lists), out.accesses)
  }
}
