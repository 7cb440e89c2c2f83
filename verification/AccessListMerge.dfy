/** Merging block access lists: what the merge loop computes and the laws it obeys. */
module AccessListMerge {
  import opened Common
  import opened AccessLists
  import Orders

  // ---- entries concatenate ----

  lemma {:induction false} MapPlusUpdate<K, V>(a: map<K, V>, b: map<K, V>, k: K, v: V)
    ensures (a + b)[k := v] == a + b[k := v]
  {
  }

  lemma {:induction false} SeqAssoc<T>(a: seq<T>, b: seq<T>, c: seq<T>)
    ensures a + (b + c) == (a + b) + c
  {
  }

  lemma {:induction false} Concat(a: seq<Entry>, b: seq<Entry>)
    ensures Addresses(a + b) == Addresses(a) + Addresses(b)
    ensures Keys(a + b) == Keys(a) + Keys(b)
    ensures LastPosts(a + b) == LastPosts(a) + LastPosts(b)
    ensures LastAccesses(a + b) == LastAccesses(a) + LastAccesses(b)
  {
    if b == [] {
      assert a + b == a;
    } else {
      var init, e := b[..|b| - 1], b[|b| - 1];
      Concat(a, init);
      assert b == init + [e];
      SeqAssoc(a, init, [e]);
      Snoc(a + init, e);
      Snoc(init, e);
      if e.AccountEntry? {
        MapPlusUpdate(LastPosts(a), LastPosts(init), e.account.address, e.account.posts);
      } else {
        MapPlusUpdate(LastAccesses(a), LastAccesses(init), (e.address, e.access.key), e.access);
      }
    }
  }

  lemma {:induction false} Snoc(es: seq<Entry>, e: Entry)
    ensures Addresses(es + [e]) == Addresses(es) + {AddressOf(e)}
    ensures Keys(es + [e]) == Keys(es) + EntryKeys(e)
    ensures LastPosts(es + [e]) ==
            if e.AccountEntry? then LastPosts(es)[e.account.address := e.account.posts] else LastPosts(es)
    ensures LastAccesses(es + [e]) ==
            if e.AccessEntry? then LastAccesses(es)[(e.address, e.access.key) := e.access] else LastAccesses(es)
  {
    assert (es + [e])[..|es|] == es;
  }

  lemma {:induction false} EntriesAppend(xs: seq<AccessList>, ys: seq<AccessList>)
    ensures Entries(xs + ys) == Entries(xs) + Entries(ys)
    ensures ys != [] ==> Number(xs + ys) == Number(ys)
  {
    if ys == [] {
      assert xs + ys == xs;
    } else {
      var init, last := ys[..|ys| - 1], ys[|ys| - 1];
      assert (xs + ys)[..|xs + ys| - 1] == xs + init;
      EntriesAppend(xs, init);
      SeqAssoc(Entries(xs), Entries(init), ListEntries(last));
    }
  }

  /** Whatever is accessed is also an account's key, and post values belong to touched addresses. */
  lemma {:induction false} EntriesCoherent(es: seq<Entry>)
    ensures forall p :: p in LastAccesses(es) ==> p in Keys(es) && LastAccesses(es)[p].key == p.1
    ensures forall p :: p in Keys(es) ==> p.0 in Addresses(es)
    ensures forall a :: a in LastPosts(es) ==> a in Addresses(es)
  {
    if es != [] {
      EntriesCoherent(es[..|es| - 1]);
    }
  }

  // ---- sorting ----

  predicate WordLt(a: Word, b: Word) {
    a < b
  }

  predicate PairLe(p: (Word, Word), q: (Word, Word)) {
    p == q || PairBefore(p, q)
  }

  predicate PairsAscending(ps: seq<(Word, Word)>) {
    forall i, j :: 0 <= i < j < |ps| ==> PairBefore(ps[i], ps[j])
  }

  /** The elements of a set, strictly ascending: how an ordered map lists its keys, and what sorting
      and removing duplicates leaves. */
  method Sorted(s: set<Word>) returns (out: seq<Word>)
    ensures Ascending(out) && forall k :: k in out <==> k in s
  {
    out := Orders.SortedElements(Orders.NumberLe, s);
    forall i, j | 0 <= i < j < |out| ensures out[i] < out[j] {
      assert Orders.NumberLe(out[i], out[j]) && out[i] != out[j];
    }
  }

  /** How an ordered map lists its composite keys. */
  method SortedPairs(s: set<(Word, Word)>) returns (out: seq<(Word, Word)>)
    ensures PairsAscending(out) && forall p :: p in out <==> p in s
  {
    out := Orders.SortedElements(PairLe, s);
    forall i, j | 0 <= i < j < |out| ensures PairBefore(out[i], out[j]) {
      assert PairLe(out[i], out[j]) && out[i] != out[j];
    }
  }

  /** Ascending sequences are determined by their elements. */
  lemma {:induction false} WordsUnique(a: seq<Word>, b: seq<Word>)
    requires Ascending(a) && Ascending(b) && forall k :: k in a <==> k in b
    ensures a == b
  {
    Orders.AscendingUnique(WordLt, a, b);
  }

  lemma {:induction false} PairsUnique(a: seq<(Word, Word)>, b: seq<(Word, Word)>)
    requires PairsAscending(a) && PairsAscending(b) && forall p :: p in a <==> p in b
    ensures a == b
  {
    Orders.AscendingUnique(PairBefore, a, b);
  }

  // ---- a merge is unique ----

  function AddressesOf(accounts: seq<Account>): (out: seq<Word>)
    ensures |out| == |accounts| && forall i :: 0 <= i < |out| ==> out[i] == accounts[i].address
  {
    seq(|accounts|, i requires 0 <= i < |accounts| => accounts[i].address)
  }

  lemma {:induction false} AccountsUnique(es: seq<Entry>, fs: seq<Entry>, a: seq<Account>, b: seq<Account>)
    requires RendersAccounts(es, a) && RendersAccounts(fs, b)
    requires Addresses(es) == Addresses(fs) && Keys(es) == Keys(fs)
    requires forall x :: x in Addresses(es) ==> PostsOf(es, x) == PostsOf(fs, x)
    ensures a == b
  {
    var p, q := AddressesOf(a), AddressesOf(b);
    forall x ensures x in p <==> x in q {
      assert x in p <==> Known(a, x);
      assert x in q <==> Known(b, x);
    }
    WordsUnique(p, q);
    forall i | 0 <= i < |a| ensures a[i] == b[i] {
      assert a[i].address == p[i] == b[i].address;
      assert Known(a, a[i].address);
      WordsUnique(a[i].storageKeys, b[i].storageKeys);
    }
  }

  function PairsOf(accesses: seq<(Word, StorageAccess)>): (out: seq<(Word, Word)>)
    ensures |out| == |accesses| && forall i :: 0 <= i < |out| ==> out[i] == PairOf(accesses[i])
  {
    seq(|accesses|, i requires 0 <= i < |accesses| => PairOf(accesses[i]))
  }

  lemma {:induction false} PairsListed(es: seq<Entry>, accesses: seq<(Word, StorageAccess)>)
    requires RendersAccesses(es, accesses)
    ensures PairsAscending(PairsOf(accesses))
    ensures forall p :: p in PairsOf(accesses) <==> p in LastAccesses(es)
  {
    forall p | p in LastAccesses(es) ensures p in PairsOf(accesses) {
      var i :| 0 <= i < |accesses| && PairOf(accesses[i]) == p;
      assert PairsOf(accesses)[i] == p;
    }
  }

  lemma {:induction false} AccessesUnique(es: seq<Entry>, fs: seq<Entry>, a: seq<(Word, StorageAccess)>,
                                          b: seq<(Word, StorageAccess)>)
    requires RendersAccesses(es, a) && RendersAccesses(fs, b) && LastAccesses(es) == LastAccesses(fs)
    ensures a == b
  {
    PairsListed(es, a);
    PairsListed(fs, b);
    PairsUnique(PairsOf(a), PairsOf(b));
    forall i | 0 <= i < |a| ensures a[i] == b[i] {
      assert PairOf(a[i]) == PairsOf(a)[i] == PairsOf(b)[i] == PairOf(b[i]);
    }
  }

  /** The merge of given lists is one list. */
  lemma {:induction false} MergeUnique(lists: seq<AccessList>, a: AccessList, b: AccessList)
    requires IsMerge(lists, a) && IsMerge(lists, b)
    ensures a == b
  {
    var es := Entries(lists);
    AccountsUnique(es, es, a.accounts, b.accounts);
    AccessesUnique(es, es, a.accesses, b.accesses);
  }

  // ---- the merge loop ----

  /** The two ordered maps after processing `es`; key lists still hold duplicates. */
  ghost predicate Tracks(es: seq<Entry>, merged: map<Word, Account>, accesses: map<(Word, Word), StorageAccess>) {
    && merged.Keys == Addresses(es) && accesses == LastAccesses(es)
    && forall a :: a in merged ==>
         && merged[a].address == a && merged[a].posts == PostsOf(es, a)
         && forall k :: k in merged[a].storageKeys <==> (a, k) in Keys(es)
  }

  function EntryFor(merged: map<Word, Account>, a: Word): Account {
    if a in merged then merged[a] else Account(a, [], NoPosts)
  }

  lemma {:induction false} TracksAccount(es: seq<Entry>, merged: map<Word, Account>,
                                         accesses: map<(Word, Word), StorageAccess>, account: Account)
    requires Tracks(es, merged, accesses)
    ensures var entry := EntryFor(merged, account.address);
            Tracks(es + [AccountEntry(account)],
                   merged[account.address := entry.(storageKeys := entry.storageKeys + account.storageKeys,
                                                    posts := account.posts)],
                   accesses)
  {
    var e := AccountEntry(account);
    Snoc(es, e);
    EntriesCoherent(es);
    var entry := EntryFor(merged, account.address);
    var keys := entry.storageKeys + account.storageKeys;
    forall k ensures k in keys <==> (account.address, k) in Keys(es + [e]) {
      assert (account.address, k) in EntryKeys(e) <==> k in account.storageKeys;
      assert k in entry.storageKeys <==> (account.address, k) in Keys(es);
    }
  }

  lemma {:induction false} TracksAccess(es: seq<Entry>, merged: map<Word, Account>,
                                        accesses: map<(Word, Word), StorageAccess>, address: Word,
                                        access: StorageAccess)
    requires Tracks(es, merged, accesses)
    ensures var entry := EntryFor(merged, address);
            Tracks(es + [AccessEntry(address, access)],
                   merged[address := entry.(storageKeys := entry.storageKeys + [access.key])],
                   accesses[(address, access.key) := access])
  {
    var e := AccessEntry(address, access);
    Snoc(es, e);
    EntriesCoherent(es);
    var entry := EntryFor(merged, address);
    forall k ensures k in entry.storageKeys + [access.key] <==> (address, k) in Keys(es + [e]) {
      assert k in entry.storageKeys <==> (address, k) in Keys(es);
    }
  }

  method MergeOne(list: AccessList, ghost es: seq<Entry>, merged0: map<Word, Account>,
                  accesses0: map<(Word, Word), StorageAccess>)
    returns (merged: map<Word, Account>, accesses: map<(Word, Word), StorageAccess>)
    requires Tracks(es, merged0, accesses0)
    ensures Tracks(es + ListEntries(list), merged, accesses)
  {
    merged, accesses := merged0, accesses0;
    assert es + AccountEntries(list.accounts[..0]) == es;
    for i := 0 to |list.accounts|
      invariant Tracks(es + AccountEntries(list.accounts[..i]), merged, accesses)
    {
      var account := list.accounts[i];
      TracksAccount(es + AccountEntries(list.accounts[..i]), merged, accesses, account);
      assert list.accounts[..i + 1][..i] == list.accounts[..i];
      SeqAssoc(es, AccountEntries(list.accounts[..i]), [AccountEntry(account)]);
      var entry := EntryFor(merged, account.address);
      merged := merged[account.address := entry.(storageKeys := entry.storageKeys + account.storageKeys,
                                                 posts := account.posts)];
    }
    assert list.accounts[..|list.accounts|] == list.accounts;
    ghost var fs := es + AccountEntries(list.accounts);
    assert fs + AccessEntries(list.accesses[..0]) == fs;
    for i := 0 to |list.accesses|
      invariant Tracks(fs + AccessEntries(list.accesses[..i]), merged, accesses)
    {
      var (address, access) := list.accesses[i];
      TracksAccess(fs + AccessEntries(list.accesses[..i]), merged, accesses, address, access);
      assert list.accesses[..i + 1][..i] == list.accesses[..i];
      SeqAssoc(fs, AccessEntries(list.accesses[..i]), [AccessEntry(address, access)]);
      accesses := accesses[(address, access.key) := access];
      var entry := EntryFor(merged, address);
      merged := merged[address := entry.(storageKeys := entry.storageKeys + [access.key])];
    }
    assert list.accesses[..|list.accesses|] == list.accesses;
    SeqAssoc(es, AccountEntries(list.accounts), AccessEntries(list.accesses));
  }

  method RenderAccounts(ghost es: seq<Entry>, merged: map<Word, Account>, ghost accesses: map<(Word, Word),
                        StorageAccess>)
    returns (out: seq<Account>)
    requires Tracks(es, merged, accesses)
    ensures RendersAccounts(es, out)
  {
    var addresses := Sorted(merged.Keys);
    out := [];
    for i := 0 to |addresses|
      invariant |out| == i
      invariant forall j :: 0 <= j < i ==>
                  && out[j].address == addresses[j] && out[j].posts == PostsOf(es, addresses[j])
                  && Ascending(out[j].storageKeys)
                  && forall k :: k in out[j].storageKeys <==> (addresses[j], k) in Keys(es)
    {
      var a := addresses[i];
      assert a in merged;
      var keys := Sorted(set k | k in merged[a].storageKeys);
      out := out + [merged[a].(storageKeys := keys)];
    }
    forall a ensures a in Addresses(es) <==> Known(out, a) {
      if a in Addresses(es) {
        assert a in addresses;
        var i :| 0 <= i < |addresses| && addresses[i] == a;
        assert out[i].address == a;
      }
      if Known(out, a) {
        var i :| 0 <= i < |out| && out[i].address == a;
        assert addresses[i] in addresses;
      }
    }
  }

  method RenderAccesses(ghost es: seq<Entry>, accesses: map<(Word, Word), StorageAccess>)
    returns (out: seq<(Word, StorageAccess)>)
    requires accesses == LastAccesses(es)
    ensures RendersAccesses(es, out)
  {
    EntriesCoherent(es);
    var pairs := SortedPairs(accesses.Keys);
    out := [];
    for i := 0 to |pairs|
      invariant |out| == i
      invariant forall j :: 0 <= j < i ==>
                  PairOf(out[j]) == pairs[j] && pairs[j] in accesses && out[j].1 == accesses[pairs[j]]
    {
      var p := pairs[i];
      assert p in accesses;
      out := out + [(p.0, accesses[p])];
    }
    forall p | p in accesses ensures exists i :: 0 <= i < |out| && PairOf(out[i]) == p {
      assert p in pairs;
      var i :| 0 <= i < |pairs| && pairs[i] == p;
      assert PairOf(out[i]) == p;
    }
  }

  method MergeAccessLists(lists: seq<AccessList>) returns (out: AccessList)
    ensures IsMerge(lists, out)
  {
    var merged: map<Word, Account> := map[];
    var accesses: map<(Word, Word), StorageAccess> := map[];
    var number := 0;
    for i := 0 to |lists|
      invariant Tracks(Entries(lists[..i]), merged, accesses)
      invariant number == Number(lists[..i])
    {
      number := lists[i].blockNumber;
      merged, accesses := MergeOne(lists[i], Entries(lists[..i]), merged, accesses);
      assert lists[..i + 1][..i] == lists[..i];
    }
    assert lists[..|lists|] == lists;
    var accounts := RenderAccounts(Entries(lists), merged, accesses);
    var storage := RenderAccesses(Entries(lists), accesses);
    return AccessList(number, accounts, storage);
  }

  // ---- merging a merge ----

  lemma {:induction false} AccountEntriesTouch(accounts: seq<Account>)
    ensures forall a :: a in Addresses(AccountEntries(accounts)) <==> Known(accounts, a)
    ensures forall a :: a in LastPosts(AccountEntries(accounts)) <==> Known(accounts, a)
    ensures LastAccesses(AccountEntries(accounts)) == map[]
  {
    if accounts != [] {
      var n := |accounts| - 1;
      AccountEntriesTouch(accounts[..n]);
      Snoc(AccountEntries(accounts[..n]), AccountEntry(accounts[n]));
      forall a ensures Known(accounts, a) <==> Known(accounts[..n], a) || a == accounts[n].address {
        KnownStep(accounts, a);
      }
    }
  }

  ghost predicate NamesKey(accounts: seq<Account>, a: Word, k: Word) {
    exists i :: 0 <= i < |accounts| && accounts[i].address == a && k in accounts[i].storageKeys
  }

  lemma {:induction false} AccountEntriesKeys(accounts: seq<Account>, a: Word, k: Word)
    ensures (a, k) in Keys(AccountEntries(accounts)) <==> NamesKey(accounts, a, k)
  {
    if accounts != [] {
      var n := |accounts| - 1;
      var init, last := accounts[..n], accounts[n];
      AccountEntriesKeys(init, a, k);
      Snoc(AccountEntries(init), AccountEntry(last));
      assert (a, k) in EntryKeys(AccountEntry(last)) <==> a == last.address && k in last.storageKeys;
      if NamesKey(init, a, k) {
        var i :| 0 <= i < |init| && init[i].address == a && k in init[i].storageKeys;
        assert accounts[i] == init[i];
      }
      if NamesKey(accounts, a, k) {
        var i :| 0 <= i < |accounts| && accounts[i].address == a && k in accounts[i].storageKeys;
        assert i < n ==> accounts[i] == init[i];
      }
    }
  }

  lemma {:induction false} AccountEntriesPosts(accounts: seq<Account>, i: nat)
    requires forall i, j :: 0 <= i < j < |accounts| ==> accounts[i].address != accounts[j].address
    requires i < |accounts|
    ensures PostsOf(AccountEntries(accounts), accounts[i].address) == accounts[i].posts
  {
    var n := |accounts| - 1;
    Snoc(AccountEntries(accounts[..n]), AccountEntry(accounts[n]));
    if i < n {
      AccountEntriesPosts(accounts[..n], i);
      assert accounts[i].address != accounts[n].address;
    }
  }

  lemma {:induction false} AccessEntriesTouch(accesses: seq<(Word, StorageAccess)>)
    ensures var es := AccessEntries(accesses);
            && (forall p :: p in Keys(es) <==> p in PairsOf(accesses))
            && (forall a :: a in Addresses(es) ==> exists p :: p in PairsOf(accesses) && p.0 == a)
            && LastPosts(es) == map[]
  {
    if accesses != [] {
      var n := |accesses| - 1;
      var init, last := accesses[..n], accesses[n];
      AccessEntriesTouch(init);
      Snoc(AccessEntries(init), AccessEntry(last.0, last.1));
      assert PairsOf(accesses) == PairsOf(init) + [PairOf(last)];
      assert PairOf(last) in PairsOf(accesses);
      forall a | a in Addresses(AccessEntries(init)) ensures exists p :: p in PairsOf(accesses) && p.0 == a {
        var p :| p in PairsOf(init) && p.0 == a;
        assert p in PairsOf(accesses);
      }
    }
  }

  lemma {:induction false} AccessEntriesLast(accesses: seq<(Word, StorageAccess)>)
    requires AccessesAscending(accesses)
    ensures RendersAccesses(AccessEntries(accesses), accesses)
  {
    if accesses != [] {
      var n := |accesses| - 1;
      var init, last := accesses[..n], accesses[n];
      AccessEntriesLast(init);
      var before, after := LastAccesses(AccessEntries(init)), LastAccesses(AccessEntries(accesses));
      Snoc(AccessEntries(init), AccessEntry(last.0, last.1));
      assert after == before[PairOf(last) := last.1];
      forall i | 0 <= i < |accesses|
        ensures PairOf(accesses[i]) in after && after[PairOf(accesses[i])] == accesses[i].1
      {
        if i < n {
          assert accesses[i] == init[i];
          assert PairBefore(PairOf(accesses[i]), PairOf(accesses[n]));
        }
      }
      forall p | p in after ensures exists i :: 0 <= i < |accesses| && PairOf(accesses[i]) == p {
        if p == PairOf(last) {
          assert PairOf(accesses[n]) == p;
        } else {
          var i :| 0 <= i < |init| && PairOf(init[i]) == p;
          assert PairOf(accesses[i]) == p;
        }
      }
    }
  }

  /** Two renderings of the same accesses come from the same last accesses. */
  lemma {:induction false} LastAccessesDetermined(es: seq<Entry>, fs: seq<Entry>, accesses: seq<(Word, StorageAccess)>)
    requires RendersAccesses(es, accesses) && RendersAccesses(fs, accesses)
    ensures LastAccesses(es) == LastAccesses(fs)
  {
    PairsListed(es, accesses);
    PairsListed(fs, accesses);
    forall p | p in LastAccesses(es) ensures LastAccesses(es)[p] == LastAccesses(fs)[p] {
      var i :| 0 <= i < |accesses| && PairOf(accesses[i]) == p;
    }
  }

  /** `fs` says the same as `es`, with post values spelled out for every address. */
  ghost predicate SpellsOut(es: seq<Entry>, fs: seq<Entry>) {
    && Addresses(fs) == Addresses(es) && Keys(fs) == Keys(es) && LastAccesses(fs) == LastAccesses(es)
    && LastPosts(fs).Keys == Addresses(es)
    && forall a :: PostsOf(fs, a) == PostsOf(es, a)
  }

  lemma {:induction false} MergedAccountKeys(es: seq<Entry>, accounts: seq<Account>)
    requires RendersAccounts(es, accounts)
    ensures Addresses(AccountEntries(accounts)) == Addresses(es) && Keys(AccountEntries(accounts)) == Keys(es)
  {
    AccountEntriesTouch(accounts);
    forall p ensures p in Keys(AccountEntries(accounts)) <==> p in Keys(es) {
      MergedKeys(es, accounts, p);
    }
  }

  lemma {:induction false} MergedAccessKeys(es: seq<Entry>, accesses: seq<(Word, StorageAccess)>)
    requires RendersAccesses(es, accesses)
    ensures Addresses(AccessEntries(accesses)) <= Addresses(es) && Keys(AccessEntries(accesses)) <= Keys(es)
  {
    EntriesCoherent(es);
    AccessEntriesTouch(accesses);
    PairsListed(es, accesses);
    forall a | a in Addresses(AccessEntries(accesses)) ensures a in Addresses(es) {
      var p :| p in PairsOf(accesses) && p.0 == a;
    }
  }

  lemma {:induction false} MergedTouches(es: seq<Entry>, out: AccessList)
    requires RendersAccounts(es, out.accounts) && RendersAccesses(es, out.accesses)
    ensures Addresses(ListEntries(out)) == Addresses(es) && Keys(ListEntries(out)) == Keys(es)
  {
    MergedAccountKeys(es, out.accounts);
    MergedAccessKeys(es, out.accesses);
    Concat(AccountEntries(out.accounts), AccessEntries(out.accesses));
  }

  lemma {:induction false} MergedPosts(es: seq<Entry>, out: AccessList)
    requires RendersAccounts(es, out.accounts)
    ensures LastPosts(ListEntries(out)).Keys == Addresses(es)
    ensures forall a :: PostsOf(ListEntries(out), a) == PostsOf(es, a)
  {
    var accounts, accesses := AccountEntries(out.accounts), AccessEntries(out.accesses);
    EntriesCoherent(es);
    AccountEntriesTouch(out.accounts);
    AccessEntriesTouch(out.accesses);
    Concat(accounts, accesses);
    assert LastPosts(ListEntries(out)) == LastPosts(accounts);
    forall a ensures PostsOf(accounts, a) == PostsOf(es, a) {
      if Known(out.accounts, a) {
        var i :| 0 <= i < |out.accounts| && out.accounts[i].address == a;
        AccountEntriesPosts(out.accounts, i);
      }
    }
  }

  lemma {:induction false} MergedAccesses(es: seq<Entry>, out: AccessList)
    requires RendersAccesses(es, out.accesses)
    ensures LastAccesses(ListEntries(out)) == LastAccesses(es)
  {
    var accounts, accesses := AccountEntries(out.accounts), AccessEntries(out.accesses);
    AccountEntriesTouch(out.accounts);
    AccessEntriesLast(out.accesses);
    LastAccessesDetermined(es, accesses, out.accesses);
    Concat(accounts, accesses);
  }

  /** Reading a merged list back gives what was merged, with explicit post values. */
  lemma {:induction false} MergedMeaning(es: seq<Entry>, out: AccessList)
    requires RendersAccounts(es, out.accounts) && RendersAccesses(es, out.accesses)
    ensures SpellsOut(es, ListEntries(out))
  {
    MergedTouches(es, out);
    MergedPosts(es, out);
    MergedAccesses(es, out);
  }

  lemma {:induction false} MergedKeys(es: seq<Entry>, accounts: seq<Account>, p: (Word, Word))
    requires RendersAccounts(es, accounts)
    ensures p in Keys(AccountEntries(accounts)) <==> p in Keys(es)
  {
    EntriesCoherent(es);
    AccountEntriesKeys(accounts, p.0, p.1);
    assert p == (p.0, p.1);
    if p in Keys(es) {
      assert Known(accounts, p.0);
      var i :| 0 <= i < |accounts| && accounts[i].address == p.0;
      assert p.1 in accounts[i].storageKeys;
    }
  }

  // ---- laws ----

  /** A merge with an account in it passes validation. */
  lemma {:induction false} MergeIsValid(lists: seq<AccessList>, out: AccessList)
    requires IsMerge(lists, out)
    ensures ValidList(out) <==> out.accounts != []
    ensures AccountsAscending(out.accounts) && AccessesAscending(out.accesses)
    ensures forall i :: 0 <= i < |out.accounts| ==> Ascending(out.accounts[i].storageKeys)
  {
    var es := Entries(lists);
    EntriesCoherent(es);
    forall i | 0 <= i < |out.accesses| ensures Known(out.accounts, out.accesses[i].0) {
      assert PairOf(out.accesses[i]) in LastAccesses(es);
    }
    forall i, j | 0 <= i < j < |out.accesses|
      ensures out.accesses[i].0 != out.accesses[j].0 || out.accesses[i].1.key != out.accesses[j].1.key
    {
      assert PairBefore(PairOf(out.accesses[i]), PairOf(out.accesses[j]));
    }
  }

  lemma {:induction false} SingleEntries(out: AccessList)
    ensures Entries([out]) == ListEntries(out) && Number([out]) == out.blockNumber
  {
    assert [out][..0] == [];
    assert Entries([out]) == Entries([]) + ListEntries(out);
  }

  lemma {:induction false} SameRendering(es: seq<Entry>, fs: seq<Entry>, accounts: seq<Account>)
    requires RendersAccounts(es, accounts) && Addresses(es) == Addresses(fs) && Keys(es) == Keys(fs)
    requires forall a :: a in Addresses(es) ==> PostsOf(es, a) == PostsOf(fs, a)
    ensures RendersAccounts(fs, accounts)
  {
    forall i | 0 <= i < |accounts| ensures accounts[i].posts == PostsOf(fs, accounts[i].address) {
      assert Known(accounts, accounts[i].address);
    }
  }

  /** Merging a merge changes nothing. */
  lemma {:induction false} MergeIdempotent(lists: seq<AccessList>, out: AccessList)
    requires IsMerge(lists, out)
    ensures IsMerge([out], out)
  {
    SingleEntries(out);
    MergedMeaning(Entries(lists), out);
    SameRendering(Entries(lists), ListEntries(out), out.accounts);
  }

  /** No address that `ys` touches by storage accesses only has post values in `xs`. */
  ghost predicate NoPostsLost(xs: seq<AccessList>, ys: seq<AccessList>) {
    forall a :: a in Addresses(Entries(ys)) && a !in LastPosts(Entries(ys)) ==> PostsOf(Entries(xs), a) == NoPosts
  }

  lemma {:induction false} BatchPosts(ex: seq<Entry>, ey: seq<Entry>, fx: seq<Entry>, fy: seq<Entry>, a: Word)
    requires SpellsOut(ex, fx) && SpellsOut(ey, fy)
    ensures PostsOf(ex + ey, a) == if a in LastPosts(ey) then PostsOf(ey, a) else PostsOf(ex, a)
    ensures PostsOf(fx + fy, a) == if a in Addresses(ey) then PostsOf(ey, a) else PostsOf(ex, a)
    ensures a in LastPosts(ey) ==> a in Addresses(ey)
    ensures a !in LastPosts(ey) ==> PostsOf(ey, a) == NoPosts
  {
    Concat(ex, ey);
    Concat(fx, fy);
    EntriesCoherent(ey);
    assert PostsOf(fx, a) == PostsOf(ex, a) && PostsOf(fy, a) == PostsOf(ey, a);
  }

  lemma {:induction false} BatchTouches(ex: seq<Entry>, ey: seq<Entry>, fx: seq<Entry>, fy: seq<Entry>)
    requires SpellsOut(ex, fx) && SpellsOut(ey, fy)
    ensures Addresses(fx + fy) == Addresses(ex + ey) && Keys(fx + fy) == Keys(ex + ey)
    ensures LastAccesses(fx + fy) == LastAccesses(ex + ey) && Addresses(ey) <= Addresses(ex + ey)
  {
    Concat(ex, ey);
    Concat(fx, fy);
  }

  /** Merging in two batches equals merging at once exactly when no post values are lost. */
  lemma {:induction false} MergeInBatches(xs: seq<AccessList>, ys: seq<AccessList>, mx: AccessList, my: AccessList,
                                          two: AccessList, one: AccessList)
    requires ys != [] && IsMerge(xs, mx) && IsMerge(ys, my) && IsMerge([mx, my], two) && IsMerge(xs + ys, one)
    ensures two == one <==> NoPostsLost(xs, ys)
  {
    var ex, ey, fx, fy := Entries(xs), Entries(ys), ListEntries(mx), ListEntries(my);
    EntriesAppend(xs, ys);
    EntriesAppend([mx], [my]);
    assert [mx] + [my] == [mx, my];
    SingleEntries(mx);
    SingleEntries(my);
    MergedMeaning(ex, mx);
    MergedMeaning(ey, my);
    BatchTouches(ex, ey, fx, fy);
    AccessesUnique(fx + fy, ex + ey, two.accesses, one.accesses);
    if NoPostsLost(xs, ys) {
      forall a | a in Addresses(fx + fy) ensures PostsOf(fx + fy, a) == PostsOf(ex + ey, a) {
        BatchPosts(ex, ey, fx, fy, a);
      }
      AccountsUnique(fx + fy, ex + ey, two.accounts, one.accounts);
    } else {
      var a :| a in Addresses(ey) && a !in LastPosts(ey) && PostsOf(ex, a) != NoPosts;
      BatchPosts(ex, ey, fx, fy, a);
      assert Known(one.accounts, a);
      var i :| 0 <= i < |one.accounts| && one.accounts[i].address == a;
      assert one.accounts[i].posts == PostsOf(ex + ey, a);
    }
  }

  lemma {:induction false} ValidListsKeepPosts(ys: seq<AccessList>)
    requires forall i :: 0 <= i < |ys| ==> ValidList(ys[i])
    ensures LastPosts(Entries(ys)).Keys == Addresses(Entries(ys))
  {
    if ys != [] {
      var init, last := ys[..|ys| - 1], ys[|ys| - 1];
      ValidListsKeepPosts(init);
      var accounts, accesses := AccountEntries(last.accounts), AccessEntries(last.accesses);
      Concat(accounts, accesses);
      Concat(Entries(init), ListEntries(last));
      AccountEntriesTouch(last.accounts);
      AccessEntriesTouch(last.accesses);
      forall a | a in Addresses(accesses) ensures Known(last.accounts, a) {
        var p :| p in PairsOf(last.accesses) && p.0 == a;
        var i :| 0 <= i < |last.accesses| && PairsOf(last.accesses)[i] == p;
        assert Known(last.accounts, last.accesses[i].0);
      }
    }
  }

  /** So for individually valid lists, merging in batches is merging at once. */
  lemma {:induction false} ValidBatches(xs: seq<AccessList>, ys: seq<AccessList>, mx: AccessList, my: AccessList,
                                        two: AccessList, one: AccessList)
    requires ys != [] && IsMerge(xs, mx) && IsMerge(ys, my) && IsMerge([mx, my], two) && IsMerge(xs + ys, one)
    requires forall i :: 0 <= i < |ys| ==> ValidList(ys[i])
    ensures two == one
  {
    ValidListsKeepPosts(ys);
    MergeInBatches(xs, ys, mx, my, two, one);
  }

  lemma {:induction false} OneList(list: AccessList)
    ensures Entries([list]) == ListEntries(list)
  {
    assert [list][..0] == [];
    assert [] + ListEntries(list) == ListEntries(list);
  }

  lemma {:induction false} OneEntry(e: Entry)
    ensures AddressOf(e) in Addresses([e])
    ensures LastPosts([e]) == if e.AccountEntry? then map[e.account.address := e.account.posts] else map[]
  {
    assert [e][..0] == [];
  }

  /** An address whose only mention in the second batch is a storage access loses its post values. */
  method BatchesLosePosts() returns (xs: seq<AccessList>, ys: seq<AccessList>, two: AccessList, one: AccessList)
    ensures ys != [] && IsMerge(xs + ys, one)
    ensures exists mx, my :: IsMerge(xs, mx) && IsMerge(ys, my) && IsMerge([mx, my], two)
    ensures two != one
  {
    var account, access := Account(1, [], Posts(None, Some(1), None)), StorageAccess(0, 0, 0);
    xs, ys := [AccessList(0, [account], [])], [AccessList(0, [], [(1, access)])];
    var mx := MergeAccessLists(xs);
    var my := MergeAccessLists(ys);
    two := MergeAccessLists([mx, my]);
    one := MergeAccessLists(xs + ys);
    OneList(xs[0]);
    OneList(ys[0]);
    assert Entries(xs) == [AccountEntry(account)];
    assert Entries(ys) == [AccessEntry(1, access)];
    OneEntry(AccountEntry(account));
    OneEntry(AccessEntry(1, access));
    MergeInBatches(xs, ys, mx, my, two, one);
  }
}
