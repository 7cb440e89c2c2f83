/** Orders, sorted sequences and the library sorts that the modelled code calls. */
module Orders {

  ghost predicate TotalPreorder<T(!new)>(le: (T, T) -> bool) {
    && (forall x, y :: le(x, y) || le(y, x))
    && (forall x, y, z :: le(x, y) && le(y, z) ==> le(x, z))
  }

  /** A total order: the preorder tells different elements apart. */
  ghost predicate TotalOrder<T(!new)>(le: (T, T) -> bool) {
    TotalPreorder(le) && forall x, y :: le(x, y) && le(y, x) ==> x == y
  }

  predicate NumberLe(a: nat, b: nat) {
    a <= b
  }

  predicate SortedBy<T>(le: (T, T) -> bool, s: seq<T>) {
    forall i, j :: 0 <= i < j < |s| ==> le(s[i], s[j])
  }

  predicate Distinct<T(==)>(s: seq<T>) {
    forall i, j :: 0 <= i < j < |s| ==> s[i] != s[j]
  }

  predicate IsLeast<T(==)>(le: (T, T) -> bool, s: set<T>, x: T) {
    x in s && forall y | y in s :: le(x, y)
  }

  lemma {:induction false} HasLeast<T(!new)>(le: (T, T) -> bool, s: set<T>)
    requires TotalPreorder(le) && s != {}
    ensures exists x :: IsLeast(le, s, x)
    decreases |s|
  {
    var x :| x in s;
    var rest := s - {x};
    if rest == {} {
      LeastOfOne(le, s, x);
    } else {
      HasLeast(le, rest);
      var y :| IsLeast(le, rest, y);
      LeastOfBoth(le, s, x, y);
    }
  }

  lemma {:induction false} LeastOfOne<T(!new)>(le: (T, T) -> bool, s: set<T>, x: T)
    requires TotalPreorder(le) && x in s && s - {x} == {}
    ensures IsLeast(le, s, x)
  {
    forall y | y in s ensures le(x, y) {
      assert y !in s - {x};
    }
  }

  lemma {:induction false} LeastOfBoth<T(!new)>(le: (T, T) -> bool, s: set<T>, x: T, y: T)
    requires TotalPreorder(le) && x in s && IsLeast(le, s - {x}, y)
    ensures IsLeast(le, s, if le(x, y) then x else y)
  {
    var least := if le(x, y) then x else y;
    forall z | z in s ensures le(least, z) {
      if z != x {
        assert z in s - {x};
        assert le(y, z);
      }
    }
  }

  /** The elements of a set in ascending order; elements the order does not tell apart may come out
      either way. */
  method SortedElements<T(!new, ==)>(le: (T, T) -> bool, s: set<T>) returns (out: seq<T>)
    requires TotalPreorder(le)
    ensures SortedBy(le, out) && Distinct(out) && |out| == |s|
    ensures forall x :: x in out <==> x in s
  {
    out := [];
    var rest := s;
    while rest != {}
      invariant SortedBy(le, out) && Distinct(out) && |out| + |rest| == |s|
      invariant forall x :: x in s <==> x in out || x in rest
      invariant forall i :: 0 <= i < |out| ==> out[i] !in rest
      invariant forall i, x :: 0 <= i < |out| && x in rest ==> le(out[i], x)
      decreases |rest|
    {
      HasLeast(le, rest);
      var x :| x in rest && IsLeast(le, rest, x);
      ghost var before := out;
      out := out + [x];
      rest := rest - {x};
      forall i, y | 0 <= i < |out| && y in rest ensures le(out[i], y) {
        assert i < |before| ==> le(before[i], y);
      }
    }
  }

  // ---- uniqueness ----

  lemma {:induction false} TailElements<T>(s: seq<T>, x: T)
    requires s != [] && Distinct(s)
    ensures x in s[1..] <==> x in s && x != s[0]
  {
    if x in s && x != s[0] {
      var i :| 0 <= i < |s| && s[i] == x;
      assert s[1..][i - 1] == x;
    }
    if x in s[1..] {
      var i :| 0 <= i < |s[1..]| && s[1..][i] == x;
      assert s[i + 1] == x;
    }
  }

  /** Strictly ascending under an order that may leave elements incomparable. */
  ghost predicate StrictOrder<T(!new)>(lt: (T, T) -> bool) {
    && (forall x :: !lt(x, x))
    && (forall x, y, z :: lt(x, y) && lt(y, z) ==> lt(x, z))
  }

  lemma {:induction false} HeadFirst<T(!new)>(lt: (T, T) -> bool, s: seq<T>, x: T)
    requires SortedBy(lt, s) && x in s
    ensures x == s[0] || lt(s[0], x)
  {
    var i :| 0 <= i < |s| && s[i] == x;
  }

  lemma {:induction false} StrictIsDistinct<T(!new)>(lt: (T, T) -> bool, s: seq<T>)
    requires StrictOrder(lt) && SortedBy(lt, s)
    ensures Distinct(s)
  {
    forall i, j | 0 <= i < j < |s| ensures s[i] != s[j] {
      assert lt(s[i], s[j]);
    }
  }

  /** A strictly ascending sequence is determined by its elements. */
  lemma {:induction false} AscendingUnique<T(!new)>(lt: (T, T) -> bool, a: seq<T>, b: seq<T>)
    requires StrictOrder(lt) && SortedBy(lt, a) && SortedBy(lt, b)
    requires forall x :: x in a <==> x in b
    ensures a == b
  {
    assert a != [] ==> a[0] in b;
    assert b != [] ==> b[0] in a;
    if a != [] {
      HeadFirst(lt, b, a[0]);
      HeadFirst(lt, a, b[0]);
      assert a[0] == b[0];
      StrictIsDistinct(lt, a);
      StrictIsDistinct(lt, b);
      forall x ensures x in a[1..] <==> x in b[1..] {
        TailElements(a, x);
        TailElements(b, x);
      }
      AscendingUnique(lt, a[1..], b[1..]);
      assert a == [a[0]] + a[1..] && b == [b[0]] + b[1..];
    }
  }

  // ---- sorting with repetitions ----

  function Insert<T>(le: (T, T) -> bool, x: T, s: seq<T>): seq<T> {
    if s == [] then [x]
    else if le(x, s[0]) then [x] + s
    else [s[0]] + Insert(le, x, s[1..])
  }

  /** A stable sort. */
  function Sort<T>(le: (T, T) -> bool, s: seq<T>): seq<T> {
    if s == [] then [] else Insert(le, s[0], Sort(le, s[1..]))
  }

  lemma {:induction false} InsertKeeps<T>(le: (T, T) -> bool, x: T, s: seq<T>)
    ensures multiset(Insert(le, x, s)) == multiset{x} + multiset(s) && |Insert(le, x, s)| == |s| + 1
  {
    if s != [] {
      assert s == [s[0]] + s[1..];
      if !le(x, s[0]) {
        InsertKeeps(le, x, s[1..]);
      }
    }
  }

  lemma {:induction false} InsertSorts<T(!new)>(le: (T, T) -> bool, x: T, s: seq<T>)
    requires TotalPreorder(le) && SortedBy(le, s)
    ensures SortedBy(le, Insert(le, x, s))
  {
    if s != [] {
      if le(x, s[0]) {
        forall i | 0 <= i < |s| ensures le(x, s[i]) {
          assert i > 0 ==> le(s[0], s[i]);
        }
      } else {
        InsertSorts(le, x, s[1..]);
        InsertKeeps(le, x, s[1..]);
        var rest := Insert(le, x, s[1..]);
        forall i | 0 <= i < |rest| ensures le(s[0], rest[i]) {
          assert rest[i] in multiset(rest);
          assert rest[i] == x || rest[i] in s[1..];
        }
      }
    }
  }

  lemma {:induction false} SortSorts<T(!new)>(le: (T, T) -> bool, s: seq<T>)
    requires TotalPreorder(le)
    ensures SortedBy(le, Sort(le, s)) && multiset(Sort(le, s)) == multiset(s) && |Sort(le, s)| == |s|
  {
    if s != [] {
      SortSorts(le, s[1..]);
      InsertSorts(le, s[0], Sort(le, s[1..]));
      InsertKeeps(le, s[0], Sort(le, s[1..]));
      assert s == [s[0]] + s[1..];
    }
  }

  /** The elements that the order does not tell from `x`, as they come. */
  function Alike<T>(le: (T, T) -> bool, s: seq<T>, x: T): seq<T> {
    if s == [] then []
    else (if le(x, s[0]) && le(s[0], x) then [s[0]] else []) + Alike(le, s[1..], x)
  }

  lemma {:induction false} AlikePrepend<T>(le: (T, T) -> bool, y: T, s: seq<T>, x: T)
    ensures Alike(le, [y] + s, x) == (if le(x, y) && le(y, x) then [y] else []) + Alike(le, s, x)
  {
    assert ([y] + s)[1..] == s;
  }

  lemma {:induction false} OneIsEmpty<T>(p: seq<T>, q: seq<T>, r: seq<T>)
    requires p == [] || q == []
    ensures p + (q + r) == q + (p + r)
  {
  }

  lemma {:induction false} InsertKeepsAlike<T(!new)>(le: (T, T) -> bool, y: T, s: seq<T>, x: T)
    requires TotalPreorder(le)
    ensures Alike(le, Insert(le, y, s), x) == (if le(x, y) && le(y, x) then [y] else []) + Alike(le, s, x)
  {
    AlikePrepend(le, y, s, x);
    if s == [] {
      assert [y] + s == [y];
    } else if !le(y, s[0]) {
      InsertKeepsAlike(le, y, s[1..], x);
      AlikePrepend(le, s[0], Insert(le, y, s[1..]), x);
      NotBothAlike(le, x, y, s[0]);
      OneIsEmpty(if le(x, y) && le(y, x) then [y] else [], if le(x, s[0]) && le(s[0], x) then [s[0]] else [],
                 Alike(le, s[1..], x));
    }
  }

  lemma {:induction false} NotBothAlike<T(!new)>(le: (T, T) -> bool, x: T, y: T, z: T)
    requires TotalPreorder(le) && !le(y, z)
    ensures !(le(x, y) && le(y, x) && le(x, z) && le(z, x))
  {
  }

  /** Sorting is stable: it keeps what the order does not tell apart as it came. */
  lemma {:induction false} SortStable<T(!new)>(le: (T, T) -> bool, s: seq<T>, x: T)
    requires TotalPreorder(le)
    ensures Alike(le, Sort(le, s), x) == Alike(le, s, x)
  {
    if s != [] {
      SortStable(le, s[1..], x);
      InsertKeepsAlike(le, s[0], Sort(le, s[1..]), x);
    }
  }

  lemma {:induction false} SameMembers<T>(a: seq<T>, b: seq<T>, x: T)
    requires multiset(a) == multiset(b)
    ensures x in a <==> x in b
  {
    assert x in a <==> x in multiset(a);
    assert x in b <==> x in multiset(b);
  }

  lemma {:induction false} TailMultiset<T>(s: seq<T>)
    requires s != []
    ensures multiset(s[1..]) == multiset(s) - multiset{s[0]}
  {
    assert s == [s[0]] + s[1..];
  }

  lemma {:induction false} FirstIsLeast<T(!new)>(le: (T, T) -> bool, a: seq<T>, x: T)
    requires TotalPreorder(le) && SortedBy(le, a) && x in a
    ensures le(a[0], x)
  {
    var i :| 0 <= i < |a| && a[i] == x;
  }

  lemma {:induction false} SameHead<T(!new)>(le: (T, T) -> bool, a: seq<T>, b: seq<T>)
    requires TotalOrder(le) && SortedBy(le, a) && SortedBy(le, b) && multiset(a) == multiset(b)
    requires a != [] && b != []
    ensures a[0] == b[0]
  {
    SameMembers(a, b, a[0]);
    SameMembers(a, b, b[0]);
    FirstIsLeast(le, a, b[0]);
    FirstIsLeast(le, b, a[0]);
  }

  lemma {:induction false} SameTails<T>(a: seq<T>, b: seq<T>)
    requires a != [] && b != [] && a[0] == b[0] && multiset(a) == multiset(b)
    ensures multiset(a[1..]) == multiset(b[1..])
    ensures a[1..] == b[1..] ==> a == b
  {
    TailMultiset(a);
    TailMultiset(b);
    assert a == [a[0]] + a[1..] && b == [b[0]] + b[1..];
  }

  lemma {:induction false} SortedTail<T>(le: (T, T) -> bool, s: seq<T>)
    requires SortedBy(le, s) && s != []
    ensures SortedBy(le, s[1..])
  {
  }

  /** Under a total order a multiset has one sorted arrangement. */
  lemma {:induction false} SortedUnique<T(!new)>(le: (T, T) -> bool, a: seq<T>, b: seq<T>)
    requires TotalOrder(le) && SortedBy(le, a) && SortedBy(le, b) && multiset(a) == multiset(b)
    ensures a == b
  {
    assert |a| == |multiset(a)| == |b|;
    if a != [] {
      SameHead(le, a, b);
      SameTails(a, b);
      SortedTail(le, a);
      SortedTail(le, b);
      SortedUnique(le, a[1..], b[1..]);
    }
  }

  // ---- sizes ----

  ghost function Elements<T>(s: seq<T>): set<T> {
    set x | x in s
  }

  lemma {:induction false} DistinctSize<T>(s: seq<T>)
    requires Distinct(s)
    ensures |Elements(s)| == |s|
  {
    if s != [] {
      DistinctSize(s[1..]);
      assert s[0] !in s[1..];
      assert Elements(s) == {s[0]} + Elements(s[1..]);
    }
  }
}
