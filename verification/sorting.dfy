/** Python's `sorted`: a stable sort under a comparison that is a total preorder
    (`key=` with or without `reverse=True` keeps equal keys in input order). */
module Sorting {

  /** `le` compares any two values and is transitive. */
  ghost predicate TotalPreorder<T(!new)>(le: (T, T) -> bool)
  {
    && (forall a, b :: le(a, b) || le(b, a))
    && (forall a, b, c :: le(a, b) && le(b, c) ==> le(a, c))
  }

  ghost predicate SortedBy<T>(s: seq<T>, le: (T, T) -> bool)
  {
    forall i, j :: 0 <= i < j < |s| ==> le(s[i], s[j])
  }

  /** `x` goes before the first element it is `le` to, hence before its equals. */
  function Insert<T>(x: T, s: seq<T>, le: (T, T) -> bool): (r: seq<T>)
    ensures |r| == |s| + 1
  {
    if s == [] then [x]
    else if le(x, s[0]) then [x] + s
    else [s[0]] + Insert(x, s[1..], le)
  }

  /** Insertion sort: the head goes into the sorted tail, before its equals. */
  function Sort<T>(s: seq<T>, le: (T, T) -> bool): (r: seq<T>)
    ensures |r| == |s|
  {
    if s == [] then [] else Insert(s[0], Sort(s[1..], le), le)
  }

  /** The elements of `s` that compare equal to `x`, in order. */
  function Peers<T>(s: seq<T>, x: T, le: (T, T) -> bool): seq<T>
  {
    if s == [] then []
    else (if le(s[0], x) && le(x, s[0]) then [s[0]] else []) + Peers(s[1..], x, le)
  }

  lemma {:induction false} InsertSpec<T(!new)>(x: T, s: seq<T>, le: (T, T) -> bool)
    requires TotalPreorder(le)
    requires SortedBy(s, le)
    ensures multiset(Insert(x, s, le)) == multiset(s) + multiset{x}
    ensures SortedBy(Insert(x, s, le), le)
  {
    InsertPerm(x, s, le);
    if s != [] {
      if !le(x, s[0]) {
        InsertSpec(x, s[1..], le);
        var r := Insert(x, s[1..], le);
        forall j | 0 <= j < |r| ensures le(s[0], r[j]) {
          assert r[j] in multiset(r);
          assert s == [s[0]] + s[1..];
          assert r[j] == x || r[j] in multiset(s[1..]);
        }
        ConsSorted(s[0], r, le);
      } else {
        ConsSorted(x, s, le);
      }
    }
  }

  lemma {:induction false} InsertPerm<T>(x: T, s: seq<T>, le: (T, T) -> bool)
    ensures multiset(Insert(x, s, le)) == multiset(s) + multiset{x}
  {
    if s != [] {
      assert s == [s[0]] + s[1..];
      if !le(x, s[0]) {
        InsertPerm(x, s[1..], le);
      }
    }
  }

  /** A sorted sequence stays sorted with a head that is `le` to all of it. */
  lemma ConsSorted<T(!new)>(a: T, r: seq<T>, le: (T, T) -> bool)
    requires TotalPreorder(le)
    requires SortedBy(r, le)
    requires r != [] ==> le(a, r[0])
    ensures SortedBy([a] + r, le)
  {
    var t := [a] + r;
    forall i, j | 0 <= i < j < |t| ensures le(t[i], t[j]) {
      if i == 0 && j > 1 {
        assert le(a, r[0]) && le(r[0], r[j - 1]);
      }
    }
  }

  /** The sort returns a sorted permutation of its input. */
  lemma {:induction false} SortSpec<T(!new)>(s: seq<T>, le: (T, T) -> bool)
    requires TotalPreorder(le)
    ensures multiset(Sort(s, le)) == multiset(s)
    ensures SortedBy(Sort(s, le), le)
  {
    if s != [] {
      SortSpec(s[1..], le);
      InsertSpec(s[0], Sort(s[1..], le), le);
      assert s == [s[0]] + s[1..];
    }
  }

  lemma {:induction false} InsertPeers<T(!new)>(y: T, s: seq<T>, x: T, le: (T, T) -> bool)
    requires TotalPreorder(le)
    requires SortedBy(s, le)
    ensures Peers(Insert(y, s, le), x, le)
      == (if le(y, x) && le(x, y) then [y] else []) + Peers(s, x, le)
  {
    var mine: seq<T> := if le(y, x) && le(x, y) then [y] else [];
    if s != [] && !le(y, s[0]) {
      InsertPeers(y, s[1..], x, le);
      var r := Insert(y, s[1..], le);
      var head: seq<T> := if le(s[0], x) && le(x, s[0]) then [s[0]] else [];
      assert Insert(y, s, le) == [s[0]] + r;
      assert ([s[0]] + r)[1..] == r && ([s[0]] + r)[0] == s[0];
      assert Peers(Insert(y, s, le), x, le) == head + Peers(r, x, le);
      assert Peers(s, x, le) == head + Peers(s[1..], x, le);
      if le(y, x) && le(x, y) {
        assert !(le(s[0], x) && le(x, s[0]));
        assert head == [];
      } else {
        assert mine == [];
      }
    } else {
      assert Insert(y, s, le) == [y] + s;
      assert ([y] + s)[1..] == s && ([y] + s)[0] == y;
      assert Peers(Insert(y, s, le), x, le) == mine + Peers(s, x, le);
    }
  }

  /** Stability: the elements equal to any `x` keep their relative input order. */
  lemma {:induction false} SortStable<T(!new)>(s: seq<T>, x: T, le: (T, T) -> bool)
    requires TotalPreorder(le)
    ensures Peers(Sort(s, le), x, le) == Peers(s, x, le)
  {
    if s != [] {
      SortStable(s[1..], x, le);
      SortSpec(s[1..], le);
      InsertPeers(s[0], Sort(s[1..], le), x, le);
    }
  }

  /** Two sorted arrangements of the same elements start with the same element. */
  lemma SortedHeadsEqual<T(!new)>(a: seq<T>, b: seq<T>, le: (T, T) -> bool)
    requires TotalPreorder(le)
    requires forall x, y :: le(x, y) && le(y, x) ==> x == y
    requires SortedBy(a, le) && SortedBy(b, le)
    requires multiset(a) == multiset(b) && a != []
    ensures b != [] && a[0] == b[0]
  {
    assert a[0] in multiset(b);
    assert b[0] in multiset(a);
    var j :| 0 <= j < |a| && a[j] == b[0];
    var k :| 0 <= k < |b| && b[k] == a[0];
    assert le(a[0], a[0]) && le(b[0], b[0]);
    assert le(a[0], a[j]);
    assert le(b[0], b[k]);
  }

  lemma TailMultiset<T>(a: seq<T>, b: seq<T>)
    requires a != [] && b != [] && a[0] == b[0] && multiset(a) == multiset(b)
    ensures multiset(a[1..]) == multiset(b[1..])
  {
    assert a == [a[0]] + a[1..];
    assert b == [b[0]] + b[1..];
    assert multiset(a[1..]) == multiset(a) - multiset{a[0]};
    assert multiset(b[1..]) == multiset(b) - multiset{b[0]};
  }

  /** Under an order that is also antisymmetric, there is one sorted arrangement
      of a multiset: two sorted sequences with the same elements are equal. */
  lemma {:induction false} SortedUnique<T(!new)>(a: seq<T>, b: seq<T>, le: (T, T) -> bool)
    requires TotalPreorder(le)
    requires forall x, y :: le(x, y) && le(y, x) ==> x == y
    requires SortedBy(a, le) && SortedBy(b, le)
    requires multiset(a) == multiset(b)
    ensures a == b
  {
    if a == [] {
      assert |b| == |multiset(b)| == 0;
    } else {
      SortedHeadsEqual(a, b, le);
      TailMultiset(a, b);
      SortedUnique(a[1..], b[1..], le);
      assert a == [a[0]] + a[1..];
      assert b == [b[0]] + b[1..];
    }
  }

  /** The sort's result depends only on the multiset of its input. */
  lemma SortDeterminedByElements<T(!new)>(a: seq<T>, b: seq<T>, le: (T, T) -> bool)
    requires TotalPreorder(le)
    requires forall x, y :: le(x, y) && le(y, x) ==> x == y
    requires multiset(a) == multiset(b)
    ensures Sort(a, le) == Sort(b, le)
  {
    SortSpec(a, le);
    SortSpec(b, le);
    SortedUnique(Sort(a, le), Sort(b, le), le);
  }
}
