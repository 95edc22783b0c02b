/** A Python `dict` used as a counter (`d[k] = d.get(k, 0) + 1`, or a `Counter`):
    the keys in insertion order, and the count of each. */
module Tallies {

  datatype Tally<K(==)> = Tally(keys: seq<K>, count: map<K, nat>)
  {
    /** Keys are listed once each, and exactly the keys of the map are listed. */
    ghost predicate Valid()
    {
      && (forall i, j :: 0 <= i < j < |keys| ==> keys[i] != keys[j])
      && count.Keys == Elements(keys)
    }

    /** `d[k] = d.get(k, 0) + 1`: a new key goes to the end of the order. */
    function Add(k: K): Tally<K>
    {
      if k in count then Tally(keys, count[k := count[k] + 1])
      else Tally(keys + [k], count[k := 1])
    }
  }

  /** The distinct elements of `xs`. */
  function Elements<K(==)>(xs: seq<K>): set<K>
  {
    set x | x in xs
  }

  function Empty<K(==)>(): Tally<K>
  {
    Tally([], map[])
  }

  /** The counter a loop builds by adding `xs` one after the other: its keys are
      the elements of `xs`, each counted as often as it occurs. */
  function TallyOf<K(==)>(xs: seq<K>): (t: Tally<K>)
    ensures t.Valid()
    ensures t.count.Keys == Elements(xs)
    ensures forall k :: k in t.count ==> t.count[k] == multiset(xs)[k]
  {
    if xs == [] then Empty()
    else
      var init, last := xs[..|xs| - 1], xs[|xs| - 1];
      var t := TallyOf(init);
      AddCounts(t, init, last);
      InitLast(xs);
      t.Add(last)
  }

  lemma InitLast<K>(xs: seq<K>)
    requires xs != []
    ensures xs[..|xs| - 1] + [xs[|xs| - 1]] == xs
  {
  }

  /** Adding `k` to a counter of `xs` gives the counter of `xs + [k]`. */
  lemma AddCounts<K>(t: Tally<K>, xs: seq<K>, k: K)
    requires t.Valid() && t.count.Keys == Elements(xs)
    requires forall j :: j in t.count ==> t.count[j] == multiset(xs)[j]
    ensures t.Add(k).Valid()
    ensures t.Add(k).count.Keys == Elements(xs + [k])
    ensures forall j :: j in t.Add(k).count ==> t.Add(k).count[j] == multiset(xs + [k])[j]
  {
    AddValid(t, k);
    assert Elements(xs + [k]) == Elements(xs) + {k};
    assert multiset(xs + [k]) == multiset(xs) + multiset{k};
  }

  /** Sum of the counts of `keys`. */
  function SumOver<K(==)>(keys: seq<K>, count: map<K, nat>): nat
    requires forall k :: k in keys ==> k in count
  {
    if keys == [] then 0 else SumOver(keys[..|keys| - 1], count) + count[keys[|keys| - 1]]
  }

  /** `sum(d.values())` */
  function Total<K(==)>(t: Tally<K>): nat
    requires t.Valid()
  {
    SumOver(t.keys, t.count)
  }

  /** The `(key, count)` pairs of `keys`, in order. */
  function Pairs<K(==)>(keys: seq<K>, count: map<K, nat>): (items: seq<(K, nat)>)
    requires forall k :: k in keys ==> k in count
    ensures |items| == |keys|
    ensures forall i :: 0 <= i < |items| ==> items[i] == (keys[i], count[keys[i]])
  {
    seq(|keys|, i requires 0 <= i < |keys| => (keys[i], count[keys[i]]))
  }

  /** `list(d.items())`, in insertion order. */
  function Items<K(==)>(t: Tally<K>): seq<(K, nat)>
    requires t.Valid()
  {
    Pairs(t.keys, t.count)
  }

  /** Sum of the second components. */
  function SumCounts<K(==)>(items: seq<(K, nat)>): nat
  {
    if items == [] then 0 else SumCounts(items[..|items| - 1]) + items[|items| - 1].1
  }

  /** Index of the first occurrence of `k` in `xs`. */
  function FirstIndex<K(==)>(xs: seq<K>, k: K): (i: nat)
    requires k in xs
    ensures i < |xs| && xs[i] == k && k !in xs[..i]
  {
    if xs[0] == k then 0 else 1 + FirstIndex(xs[1..], k)
  }

  lemma {:induction false} FirstIndexAppend<K>(xs: seq<K>, y: K, k: K)
    requires k in xs
    ensures FirstIndex(xs + [y], k) == FirstIndex(xs, k)
  {
    if xs[0] != k {
      assert (xs + [y])[1..] == xs[1..] + [y];
      FirstIndexAppend(xs[1..], y, k);
    }
  }

  lemma {:induction false} SumOverFrame<K>(keys: seq<K>, m1: map<K, nat>, m2: map<K, nat>)
    requires forall k :: k in keys ==> k in m1 && k in m2 && m1[k] == m2[k]
    ensures SumOver(keys, m1) == SumOver(keys, m2)
  {
    if keys != [] {
      SumOverFrame(keys[..|keys| - 1], m1, m2);
    }
  }

  /** Incrementing the count of one listed key adds one to the sum. */
  lemma {:induction false} SumOverBump<K>(keys: seq<K>, m: map<K, nat>, k: K)
    requires forall x :: x in keys ==> x in m
    requires forall i, j :: 0 <= i < j < |keys| ==> keys[i] != keys[j]
    requires k in keys
    ensures SumOver(keys, m[k := m[k] + 1]) == SumOver(keys, m) + 1
  {
    var init, last := keys[..|keys| - 1], keys[|keys| - 1];
    if last == k {
      assert forall x :: x in init ==> x != k;
      SumOverFrame(init, m, m[k := m[k] + 1]);
    } else {
      assert k in init by { assert keys == init + [last]; }
      SumOverBump(init, m, k);
    }
  }

  lemma AddValid<K>(t: Tally<K>, k: K)
    requires t.Valid()
    ensures t.Add(k).Valid()
    ensures t.Add(k).keys == if k in t.count then t.keys else t.keys + [k]
  {
    if k !in t.count {
      var u := t.Add(k);
      assert Elements(u.keys) == Elements(t.keys) + {k};
    }
  }

  /** Adding one element keeps the counter valid and adds one to its total. */
  lemma AddSpec<K>(t: Tally<K>, k: K)
    requires t.Valid()
    ensures t.Add(k).Valid()
    ensures Total(t.Add(k)) == Total(t) + 1
    ensures t.Add(k).keys == if k in t.count then t.keys else t.keys + [k]
  {
    AddValid(t, k);
    if k in t.count {
      SumOverBump(t.keys, t.count, k);
    } else {
      var u := t.Add(k);
      assert u.keys[..|u.keys| - 1] == t.keys;
      SumOverFrame(t.keys, t.count, u.count);
    }
  }

  /** The counting loop yields a valid counter whose keys are the elements of `xs`
      and whose counts sum to `|xs|`. */
  lemma {:induction false} TallyOfKeys<K>(xs: seq<K>)
    ensures TallyOf(xs).Valid()
    ensures forall k :: k in TallyOf(xs).count <==> k in xs
    ensures Total(TallyOf(xs)) == |xs|
  {
    if xs != [] {
      var init, last := xs[..|xs| - 1], xs[|xs| - 1];
      assert xs == init + [last];
      TallyOfKeys(init);
      AddSpec(TallyOf(init), last);
    }
  }

  /** `keys` are listed in order of their first occurrence in `xs`. */
  ghost predicate FirstSeenOrder<K>(keys: seq<K>, xs: seq<K>)
  {
    forall i, j :: 0 <= i < j < |keys| ==>
      keys[i] in xs && keys[j] in xs && FirstIndex(xs, keys[i]) < FirstIndex(xs, keys[j])
  }

  /** The keys are listed in order of their first occurrence in `xs`. */
  lemma {:induction false} TallyOfOrder<K>(xs: seq<K>)
    ensures FirstSeenOrder(TallyOf(xs).keys, xs)
  {
    if xs != [] {
      var init, last := xs[..|xs| - 1], xs[|xs| - 1];
      assert xs == init + [last];
      TallyOfOrder(init);
      OrderStep(init, last);
    } else {
      assert TallyOf(xs).keys == [];
    }
  }

  /** Counting one more element keeps the keys in first-occurrence order. */
  lemma OrderStep<K>(init: seq<K>, last: K)
    requires FirstSeenOrder(TallyOf(init).keys, init)
    ensures FirstSeenOrder(TallyOf(init + [last]).keys, init + [last])
  {
    var xs := init + [last];
    assert xs[..|xs| - 1] == init;
    TallyOfKeys(init);
    AddKeepsOrder(TallyOf(init), init, last);
  }

  lemma AddKeepsOrder<K>(t: Tally<K>, init: seq<K>, last: K)
    requires t.Valid()
    requires forall k :: k in t.count <==> k in init
    requires FirstSeenOrder(t.keys, init)
    ensures FirstSeenOrder(t.Add(last).keys, init + [last])
  {
    var xs := init + [last];
    AddValid(t, last);
    var u := t.Add(last);
    forall i, j | 0 <= i < j < |u.keys|
      ensures u.keys[i] in xs && u.keys[j] in xs && FirstIndex(xs, u.keys[i]) < FirstIndex(xs, u.keys[j])
    {
      assert t.keys[i] in t.count;
      FirstIndexAppend(init, last, t.keys[i]);
      if j < |t.keys| {
        assert t.keys[j] in t.count;
        FirstIndexAppend(init, last, t.keys[j]);
      } else {
        assert u.keys[j] == last && last !in init;
        assert FirstIndex(xs, last) == |init| by {
          assert xs[..|init|] == init;
        }
      }
    }
  }

  /** What the counting loop computes: each element of `xs` is a key, counted as
      often as it occurs, the keys listed in order of first occurrence, and the
      counts summing to `|xs|`. */
  lemma TallyOfSpec<K>(xs: seq<K>)
    ensures TallyOf(xs).Valid()
    ensures forall k :: k in TallyOf(xs).count <==> k in xs
    ensures forall k :: k in TallyOf(xs).count ==> TallyOf(xs).count[k] == multiset(xs)[k]
    ensures Total(TallyOf(xs)) == |xs|
    ensures FirstSeenOrder(TallyOf(xs).keys, xs)
  {
    TallyOfKeys(xs);
    TallyOfOrder(xs);
  }

  lemma {:induction false} SumPairs<K>(keys: seq<K>, count: map<K, nat>)
    requires forall k :: k in keys ==> k in count
    ensures SumCounts(Pairs(keys, count)) == SumOver(keys, count)
  {
    if keys != [] {
      var init := keys[..|keys| - 1];
      SumPairs(init, count);
      assert Pairs(keys, count)[..|keys| - 1] == Pairs(init, count);
    }
  }

  /** The items of a counter sum to its total. */
  lemma SumItems<K>(t: Tally<K>)
    requires t.Valid()
    ensures SumCounts(Items(t)) == Total(t)
  {
    SumPairs(t.keys, t.count);
  }

  /** A sequence without repeats has as many distinct elements as entries. */
  lemma {:induction false} DistinctCard<K>(keys: seq<K>)
    requires forall i, j :: 0 <= i < j < |keys| ==> keys[i] != keys[j]
    ensures |Elements(keys)| == |keys|
  {
    if keys != [] {
      var init, last := keys[..|keys| - 1], keys[|keys| - 1];
      DistinctCard(init);
      assert Elements(keys) == Elements(init) + {last};
      assert last !in Elements(init);
    }
  }

  /** The counter of `xs` has one key per distinct element of `xs`. */
  lemma KeyCount<K>(xs: seq<K>)
    ensures |TallyOf(xs).keys| == |Elements(xs)|
  {
    TallyOfKeys(xs);
    DistinctCard(TallyOf(xs).keys);
  }
}
