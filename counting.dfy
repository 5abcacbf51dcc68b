/** What the frequency code borrows from Python: `dict(Counter(xs))` as a
    finite map, and `sum(d.values())`. */
module Counting {

  /** `dict(Counter(s))`: each distinct element of s mapped to its number of occurrences
      (counted from the last element back, which gives the same map as counting forwards). */
  function Tally<T(==)>(s: seq<T>): (r: map<T, int>)
    ensures r == map[] <==> s == []
    decreases |s|
  {
    if s == [] then map[]
    else
      var init, x := s[..|s| - 1], s[|s| - 1];
      var m := Tally(init);
      m[x := (if x in m then m[x] else 0) + 1]
  }

  /** Counting one more element increments its count, or adds it with count 1. */
  lemma TallySnoc<T>(s: seq<T>, x: T)
    ensures Tally(s + [x]) == Tally(s)[x := (if x in Tally(s) then Tally(s)[x] else 0) + 1]
  {
    assert (s + [x])[..|s|] == s;
  }

  /** The keys are exactly the elements of s, and each maps to its multiplicity in s. */
  lemma {:induction false} TallyCounts<T>(s: seq<T>)
    ensures forall x :: x in Tally(s) <==> x in s
    ensures forall x | x in Tally(s) :: Tally(s)[x] == multiset(s)[x] && Tally(s)[x] >= 1
    decreases |s|
  {
    if s != [] {
      var init, x := s[..|s| - 1], s[|s| - 1];
      assert s == init + [x];
      TallyCounts(init);
    }
  }

  /** The sum of the values of a map, in no particular order. */
  ghost function Total<K>(m: map<K, int>): int
    decreases |m|
  {
    if m == map[] then 0
    else
      var k :| k in m;
      m[k] + Total(m - {k})
  }

  /** The sum does not depend on which key is taken out first. */
  lemma {:induction false} TotalRemove<K>(m: map<K, int>, k: K)
    requires k in m
    ensures Total(m) == m[k] + Total(m - {k})
    decreases |m|
  {
    var j :| j in m && Total(m) == m[j] + Total(m - {j});
    if j != k {
      TotalRemove(m - {j}, k);
      TotalRemove(m - {k}, j);
      assert m - {j} - {k} == m - {k} - {j};
    }
  }

  /** The counts of a sequence add up to its length. */
  lemma {:induction false} TallyTotal<T>(s: seq<T>)
    ensures Total(Tally(s)) == |s|
    decreases |s|
  {
    if s != [] {
      var init, x := s[..|s| - 1], s[|s| - 1];
      var m := Tally(init);
      TallyTotal(init);
      TotalRemove(Tally(s), x);
      if x in m {
        TotalRemove(m, x);
        assert Tally(s) - {x} == m - {x};
      } else {
        assert Tally(s) - {x} == m;
      }
    }
  }

  /** `sum(m.values())`, iterating the keys in whatever order the dict holds them. */
  method SumValues<K>(m: map<K, int>) returns (total: int)
    ensures total == Total(m)
  {
    total := 0;
    var rest := m;
    while rest != map[]
      invariant total + Total(rest) == Total(m)
      decreases |rest|
    {
      var k :| k in rest;
      TotalRemove(rest, k);
      total := total + rest[k];
      rest := rest - {k};
    }
  }

  /** The (key, value) entries of a map, as `dict.items()` lists them. */
  ghost function MapItems<K>(m: map<K, int>): multiset<(K, int)>
  {
    multiset(set k | k in m :: (k, m[k]))
  }

  /** Taking one key out of the map takes its entry out of the items. */
  lemma MapItemsRemove<K>(m: map<K, int>, k: K)
    requires k in m
    ensures MapItems(m) == MapItems(m - {k}) + multiset{(k, m[k])}
  {
    var rest := m - {k};
    var a := set j | j in rest :: (j, rest[j]);
    var all := set j | j in m :: (j, m[j]);
    forall p | p in all ensures p in a + {(k, m[k])} {
      var j :| j in m && p == (j, m[j]);
      if j != k { assert j in rest && p == (j, rest[j]); }
    }
    forall p | p in a + {(k, m[k])} ensures p in all {
      if p in a {
        var j :| j in rest && p == (j, rest[j]);
        assert j in m && p == (j, m[j]);
      }
    }
    assert all == a + {(k, m[k])};
    assert a !! {(k, m[k])};
  }

  /** Each entry appears once, with its own value, and there is one entry per key. */
  lemma {:induction false} MapItemsEntries<K>(m: map<K, int>)
    ensures forall p | p in MapItems(m) :: p.0 in m && p.1 == m[p.0] && MapItems(m)[p] == 1
    ensures forall k | k in m :: (k, m[k]) in MapItems(m)
    ensures |MapItems(m)| == |m|
    decreases |m|
  {
    if m != map[] {
      var k :| k in m;
      MapItemsRemove(m, k);
      MapItemsEntries(m - {k});
      assert |m - {k}| == |m| - 1;
    }
  }

  /** The sum of the second components of a multiset of pairs. */
  ghost function ValueSum<K>(ms: multiset<(K, int)>): int
    decreases |ms|
  {
    if ms == multiset{} then 0
    else
      var p :| p in ms;
      p.1 + ValueSum(ms - multiset{p})
  }

  /** The sum does not depend on which pair is taken out first. */
  lemma {:induction false} ValueSumRemove<K>(ms: multiset<(K, int)>, p: (K, int))
    requires p in ms
    ensures ValueSum(ms) == p.1 + ValueSum(ms - multiset{p})
    decreases |ms|
  {
    var q :| q in ms && ValueSum(ms) == q.1 + ValueSum(ms - multiset{q});
    if q != p {
      ValueSumRemove(ms - multiset{q}, p);
      ValueSumRemove(ms - multiset{p}, q);
      assert ms - multiset{q} - multiset{p} == ms - multiset{p} - multiset{q};
    }
  }

  /** Sums add up over a union. */
  lemma {:induction false} ValueSumUnion<K>(a: multiset<(K, int)>, b: multiset<(K, int)>)
    ensures ValueSum(a + b) == ValueSum(a) + ValueSum(b)
    decreases |a|
  {
    if a == multiset{} {
      assert a + b == b;
    } else {
      var p :| p in a;
      ValueSumRemove(a, p);
      ValueSumRemove(a + b, p);
      assert (a + b) - multiset{p} == (a - multiset{p}) + b;
      ValueSumUnion(a - multiset{p}, b);
    }
  }

  /** The values of the entries add up to the sum of the map's values. */
  lemma {:induction false} MapItemsTotal<K>(m: map<K, int>)
    ensures ValueSum(MapItems(m)) == Total(m)
    decreases |m|
  {
    if m != map[] {
      var k :| k in m;
      MapItemsRemove(m, k);
      TotalRemove(m, k);
      ValueSumUnion(MapItems(m - {k}), multiset{(k, m[k])});
      ValueSumRemove(multiset{(k, m[k])}, (k, m[k]));
      assert multiset{(k, m[k])} - multiset{(k, m[k])} == multiset{};
      MapItemsTotal(m - {k});
    } else {
      assert MapItems(m) == multiset{};
    }
  }
}
