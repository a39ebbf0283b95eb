/**
 * The orderings `fillBuses` applies before packing: clusters by descending
 * member count, each cluster's combinations by ascending clump count and
 * then descending number of three-group clumps, buses by ascending
 * capacity. All three are a sort on an integer-pair key.
 */
module Sorting {
  import opened Entities

  /** Lexicographic order on sort keys. */
  predicate KeyLe(a: (int, int), b: (int, int))
  {
    a.0 < b.0 || (a.0 == b.0 && a.1 <= b.1)
  }

  ghost predicate SortedBy<T>(s: seq<T>, key: T -> (int, int))
  {
    forall i, j :: 0 <= i < j < |s| ==> KeyLe(key(s[i]), key(s[j]))
  }

  /** Puts `x` in front of the first element whose key is not below its own. */
  function Insert<T>(x: T, s: seq<T>, key: T -> (int, int)): (r: seq<T>)
    requires SortedBy(s, key)
    ensures SortedBy(r, key)
    ensures multiset(r) == multiset(s) + multiset{x}
  {
    if s == [] then [x]
    else if KeyLe(key(x), key(s[0])) then [x] + s
    else
      var rest := Insert(x, s[1..], key);
      assert s == [s[0]] + s[1..];
      forall y | y in rest ensures KeyLe(key(s[0]), key(y)) {
        assert y in multiset(rest);
      }
      [s[0]] + rest
  }

  /** Insertion sort: a sorted permutation of `s`. */
  function SortBy<T>(s: seq<T>, key: T -> (int, int)): (r: seq<T>)
    ensures SortedBy(r, key)
    ensures multiset(r) == multiset(s)
  {
    if s == [] then []
    else
      assert s == [s[0]] + s[1..];
      Insert(s[0], SortBy(s[1..], key), key)
  }

  /** Key of `clusters.Sort((a, b) => -1 * a.CompareTo(b))`: more members first. */
  function ClusterKey(c: Cluster): (int, int)
  {
    (-|c.members|, 0)
  }

  /** Key of `OrderBy(combo.Count()).ThenByDescending(number of three-group clumps)`. */
  function ComboKey(combo: Combo): (int, int)
  {
    (|combo|, -(Threes(combo) as int))
  }

  /** The number of clumps of exactly three groups. */
  function Threes(combo: Combo): nat
  {
    if combo == [] then 0 else (if |combo[0]| == 3 then 1 else 0) + Threes(combo[1..])
  }

  /** Key of `buses.Sort()`: fewer seats first. */
  function BusKey(b: Bus): (int, int)
  {
    (b.totalSeats, 0)
  }

  function SortClusters(clusters: seq<Cluster>): seq<Cluster>
  {
    SortBy(clusters, ClusterKey)
  }

  function SortCombos(combos: seq<Combo>): seq<Combo>
  {
    SortBy(combos, ComboKey)
  }

  function SortBuses(buses: seq<Bus>): seq<Bus>
  {
    SortBy(buses, BusKey)
  }

  /** The elements of `s` whose key is `k`, in their order in `s`. */
  function WithKey<T>(s: seq<T>, key: T -> (int, int), k: (int, int)): seq<T>
  {
    if s == [] then [] else (if key(s[0]) == k then [s[0]] else []) + WithKey(s[1..], key, k)
  }

  /** Insertion puts `x` behind nothing of its own key: among equal keys it comes first. */
  lemma {:induction false} InsertWithKey<T>(x: T, s: seq<T>, key: T -> (int, int), k: (int, int))
    requires SortedBy(s, key)
    ensures WithKey(Insert(x, s, key), key, k) == (if key(x) == k then [x] else []) + WithKey(s, key, k)
  {
    if s != [] && !KeyLe(key(x), key(s[0])) {
      var rest := Insert(x, s[1..], key);
      assert SortedBy(s[1..], key);
      InsertWithKey(x, s[1..], key, k);
      assert ([s[0]] + rest)[1..] == rest;
      assert key(x) == k ==> key(s[0]) != k;
    } else {
      assert ([x] + s)[1..] == s;
    }
  }

  /** The sort is stable: the elements of each key keep their relative order. */
  lemma {:induction false} SortByStable<T>(s: seq<T>, key: T -> (int, int), k: (int, int))
    ensures WithKey(SortBy(s, key), key, k) == WithKey(s, key, k)
  {
    if s != [] {
      SortByStable(s[1..], key, k);
      InsertWithKey(s[0], SortBy(s[1..], key), key, k);
    }
  }

  /** Sorted clusters are a permutation in which `Cluster.CompareTo` never increases. */
  lemma ClustersDescending(clusters: seq<Cluster>)
    ensures multiset(SortClusters(clusters)) == multiset(clusters)
    ensures forall i, j :: 0 <= i < j < |SortClusters(clusters)| ==>
              CompareClusters(SortClusters(clusters)[i], SortClusters(clusters)[j]) >= 0
  {
    var r := SortClusters(clusters);
    forall i, j | 0 <= i < j < |r| ensures CompareClusters(r[i], r[j]) >= 0 {
      assert KeyLe(ClusterKey(r[i]), ClusterKey(r[j]));
    }
  }

  /** Sorted buses are a permutation in which `Bus.CompareTo` never decreases. */
  lemma BusesAscending(buses: seq<Bus>)
    ensures multiset(SortBuses(buses)) == multiset(buses)
    ensures forall i, j :: 0 <= i < j < |SortBuses(buses)| ==>
              CompareBuses(SortBuses(buses)[i], SortBuses(buses)[j]) <= 0
  {
    var r := SortBuses(buses);
    forall i, j | 0 <= i < j < |r| ensures CompareBuses(r[i], r[j]) <= 0 {
      assert KeyLe(BusKey(r[i]), BusKey(r[j]));
    }
  }

  /**
   * Sorted combinations: fewer clumps first, among equal counts more
   * three-group clumps first, and combinations with equal keys in their
   * enumeration order, as the stable `OrderBy` leaves them.
   */
  lemma CombosOrdered(combos: seq<Combo>)
    ensures multiset(SortCombos(combos)) == multiset(combos)
    ensures forall i, j :: 0 <= i < j < |SortCombos(combos)| ==>
              var a, b := SortCombos(combos)[i], SortCombos(combos)[j];
              |a| < |b| || (|a| == |b| && Threes(a) >= Threes(b))
    ensures forall k :: WithKey(SortCombos(combos), ComboKey, k) == WithKey(combos, ComboKey, k)
  {
    forall k ensures WithKey(SortCombos(combos), ComboKey, k) == WithKey(combos, ComboKey, k) {
      SortByStable(combos, ComboKey, k);
    }
    var r := SortCombos(combos);
    forall i, j | 0 <= i < j < |r| ensures |r[i]| < |r[j]| || (|r[i]| == |r[j]| && Threes(r[i]) >= Threes(r[j])) {
      assert KeyLe(ComboKey(r[i]), ComboKey(r[j]));
    }
  }
}
