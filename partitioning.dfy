/**
 * The set-partition enumerator (`Partitioning.GetAllPartitions` and
 * `GetTuplePartitions`) and the block-size filter applied to its output
 * (`lessThanFour`, `createCombinations`). The lazy enumerations of the
 * original are modelled as sequences in the order they are yielded.
 */
module Partitioning {
  import opened Seqs

  function Pow2(n: nat): (r: nat)
    ensures r >= 1
  {
    if n == 0 then 1 else 2 * Pow2(n - 1)
  }

  /** `s` is an interleaving of `a` and `b`: each element of `s` goes to exactly one of them, keeping its order. */
  ghost predicate Interleaving<T>(s: seq<T>, a: seq<T>, b: seq<T>)
    decreases |s|
  {
    if s == [] then a == [] && b == []
    else
      || (a != [] && a[0] == s[0] && Interleaving(s[1..], a[1..], b))
      || (b != [] && b[0] == s[0] && Interleaving(s[1..], a, b[1..]))
  }

  lemma {:induction false} InterleavingMultiset<T>(s: seq<T>, a: seq<T>, b: seq<T>)
    requires Interleaving(s, a, b)
    ensures multiset(s) == multiset(a) + multiset(b)
    ensures |s| == |a| + |b|
    decreases |s|
  {
    if s != [] {
      assert s == [s[0]] + s[1..];
      if a != [] && a[0] == s[0] && Interleaving(s[1..], a[1..], b) {
        InterleavingMultiset(s[1..], a[1..], b);
        assert a == [a[0]] + a[1..];
      } else {
        InterleavingMultiset(s[1..], a, b[1..]);
        assert b == [b[0]] + b[1..];
      }
    }
  }

  /** Both halves of an interleaving of a duplicate-free sequence are duplicate-free and share nothing. */
  lemma InterleavingDistinct<T>(s: seq<T>, a: seq<T>, b: seq<T>)
    requires Interleaving(s, a, b) && Distinct(s)
    ensures Distinct(a) && Distinct(b)
    ensures forall x :: x in a ==> x !in b
  {
    InterleavingMultiset(s, a, b);
    DistinctCounts(s);
    DistinctCounts(a);
    DistinctCounts(b);
    forall x | x in a ensures multiset(a)[x] == 1 {
      assert x in multiset(s);
      assert multiset(s)[x] == multiset(a)[x] + multiset(b)[x];
    }
    forall x | x in b ensures multiset(b)[x] == 1 {
      assert x in multiset(s);
      assert multiset(s)[x] == multiset(a)[x] + multiset(b)[x];
    }
    forall x | x in a ensures x !in b {
      assert x in multiset(s);
      assert multiset(s)[x] == multiset(a)[x] + multiset(b)[x];
    }
  }

  /**
   * The distribution loop of `GetTuplePartitions`: `rest[k]` goes to the
   * second block when bit `k` of `pattern` is set, to the first otherwise.
   */
  function Distribute<T>(rest: seq<T>, pattern: nat): (r: (seq<T>, seq<T>))
    ensures |r.0| + |r.1| == |rest|
  {
    if rest == [] then ([], [])
    else
      var d := Distribute(rest[1..], pattern / 2);
      if pattern % 2 == 0 then ([rest[0]] + d.0, d.1) else (d.0, [rest[0]] + d.1)
  }

  /** The two blocks interleave `rest`: every element lands in exactly one of them, in order. */
  lemma {:induction false} DistributeInterleaves<T>(rest: seq<T>, pattern: nat)
    ensures Interleaving(rest, Distribute(rest, pattern).0, Distribute(rest, pattern).1)
  {
    if rest != [] {
      var d := Distribute(rest[1..], pattern / 2);
      DistributeInterleaves(rest[1..], pattern / 2);
      assert ([rest[0]] + d.0)[1..] == d.0;
      assert ([rest[0]] + d.1)[1..] == d.1;
    }
  }

  /** A pattern with some bit set below `|rest|` sends something to the second block. */
  lemma {:induction false} DistributeSecondNonEmpty<T>(rest: seq<T>, pattern: nat)
    requires 0 < pattern < Pow2(|rest|)
    ensures Distribute(rest, pattern).1 != []
  {
    if pattern % 2 == 0 {
      DistributeSecondNonEmpty(rest[1..], pattern / 2);
    }
  }

  /** The tail of a duplicate-free sequence is duplicate-free and lacks the head. */
  lemma DistinctTail<T>(s: seq<T>)
    requires s != [] && Distinct(s)
    ensures Distinct(s[1..]) && s[0] !in s[1..]
  {
    var t := s[1..];
    forall i, j | 0 <= i < j < |t| ensures t[i] != t[j] {
      assert t[i] == s[i + 1] && t[j] == s[j + 1];
    }
    forall k | 0 <= k < |t| ensures t[k] != s[0] {
      assert t[k] == s[k + 1];
    }
  }

  /** Halving a pattern of `n + 1` bits leaves a pattern of `n` bits. */
  lemma HalfBelow(p: nat, n: nat)
    requires p < Pow2(n + 1)
    ensures p / 2 < Pow2(n)
  {
    assert Pow2(n + 1) == 2 * Pow2(n);
  }

  /** One step of the distribution loop: the head goes to the block that bit 0 of the pattern selects. */
  lemma DistributeStep<T>(rest: seq<T>, pattern: nat)
    requires rest != []
    ensures var d := Distribute(rest[1..], pattern / 2);
            Distribute(rest, pattern) == if pattern % 2 == 0 then ([rest[0]] + d.0, d.1) else (d.0, [rest[0]] + d.1)
  {
  }

  /** When the head does not recur, it opens the first block exactly when bit 0 of the pattern is clear. */
  lemma DistributeHead<T>(rest: seq<T>, pattern: nat)
    requires rest != [] && rest[0] !in rest[1..]
    ensures var r := Distribute(rest, pattern);
            pattern % 2 == 0 <==> r.0 != [] && r.0[0] == rest[0]
  {
    var d := Distribute(rest[1..], pattern / 2);
    DistributeStep(rest, pattern);
    if pattern % 2 != 0 && d.0 != [] {
      DistributeInterleaves(rest[1..], pattern / 2);
      InterleavingMultiset(rest[1..], d.0, d.1);
      assert d.0[0] in multiset(d.0);
      assert d.0[0] in multiset(rest[1..]);
      assert d.0[0] != rest[0];
    }
  }

  /** On duplicate-free input, the first block determines the pattern. */
  lemma {:induction false} DistributeInjective<T>(rest: seq<T>, p1: nat, p2: nat)
    requires Distinct(rest)
    requires p1 < Pow2(|rest|) && p2 < Pow2(|rest|)
    requires Distribute(rest, p1).0 == Distribute(rest, p2).0
    ensures p1 == p2
  {
    if rest == [] {
      assert Pow2(0) == 1;
    } else {
      var tail := rest[1..];
      DistinctTail(rest);
      DistributeHead(rest, p1);
      DistributeHead(rest, p2);
      assert p1 % 2 == p2 % 2;
      DistributeStep(rest, p1);
      DistributeStep(rest, p2);
      var d1, d2 := Distribute(tail, p1 / 2), Distribute(tail, p2 / 2);
      if p1 % 2 == 0 {
        assert d1.0 == ([rest[0]] + d1.0)[1..] == ([rest[0]] + d2.0)[1..] == d2.0;
      }
      assert |tail| + 1 == |rest|;
      HalfBelow(p1, |tail|);
      HalfBelow(p2, |tail|);
      DistributeInjective(tail, p1 / 2, p2 / 2);
      assert p1 == 2 * (p1 / 2) + p1 % 2 && p2 == 2 * (p2 / 2) + p2 % 2;
    }
  }

  /** One two-block split built by `GetTuplePartitions`: `elements[0]` always opens the first block. */
  function Split<T>(elements: seq<T>, pattern: nat): (r: (seq<T>, seq<T>))
    requires elements != []
    ensures r.0 != [] && r.0[0] == elements[0]
    ensures |r.0| + |r.1| == |elements|
  {
    var d := Distribute(elements[1..], pattern);
    ([elements[0]] + d.0, d.1)
  }

  /** A split interleaves `elements`. */
  lemma SplitInterleaves<T>(elements: seq<T>, pattern: nat)
    requires elements != []
    ensures Interleaving(elements, Split(elements, pattern).0, Split(elements, pattern).1)
  {
    var d := Distribute(elements[1..], pattern);
    DistributeInterleaves(elements[1..], pattern);
    assert ([elements[0]] + d.0)[1..] == d.0;
  }

  /** A non-zero pattern leaves the second block non-empty. */
  lemma SplitSecondNonEmpty<T>(elements: seq<T>, pattern: nat)
    requires elements != [] && 0 < pattern < Pow2(|elements| - 1)
    ensures Split(elements, pattern).1 != []
  {
    assert |elements[1..]| == |elements| - 1;
    DistributeSecondNonEmpty(elements[1..], pattern);
  }

  /** Over elements without repetitions, two patterns giving the same first block are equal. */
  lemma SplitInjective<T>(elements: seq<T>, p1: nat, p2: nat)
    requires elements != []
    requires Distinct(elements)
    requires p1 < Pow2(|elements| - 1)
    requires p2 < Pow2(|elements| - 1)
    ensures Split(elements, p1).0 == Split(elements, p2).0 ==> p1 == p2
  {
    if Split(elements, p1).0 == Split(elements, p2).0 {
      var rest := elements[1..];
      DistinctTail(elements);
      assert |rest| == |elements| - 1;
      assert Distribute(rest, p1).0 == Split(elements, p1).0[1..];
      assert Distribute(rest, p2).0 == Split(elements, p2).0[1..];
      DistributeInjective(rest, p1, p2);
    }
  }

  /** The loop `for pattern := 1; pattern < 1 << (|elements| - 1); pattern++` of `GetTuplePartitions`. */
  function Splits<T>(elements: seq<T>): (r: seq<(seq<T>, seq<T>)>)
    requires elements != []
    ensures |r| == Pow2(|elements| - 1) - 1
  {
    seq(Pow2(|elements| - 1) - 1, k requires 0 <= k < Pow2(|elements| - 1) - 1 => Split(elements, 1 + k))
  }

  /** The first blocks of a list of splits. */
  function Firsts<T>(splits: seq<(seq<T>, seq<T>)>): (r: seq<seq<T>>)
  {
    seq(|splits|, i requires 0 <= i < |splits| => splits[i].0)
  }

  /** Distinct splits have distinct first blocks. */
  ghost predicate FirstsDiffer<T>(splits: seq<(seq<T>, seq<T>)>)
  {
    forall i, j :: 0 <= i < j < |splits| ==> splits[i].0 != splits[j].0
  }

  /** Over elements without repetitions, no two splits share a first block. */
  lemma SplitsDistinct<T>(elements: seq<T>)
    requires |elements| >= 2
    ensures Distinct(elements) ==> FirstsDiffer(Splits(elements))
  {
    var r := Splits(elements);
    if Distinct(elements) {
      forall i, j | 0 <= i < j < |r| ensures r[i].0 != r[j].0 {
        SplitInjective(elements, 1 + i, 1 + j);
      }
    }
  }

  /** `GetTuplePartitions`: every split of `elements` into two non-empty blocks, `elements[0]` in the first. */
  function TuplePartitions<T>(elements: seq<T>): (r: seq<(seq<T>, seq<T>)>)
    ensures |elements| < 2 ==> r == []
    ensures |elements| >= 2 ==> |r| == Pow2(|elements| - 1) - 1
    ensures forall p | p in r ::
              p.0 != [] && p.0[0] == elements[0] && p.1 != []
              && Interleaving(elements, p.0, p.1) && |p.0| + |p.1| == |elements|
    ensures Distinct(elements) ==> FirstsDiffer(r)
  {
    if |elements| < 2 then []
    else
      var r := Splits(elements);
      SplitsDistinct(elements);
      assert forall p | p in r :: p.0 != [] && p.0[0] == elements[0] && p.1 != []
               && Interleaving(elements, p.0, p.1) && |p.0| + |p.1| == |elements| by {
        forall p | p in r
          ensures p.0 != [] && p.0[0] == elements[0] && p.1 != [] && Interleaving(elements, p.0, p.1) && |p.0| + |p.1| == |elements|
        {
          var i :| 0 <= i < |r| && r[i] == p;
          assert p == Split(elements, 1 + i);
          SplitSecondNonEmpty(elements, 1 + i);
          SplitInterleaves(elements, 1 + i);
        }
      }
      r
  }

  /**
   * `GetAllPartitions(fixedParts, suffixElements)`: first the fixed parts
   * followed by the whole suffix as one block, then, for every two-block
   * split of the suffix, the partitions of its second block with the first
   * block appended to the fixed parts.
   */
  function Partitions<T>(fixed: seq<seq<T>>, suffix: seq<T>): seq<seq<seq<T>>>
    decreases |suffix|, 1
  {
    [fixed + [suffix]] + Refinements(fixed, TuplePartitions(suffix), |suffix|)
  }

  /** The `foreach (suffixPartition in suffixPartitions)` loop of `GetAllPartitions`. */
  function Refinements<T>(fixed: seq<seq<T>>, splits: seq<(seq<T>, seq<T>)>, bound: nat): seq<seq<seq<T>>>
    requires forall p | p in splits :: |p.1| < bound
    decreases bound, 0, |splits|
  {
    if splits == [] then []
    else Partitions(fixed + [splits[0].0], splits[0].1) + Refinements(fixed, splits[1..], bound)
  }

  /** `blocks` divides `s`: their concatenation is a permutation of `s` and, unless `s` is empty, no block is empty. */
  ghost predicate IsPartitionOf<T>(blocks: seq<seq<T>>, s: seq<T>)
  {
    multiset(Flatten(blocks)) == multiset(s)
    && (s != [] ==> forall i :: 0 <= i < |blocks| ==> blocks[i] != [])
  }

  /** `P` is `fixed` followed by a partition of `suffix`. */
  ghost predicate Extends<T>(P: seq<seq<T>>, fixed: seq<seq<T>>, suffix: seq<T>)
  {
    |P| > |fixed| && P[..|fixed|] == fixed && IsPartitionOf(P[|fixed|..], suffix)
  }

  lemma {:induction false} PartitionsShape<T>(fixed: seq<seq<T>>, suffix: seq<T>)
    decreases |suffix|, 1
    ensures forall P | P in Partitions(fixed, suffix) :: Extends(P, fixed, suffix)
  {
    var splits := TuplePartitions(suffix);
    forall p | p in splits ensures multiset(p.0) + multiset(p.1) == multiset(suffix) {
      InterleavingMultiset(suffix, p.0, p.1);
    }
    RefinementsShape(fixed, suffix, splits, |suffix|);
    var whole := fixed + [suffix];
    assert whole[|fixed|..] == [suffix];
    FlattenSingle(suffix);
    assert whole[..|fixed|] == fixed;
  }

  /** A partition of `b` behind `fixed + [a]` is a partition of `a + b` behind `fixed`. */
  lemma ExtendOne<T>(fixed: seq<seq<T>>, a: seq<T>, b: seq<T>, suffix: seq<T>, P: seq<seq<T>>)
    requires a != [] && b != [] && multiset(a) + multiset(b) == multiset(suffix)
    requires Extends(P, fixed + [a], b)
    ensures Extends(P, fixed, suffix) && |P| > |fixed| + 1 && P[|fixed|] == a
  {
    var fixed' := fixed + [a];
    assert P[..|fixed'|] == fixed';
    assert P[|fixed|] == fixed'[|fixed|] == a;
    assert P[..|fixed|] == fixed'[..|fixed|] == fixed;
    var tail := P[|fixed'|..];
    assert P[|fixed|..] == [a] + tail;
    assert ([a] + tail)[1..] == tail;
    assert Flatten(P[|fixed|..]) == a + Flatten(tail);
    forall i | 0 <= i < |P[|fixed|..]| ensures P[|fixed|..][i] != [] {
      if i > 0 {
        assert P[|fixed|..][i] == tail[i - 1];
      }
    }
  }

  /** Every partition yielded for one split starts with `fixed` and that split's first block. */
  lemma SplitShape<T>(fixed: seq<seq<T>>, suffix: seq<T>, p: (seq<T>, seq<T>))
    requires p.0 != [] && p.1 != [] && multiset(p.0) + multiset(p.1) == multiset(suffix)
    decreases |p.1|, 2
    ensures forall P | P in Partitions(fixed + [p.0], p.1) ::
              Extends(P, fixed, suffix) && |P| > |fixed| + 1 && P[|fixed|] == p.0
  {
    PartitionsShape(fixed + [p.0], p.1);
    forall P | P in Partitions(fixed + [p.0], p.1)
      ensures Extends(P, fixed, suffix) && |P| > |fixed| + 1 && P[|fixed|] == p.0
    {
      ExtendOne(fixed, p.0, p.1, suffix, P);
    }
  }

  lemma FirstsCons<T>(splits: seq<(seq<T>, seq<T>)>)
    requires splits != []
    ensures Firsts(splits) == [splits[0].0] + Firsts(splits[1..])
  {
  }

  lemma {:induction false} RefinementsShape<T>(fixed: seq<seq<T>>, suffix: seq<T>, splits: seq<(seq<T>, seq<T>)>, bound: nat)
    requires forall p | p in splits ::
               |p.1| < bound && p.0 != [] && p.1 != [] && multiset(p.0) + multiset(p.1) == multiset(suffix)
    decreases bound, 0, |splits|
    ensures forall P | P in Refinements(fixed, splits, bound) ::
              Extends(P, fixed, suffix) && |P| > |fixed| + 1 && P[|fixed|] in Firsts(splits)
  {
    if splits != [] {
      var p := splits[0];
      var here, rest := Partitions(fixed + [p.0], p.1), Refinements(fixed, splits[1..], bound);
      assert Refinements(fixed, splits, bound) == here + rest;
      SplitShape(fixed, suffix, p);
      RefinementsShape(fixed, suffix, splits[1..], bound);
      FirstsCons(splits);
    }
  }

  lemma {:induction false} PartitionsDistinct<T>(fixed: seq<seq<T>>, suffix: seq<T>)
    requires Distinct(suffix)
    decreases |suffix|, 1
    ensures Distinct(Partitions(fixed, suffix))
  {
    var splits := TuplePartitions(suffix);
    forall p | p in splits ensures multiset(p.0) + multiset(p.1) == multiset(suffix) {
      InterleavingMultiset(suffix, p.0, p.1);
    }
    RefinementsShape(fixed, suffix, splits, |suffix|);
    RefinementsDistinct(fixed, suffix, splits, |suffix|);
    var first := [fixed + [suffix]];
    DistinctConcat(first, Refinements(fixed, splits, |suffix|));
  }

  /** The partitions of the first split never reappear among those of the later splits. */
  lemma RefinementsDisjoint<T>(fixed: seq<seq<T>>, suffix: seq<T>, splits: seq<(seq<T>, seq<T>)>, bound: nat)
    requires splits != []
    requires forall p | p in splits ::
               |p.1| < bound && p.0 != [] && p.1 != [] && multiset(p.0) + multiset(p.1) == multiset(suffix)
    requires forall j :: 1 <= j < |splits| ==> splits[0].0 != splits[j].0
    ensures forall P | P in Partitions(fixed + [splits[0].0], splits[0].1) :: P !in Refinements(fixed, splits[1..], bound)
  {
    SplitShape(fixed, suffix, splits[0]);
    RefinementsShape(fixed, suffix, splits[1..], bound);
    assert splits[0].0 !in Firsts(splits[1..]);
  }

  lemma {:induction false} RefinementsDistinct<T>(fixed: seq<seq<T>>, suffix: seq<T>, splits: seq<(seq<T>, seq<T>)>, bound: nat)
    requires Distinct(suffix)
    requires forall p | p in splits ::
               |p.1| < bound && p.0 != [] && p.1 != [] && Interleaving(suffix, p.0, p.1)
    requires forall i, j :: 0 <= i < j < |splits| ==> splits[i].0 != splits[j].0
    decreases bound, 0, |splits|
    ensures Distinct(Refinements(fixed, splits, bound))
  {
    if splits != [] {
      var p := splits[0];
      InterleavingDistinct(suffix, p.0, p.1);
      PartitionsDistinct(fixed + [p.0], p.1);
      RefinementsDistinct(fixed, suffix, splits[1..], bound);
      forall q | q in splits ensures multiset(q.0) + multiset(q.1) == multiset(suffix) {
        InterleavingMultiset(suffix, q.0, q.1);
      }
      RefinementsDisjoint(fixed, suffix, splits, bound);
      var here, rest := Partitions(fixed + [p.0], p.1), Refinements(fixed, splits[1..], bound);
      assert Refinements(fixed, splits, bound) == here + rest;
      DistinctConcat(here, rest);
    }
  }

  /** `Partitioning.GetAllPartitions(elements)`. */
  function GetAllPartitions<T>(elements: seq<T>): (r: seq<seq<seq<T>>>)
    ensures |r| >= 1 && r[0] == [elements]
    ensures forall P | P in r :: IsPartitionOf(P, elements)
    ensures Distinct(elements) ==> Distinct(r)
  {
    PartitionsShape([], elements);
    assert Distinct(elements) ==> Distinct(Partitions([], elements)) by {
      if Distinct(elements) {
        PartitionsDistinct([], elements);
      }
    }
    Partitions([], elements)
  }

  /** `lessThanFour`: no block of the combination holds four or more groups. */
  function LessThanFour<T>(combo: seq<seq<T>>): (r: bool)
    ensures r <==> forall k :: 0 <= k < |combo| ==> |combo[k]| <= 3
  {
    if combo == [] then true
    else if |combo[0]| >= 4 then false
    else LessThanFour(combo[1..])
  }

  /** The `Where(lessThanFour)` filter over the enumerated partitions. */
  function KeepSmall<T>(parts: seq<seq<seq<T>>>): (r: seq<seq<seq<T>>>)
    ensures multiset(r) <= multiset(parts)
    ensures forall P | P in r :: LessThanFour(P)
    ensures forall P | P in parts && LessThanFour(P) :: P in r
  {
    if parts == [] then []
    else
      var rest := KeepSmall(parts[1..]);
      assert parts == [parts[0]] + parts[1..];
      if LessThanFour(parts[0]) then [parts[0]] + rest else rest
  }

  /** The filter keeps the enumeration order: it distributes over concatenation. */
  lemma {:induction false} KeepSmallConcat<T>(a: seq<seq<seq<T>>>, b: seq<seq<seq<T>>>)
    ensures KeepSmall(a + b) == KeepSmall(a) + KeepSmall(b)
  {
    if a == [] {
      assert a + b == b;
    } else {
      assert (a + b)[1..] == a[1..] + b;
      KeepSmallConcat(a[1..], b);
    }
  }

  lemma KeepSmallSingle<T>(P: seq<seq<T>>)
    ensures KeepSmall([P]) == if LessThanFour(P) then [P] else []
  {
    assert [P][1..] == [];
  }

  /** A multiset bounded by a duplicate-free sequence's multiset is duplicate-free. */
  lemma DistinctSub<T>(r: seq<T>, s: seq<T>)
    requires multiset(r) <= multiset(s)
    ensures Distinct(s) ==> Distinct(r)
  {
    DistinctCounts(s);
    DistinctCounts(r);
    if Distinct(s) {
      forall x | x in r ensures multiset(r)[x] == 1 {
        assert x in multiset(s);
      }
    }
  }

  lemma KeepSmallFirst<T>(parts: seq<seq<seq<T>>>)
    requires parts != [] && LessThanFour(parts[0])
    ensures KeepSmall(parts) != [] && KeepSmall(parts)[0] == parts[0]
  {
    assert parts == [parts[0]] + parts[1..];
    KeepSmallConcat([parts[0]], parts[1..]);
    KeepSmallSingle(parts[0]);
  }

  lemma KeepSmallFrom<T>(parts: seq<seq<seq<T>>>, P: seq<seq<T>>)
    requires P in KeepSmall(parts)
    ensures P in parts
  {
    assert P in multiset(KeepSmall(parts));
  }

  /**
   * `createCombinations`: the partitions of a cluster's members whose
   * blocks hold at most three groups, in enumeration order.
   */
  function Combinations<T>(members: seq<T>): (r: seq<seq<seq<T>>>)
    ensures forall P | P in r ::
              IsPartitionOf(P, members) && forall k :: 0 <= k < |P| ==> |P[k]| <= 3
    ensures |members| <= 3 ==> |r| >= 1 && r[0] == [members]
    ensures Distinct(members) ==> Distinct(r)
  {
    var all := GetAllPartitions(members);
    forall P | P in KeepSmall(all) ensures P in all {
      KeepSmallFrom(all, P);
    }
    DistinctSub(KeepSmall(all), all);
    if |members| <= 3 then
      KeepSmallFirst(all);
      KeepSmall(all)
    else
      KeepSmall(all)
  }
}
