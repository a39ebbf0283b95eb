/** Sequence helpers shared by the rest of the model. */
module Seqs {

  /** The blocks of `blocks`, concatenated in order. */
  function Flatten<T>(blocks: seq<seq<T>>): seq<T>
  {
    if blocks == [] then [] else blocks[0] + Flatten(blocks[1..])
  }

  lemma {:induction false} FlattenConcat<T>(a: seq<seq<T>>, b: seq<seq<T>>)
    ensures Flatten(a + b) == Flatten(a) + Flatten(b)
  {
    if a == [] {
      assert a + b == b;
    } else {
      assert (a + b)[1..] == a[1..] + b;
      FlattenConcat(a[1..], b);
    }
  }

  lemma FlattenSingle<T>(x: seq<T>)
    ensures Flatten([x]) == x
  {
    assert [x][1..] == [];
  }

  /** Replacing one block changes the flattened multiset by exactly that block. */
  lemma FlattenUpdate<T>(s: seq<seq<T>>, i: nat, v: seq<T>)
    requires i < |s|
    ensures multiset(s[i]) <= multiset(Flatten(s))
    ensures multiset(Flatten(s[i := v])) == multiset(Flatten(s)) - multiset(s[i]) + multiset(v)
  {
    assert s == s[..i] + [s[i]] + s[i + 1..];
    assert s[i := v] == s[..i] + [v] + s[i + 1..];
    FlattenConcat(s[..i] + [s[i]], s[i + 1..]);
    FlattenConcat(s[..i], [s[i]]);
    FlattenConcat(s[..i] + [v], s[i + 1..]);
    FlattenConcat(s[..i], [v]);
    FlattenSingle(s[i]);
    FlattenSingle(v);
  }

  /** No value occurs twice in `s`. */
  ghost predicate Distinct<T>(s: seq<T>)
  {
    forall i, j :: 0 <= i < j < |s| ==> s[i] != s[j]
  }

  /** A value at two positions occurs at least twice. */
  lemma RepeatCounts<T>(s: seq<T>, i: nat, j: nat)
    requires i < j < |s|
    ensures s[i] == s[j] ==> multiset(s)[s[i]] >= 2
  {
    assert s == s[..j] + [s[j]] + s[j + 1..];
    assert s[..j][i] == s[i];
  }

  /** Having no repetitions is having every value occur exactly once. */
  lemma {:induction false} DistinctCounts<T>(s: seq<T>)
    ensures Distinct(s) <==> forall x | x in s :: multiset(s)[x] == 1
  {
    if s != [] {
      var t := s[1..];
      DistinctCounts(t);
      assert s == [s[0]] + t;
      if Distinct(s) {
        assert Distinct(t) by {
          forall i, j | 0 <= i < j < |t| ensures t[i] != t[j] {
            assert t[i] == s[i + 1] && t[j] == s[j + 1];
          }
        }
        assert s[0] !in multiset(t) by {
          forall k | 0 <= k < |t| ensures t[k] != s[0] {
            assert t[k] == s[k + 1];
          }
        }
      }
      if forall x | x in s :: multiset(s)[x] == 1 {
        forall i, j | 0 <= i < j < |s| ensures s[i] != s[j] {
          RepeatCounts(s, i, j);
          assert s[i] in s;
        }
      }
    }
  }

  lemma DistinctConcat<T>(a: seq<T>, b: seq<T>)
    requires Distinct(a) && Distinct(b)
    requires forall x :: x in a ==> x !in b
    ensures Distinct(a + b)
  {
    var c := a + b;
    forall i, j | 0 <= i < j < |c| ensures c[i] != c[j] {
      if j < |a| {
        assert c[i] == a[i] && c[j] == a[j];
      } else if i >= |a| {
        assert c[i] == b[i - |a|] && c[j] == b[j - |a|];
      } else {
        assert c[i] == a[i] && c[j] == b[j - |a|];
        assert a[i] in a;
      }
    }
  }

  /** `f` applied to every element of `s`, in order. */
  function MapSeq<A, B>(s: seq<A>, f: A -> B): (r: seq<B>)
    ensures |r| == |s| && forall i :: 0 <= i < |s| ==> r[i] == f(s[i])
  {
    seq(|s|, i requires 0 <= i < |s| => f(s[i]))
  }

  lemma MapSeqConcat<A, B>(a: seq<A>, b: seq<A>, f: A -> B)
    ensures MapSeq(a + b, f) == MapSeq(a, f) + MapSeq(b, f)
  {
  }

  /** Reordering the blocks does not change what their concatenation holds. */
  lemma {:induction false} FlattenReorder<A, T>(a: seq<A>, b: seq<A>, f: A -> seq<T>)
    requires multiset(a) == multiset(b)
    ensures multiset(Flatten(MapSeq(a, f))) == multiset(Flatten(MapSeq(b, f)))
    decreases |a|
  {
    if a == [] {
      assert |multiset(b)| == 0;
    } else {
      var x := a[0];
      assert x in multiset(b);
      var i :| 0 <= i < |b| && b[i] == x;
      var b' := b[..i] + b[i + 1..];
      assert b == b[..i] + [x] + b[i + 1..];
      assert a == [x] + a[1..];
      assert multiset(b) == multiset(b') + multiset{x} by {
        assert multiset(b) == multiset(b[..i]) + multiset{x} + multiset(b[i + 1..]);
        assert multiset(b') == multiset(b[..i]) + multiset(b[i + 1..]);
      }
      assert multiset(a) == multiset{x} + multiset(a[1..]);
      assert multiset(a[1..]) == multiset(a) - multiset{x};
      assert multiset(b') == multiset(b) - multiset{x};
      FlattenReorder(a[1..], b', f);
      MapSeqConcat([x], a[1..], f);
      MapSeqConcat(b[..i] + [x], b[i + 1..], f);
      MapSeqConcat(b[..i], [x], f);
      MapSeqConcat(b[..i], b[i + 1..], f);
      var L, R := MapSeq(b[..i], f), MapSeq(b[i + 1..], f);
      FlattenConcat(L + [f(x)], R);
      FlattenConcat(L, [f(x)]);
      FlattenConcat(L, R);
      FlattenSingle(f(x));
      assert MapSeq([x], f) == [f(x)];
      FlattenConcat([f(x)], MapSeq(a[1..], f));
    }
  }
}
