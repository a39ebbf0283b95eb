/**
 * The cluster bookkeeping around the k-means oracle: which groups a
 * labelling sends to each cluster (`kMeansToClusters`), and how
 * `splitCluster` divides a cluster's members by a two-way labelling.
 */
module Clustering {
  import opened Seqs
  import opened Entities

  /**
   * The groups among the first `n` whose label is `k`, in order: what
   * `kMeansToClusters` appends to cluster `k`.
   */
  function WithLabel(gs: seq<Group>, labels: seq<int>, k: int, n: nat): (r: seq<Group>)
    requires n <= |gs| && n <= |labels|
    ensures |r| <= n
  {
    if n == 0 then []
    else WithLabel(gs, labels, k, n - 1) + (if labels[n - 1] == k then [gs[n - 1]] else [])
  }

  /** A group is appended to cluster `k` exactly when one of its positions carries label `k`. */
  lemma {:induction false} WithLabelMembers(gs: seq<Group>, labels: seq<int>, k: int, n: nat)
    requires n <= |gs| && n <= |labels|
    ensures forall g :: g in WithLabel(gs, labels, k, n) <==> exists i :: 0 <= i < n && gs[i] == g && labels[i] == k
  {
    if n > 0 {
      WithLabelMembers(gs, labels, k, n - 1);
    }
  }

  /**
   * The clusters after the first `n` passes of the `kMeansToClusters` loop:
   * group `i` appended to cluster `labels[i]`.
   */
  function Labelled(clusters: seq<Cluster>, gs: seq<Group>, labels: seq<int>, n: nat): (r: seq<Cluster>)
    requires n <= |gs| && n <= |labels|
    requires forall i :: 0 <= i < n ==> 0 <= labels[i] < |clusters|
    ensures |r| == |clusters|
  {
    if n == 0 then clusters
    else
      var prev := Labelled(clusters, gs, labels, n - 1);
      var k := labels[n - 1];
      prev[k := prev[k].(members := prev[k].members + [gs[n - 1]])]
  }

  /** Each cluster receives, in order, exactly the groups labelled with its index; nothing else changes. */
  lemma {:induction false} LabelledMembers(clusters: seq<Cluster>, gs: seq<Group>, labels: seq<int>, n: nat)
    requires n <= |gs| && n <= |labels|
    requires forall i :: 0 <= i < n ==> 0 <= labels[i] < |clusters|
    ensures forall k :: 0 <= k < |clusters| ==>
              Labelled(clusters, gs, labels, n)[k]
              == clusters[k].(members := clusters[k].members + WithLabel(gs, labels, k, n))
  {
    if n > 0 {
      LabelledMembers(clusters, gs, labels, n - 1);
      var k := labels[n - 1];
      assert clusters[k].members + WithLabel(gs, labels, k, n - 1) + [gs[n - 1]]
          == clusters[k].members + WithLabel(gs, labels, k, n);
    }
  }

  /** Appending a group to one cluster adds exactly that group to what the clusters hold. */
  lemma JoinCluster(clusters: seq<Cluster>, k: nat, g: Group)
    requires k < |clusters|
    ensures AllMembers(clusters[k := clusters[k].(members := clusters[k].members + [g])])
            == AllMembers(clusters) + multiset{g}
  {
    var grown := clusters[k].(members := clusters[k].members + [g]);
    AllMembersUpdate(clusters, k, grown);
    FlattenUpdate(MemberLists(clusters), k, []);
    assert multiset(grown.members) == multiset(clusters[k].members) + multiset{g};
  }

  /** The labelling adds each of the first `n` groups to the clusters exactly once. */
  lemma {:induction false} LabelledAllMembers(clusters: seq<Cluster>, gs: seq<Group>, labels: seq<int>, n: nat)
    requires n <= |gs| && n <= |labels|
    requires forall i :: 0 <= i < n ==> 0 <= labels[i] < |clusters|
    ensures AllMembers(Labelled(clusters, gs, labels, n)) == AllMembers(clusters) + multiset(gs[..n])
  {
    if n > 0 {
      LabelledAllMembers(clusters, gs, labels, n - 1);
      JoinCluster(Labelled(clusters, gs, labels, n - 1), labels[n - 1], gs[n - 1]);
      assert gs[..n] == gs[..n - 1] + [gs[n - 1]];
    }
  }

  /**
   * The members from position `i` on that a two-way labelling keeps in the
   * split cluster: those not labelled 1, in their original order.
   */
  function Kept(s: seq<Group>, labels: seq<int>, i: nat): seq<Group>
    requires |labels| == |s| && i <= |s|
    decreases |s| - i
  {
    if i == |s| then [] else (if labels[i] == 1 then [] else [s[i]]) + Kept(s, labels, i + 1)
  }

  /**
   * The members from position `i` on labelled 1, which form the new
   * cluster. The source walks the members from the back, so they come out
   * in reverse order.
   */
  function Moved(s: seq<Group>, labels: seq<int>, i: nat): seq<Group>
    requires |labels| == |s| && i <= |s|
    decreases |s| - i
  {
    if i == |s| then [] else Moved(s, labels, i + 1) + (if labels[i] == 1 then [s[i]] else [])
  }

  /** Exactly the members not labelled 1 are kept. */
  lemma {:induction false} KeptMembers(s: seq<Group>, labels: seq<int>, i: nat)
    requires |labels| == |s| && i <= |s|
    ensures forall g :: g in Kept(s, labels, i) <==> exists j :: i <= j < |s| && s[j] == g && labels[j] != 1
    decreases |s| - i
  {
    if i < |s| {
      KeptMembers(s, labels, i + 1);
    }
  }

  /** Exactly the members labelled 1 are moved. */
  lemma {:induction false} MovedMembers(s: seq<Group>, labels: seq<int>, i: nat)
    requires |labels| == |s| && i <= |s|
    ensures forall g :: g in Moved(s, labels, i) <==> exists j :: i <= j < |s| && s[j] == g && labels[j] == 1
    decreases |s| - i
  {
    if i < |s| {
      MovedMembers(s, labels, i + 1);
    }
  }

  /** Splitting neither loses nor duplicates a member. */
  lemma {:induction false} SplitConserves(s: seq<Group>, labels: seq<int>, i: nat)
    requires |labels| == |s| && i <= |s|
    ensures multiset(Kept(s, labels, i)) + multiset(Moved(s, labels, i)) == multiset(s[i..])
    decreases |s| - i
  {
    if i < |s| {
      SplitConserves(s, labels, i + 1);
      var K, M := Kept(s, labels, i + 1), Moved(s, labels, i + 1);
      assert multiset(s[i..]) == multiset{s[i]} + multiset(s[i + 1..]) by {
        assert s[i..] == [s[i]] + s[i + 1..];
      }
      assert multiset(Kept(s, labels, i)) + multiset(Moved(s, labels, i))
          == multiset{s[i]} + (multiset(K) + multiset(M)) by {
        if labels[i] == 1 {
          assert Kept(s, labels, i) == K;
          assert Moved(s, labels, i) == M + [s[i]];
        } else {
          assert Kept(s, labels, i) == [s[i]] + K;
          assert Moved(s, labels, i) == M;
        }
      }
    }
  }

  /** The clusters after `splitCluster`: the members labelled 1 leave for a new cluster at the end. */
  function SplitOff(clusters: seq<Cluster>, index: nat, labels: seq<int>): (r: seq<Cluster>)
    requires index < |clusters| && |labels| == |clusters[index].members|
    ensures |r| == |clusters| + 1
  {
    var members := clusters[index].members;
    clusters[index := clusters[index].(members := Kept(members, labels, 0))] + [Cluster(Moved(members, labels, 0), [])]
  }

  /** A split changes where groups are held, not which groups nor how often. */
  lemma SplitOffKeepsMembers(clusters: seq<Cluster>, index: nat, labels: seq<int>)
    requires index < |clusters| && |labels| == |clusters[index].members|
    ensures AllMembers(SplitOff(clusters, index, labels)) == AllMembers(clusters)
  {
    var members := clusters[index].members;
    var shrunk := clusters[index := clusters[index].(members := Kept(members, labels, 0))];
    AllMembersUpdate(clusters, index, shrunk[index]);
    FlattenUpdate(MemberLists(clusters), index, []);
    AllMembersAppend(shrunk, Cluster(Moved(members, labels, 0), []));
    SplitConserves(members, labels, 0);
    assert members[0..] == members;
  }
}
