/**
 * The static state of the program and the routines that update it in
 * place: the labelled groups become clusters, a cluster can be split, the
 * clusters get their combinations, `fillBuses` packs them onto buses,
 * `moveOnes` repairs single-group buses, and the final count decides
 * `validSolution`. Each routine is proved to compute the corresponding
 * specification function.
 */
module Assignment {
  import opened Seqs
  import opened Entities
  import opened Partitioning
  import opened Sorting
  import opened Trips
  import opened Seats
  import opened Packing
  import opened Repair
  import opened Clustering

  /** Buses that have carried nothing yet, as `new Bus(seats)` builds them. */
  predicate Unused(buses: seq<Bus>)
  {
    forall b :: 0 <= b < |buses| ==> buses[b].groups == [] && !buses[b].filled
  }

  /** Unused buses place no group and are trivially feasible. */
  lemma {:induction false} UnusedPlacesNothing(dist: Dist, origin: Location, buses: seq<Bus>)
    requires Unused(buses)
    ensures Placed(buses) == multiset{}
    ensures AllFeasible(dist, origin, buses)
  {
    if buses != [] {
      UnusedPlacesNothing(dist, origin, buses[1..]);
      assert GroupLists(buses)[1..] == GroupLists(buses[1..]);
    }
  }

  /** Clusters without members hold no group. */
  lemma {:induction false} EmptyClustersHoldNothing(clusters: seq<Cluster>)
    requires forall k :: 0 <= k < |clusters| ==> clusters[k].members == []
    ensures AllMembers(clusters) == multiset{}
  {
    if clusters != [] {
      EmptyClustersHoldNothing(clusters[1..]);
      AllMembersFront(clusters);
    }
  }

  /**
   * When no group is placed more often than it exists, the count of placed
   * groups reaches the number of groups exactly when every group is placed.
   */
  lemma CountDecides(placed: multiset<Group>, all: seq<Group>)
    requires placed <= multiset(all)
    ensures |placed| >= |all| <==> placed == multiset(all)
  {
    var rest := multiset(all) - placed;
    assert multiset(all) == placed + rest;
    assert |multiset(all)| == |all|;
  }

  /** Every group's `cluster` tag is the index of the cluster that holds it. */
  ghost predicate Tagged(clusters: seq<Cluster>)
    reads set k, g | 0 <= k < |clusters| && g in clusters[k].members :: g
  {
    forall k, g :: 0 <= k < |clusters| && g in clusters[k].members ==> g.cluster == k
  }

  /** Clusters filled from empty by a labelling hold each group under the index its tag names. */
  lemma LabelsTag(clusters: seq<Cluster>, groups: seq<Group>, labels: seq<int>)
    requires |labels| <= |groups|
    requires forall i :: 0 <= i < |labels| ==> groups[i].cluster == labels[i]
    requires forall k :: 0 <= k < |clusters| ==> clusters[k].members == WithLabel(groups, labels, k, |labels|)
    ensures Tagged(clusters)
  {
    forall k | 0 <= k < |clusters| ensures forall g | g in clusters[k].members :: g.cluster == k {
      WithLabelMembers(groups, labels, k, |labels|);
    }
  }

  class Engine {
    /** The groups; the first one's destination is where every trip starts. */
    const groups: seq<Group>
    const dist: Dist
    const origin: Location
    var clusters: seq<Cluster>
    var buses: seq<Bus>
    var potentialBuses: Table
    var validSolution: bool

    /**
     * The state `Main` sets up: the groups and travel times, `clusterCount`
     * empty clusters, and one empty bus per capacity in `seats`.
     */
    constructor (groups: seq<Group>, dist: Dist, clusterCount: nat, seats: seq<int>)
      requires |groups| > 0
      ensures this.groups == groups && this.dist == dist && origin == groups[0].destination
      ensures |clusters| == clusterCount && forall k :: 0 <= k < clusterCount ==> clusters[k] == Cluster([], [])
      ensures |buses| == |seats| && forall b :: 0 <= b < |seats| ==> buses[b] == Bus(seats[b], [], false)
      ensures potentialBuses == [] && validSolution
    {
      this.groups := groups;
      this.dist := dist;
      origin := groups[0].destination;
      clusters := seq(clusterCount, _ => Cluster([], []));
      buses := seq(|seats|, b requires 0 <= b < |seats| => Bus(seats[b], [], false));
      potentialBuses := [];
      validSolution := true;
    }

    /**
     * `kMeansToClusters`: group `i` is tagged with label `i` and appended to
     * that cluster. Every group gets into exactly one cluster, so starting
     * from empty clusters the clusters hold each group once and the tags
     * agree with them.
     */
    method KMeansToClusters(labels: seq<int>)
      requires |labels| <= |groups|
      requires forall i :: 0 <= i < |labels| ==> 0 <= labels[i] < |clusters|
      modifies this, groups
      ensures clusters == Labelled(old(clusters), groups, labels, |labels|)
      ensures Distinct(groups) ==> forall i :: 0 <= i < |labels| ==> groups[i].cluster == labels[i]
      ensures Distinct(groups) && (forall k :: 0 <= k < |old(clusters)| ==> old(clusters)[k].members == []) ==> Tagged(clusters)
      ensures buses == old(buses) && potentialBuses == old(potentialBuses) && validSolution == old(validSolution)
    {
      ghost var cs0 := clusters;
      ghost var distinct := Distinct(groups);
      for i := 0 to |labels|
        invariant clusters == Labelled(cs0, groups, labels, i)
        invariant distinct ==> forall j :: 0 <= j < i ==> groups[j].cluster == labels[j]
        invariant buses == old(buses) && potentialBuses == old(potentialBuses) && validSolution == old(validSolution)
      {
        groups[i].cluster := labels[i];
        var k := labels[i];
        clusters := clusters[k := clusters[k].(members := clusters[k].members + [groups[i]])];
      }
      if distinct && forall k :: 0 <= k < |cs0| ==> cs0[k].members == [] {
        LabelledMembers(cs0, groups, labels, |labels|);
        forall k | 0 <= k < |clusters| ensures clusters[k].members == WithLabel(groups, labels, k, |labels|) {
          assert cs0[k].members + WithLabel(groups, labels, k, |labels|) == WithLabel(groups, labels, k, |labels|);
        }
        LabelsTag(clusters, groups, labels);
      }
    }

    /**
     * `splitCluster`, with the two-way labelling of the cluster's members
     * given. The members labelled 1 leave, last first, for a new cluster
     * appended at the end, and are tagged with its index; only their tags
     * change.
     */
    method SplitCluster(index: nat, labels: seq<int>)
      requires index < |clusters| && |labels| == |clusters[index].members|
      modifies this, set g | g in Moved(clusters[index].members, labels, 0)
      ensures clusters == SplitOff(old(clusters), index, labels)
      ensures forall g | g in Moved(old(clusters)[index].members, labels, 0) :: g.cluster == |old(clusters)|
      ensures buses == old(buses) && potentialBuses == old(potentialBuses) && validSolution == old(validSolution)
    {
      ghost var cs0 := clusters;
      ghost var members0 := clusters[index].members;
      var forNewCluster: seq<Group> := [];
      var i := |labels|;
      assert members0[..i] + Kept(members0, labels, i) == members0;
      assert cs0[index := cs0[index].(members := members0)] == cs0;
      while i > 0
        modifies this
        invariant 0 <= i <= |labels|
        invariant clusters == cs0[index := cs0[index].(members := members0[..i] + Kept(members0, labels, i))]
        invariant forNewCluster == Moved(members0, labels, i)
        invariant buses == old(buses) && potentialBuses == old(potentialBuses) && validSolution == old(validSolution)
      {
        i := i - 1;
        ghost var members := clusters[index].members;
        assert members == members0[..i + 1] + Kept(members0, labels, i + 1);
        assert members[i] == members0[i];
        assert members0[..i + 1] == members0[..i] + [members0[i]];
        if labels[i] == 1 {
          assert members[..i] + members[i + 1..] == members0[..i] + Kept(members0, labels, i) by {
            assert members[..i] == members0[..i];
            assert members[i + 1..] == Kept(members0, labels, i + 1);
          }
          forNewCluster := forNewCluster + [clusters[index].members[i]];
          clusters := clusters[index := clusters[index].(members := clusters[index].members[..i] + clusters[index].members[i + 1..])];
          assert clusters == cs0[index := cs0[index].(members := members0[..i] + Kept(members0, labels, i))];
        } else {
          assert members0[..i + 1] + Kept(members0, labels, i + 1) == members0[..i] + Kept(members0, labels, i);
        }
      }
      clusters := clusters + [Cluster(forNewCluster, [])];
      var last := |clusters| - 1;
      for j := 0 to |clusters[last].members|
        modifies set g | g in forNewCluster
        invariant forall m :: 0 <= m < j ==> forNewCluster[m].cluster == last
      {
        clusters[last].members[j].cluster := last;
      }
    }

    /** The `totalTime` switch and time check of `fillBuses` over the clumps of one combination. */
    method FitsTimeLimit(combo: Combo) returns (fitsTimeLimit: bool)
      ensures fitsTimeLimit <==> WithinTimeLimit(dist, origin, combo)
    {
      fitsTimeLimit := true;
      for clump := 0 to |combo|
        invariant forall k :: 0 <= k < clump ==> TripTime(dist, origin, combo[k]) <= TimeLimit
      {
        var timeTaken := NoRoute;
        var size := |combo[clump]|;
        if size == 1 {
          timeTaken := TotalTime1(dist, origin, combo[clump][0]);
        } else if size == 2 {
          timeTaken := TotalTime2(dist, origin, combo[clump][0], combo[clump][1]);
        } else if size == 3 {
          timeTaken := TotalTime3(dist, origin, combo[clump][0], combo[clump][1], combo[clump][2]);
        }
        assert timeTaken == TripTime(dist, origin, combo[clump]);
        if timeTaken > TimeLimit {
          fitsTimeLimit := false;
          break;
        }
      }
    }

    /** `clumpSum`: the students of a clump, added group by group. */
    static method ClumpSum(clump: Clump) returns (clumpSum: int)
      ensures clumpSum == Headcount(clump)
    {
      clumpSum := 0;
      for g := 0 to |clump|
        invariant clumpSum == Headcount(clump[..g])
      {
        assert clump[..g + 1][..g] == clump[..g];
        clumpSum := clumpSum + clump[g].numStudents;
      }
      assert clump[..|clump|] == clump;
    }

    /** `potentialBuses.Clear()` and the loop that gives every group of the combination the entry -1. */
    method ResetTable(combo: Combo)
      modifies this
      ensures potentialBuses == EmptyTable(combo)
      ensures clusters == old(clusters) && buses == old(buses) && validSolution == old(validSolution)
    {
      potentialBuses := [];
      for clumpp := 0 to |combo|
        invariant potentialBuses == EmptyTable(combo)[..clumpp]
        invariant clusters == old(clusters) && buses == old(buses) && validSolution == old(validSolution)
      {
        potentialBuses := potentialBuses + [[]];
        assert Row(0, -1) == [];
        for g := 0 to |combo[clumpp]|
          invariant potentialBuses == EmptyTable(combo)[..clumpp] + [Row(g, -1)]
          invariant clusters == old(clusters) && buses == old(buses) && validSolution == old(validSolution)
        {
          assert Row(g + 1, -1) == Row(g, -1) + [-1];
          potentialBuses := potentialBuses[clumpp := potentialBuses[clumpp] + [-1]];
        }
      }
    }

    /**
     * The fit-on-bus check for clump `k`: the first unused, unreserved bus
     * with room for the clump's students gets the clump's whole row of the
     * table; when there is none the row keeps its -1 entries.
     */
    method ReserveClump(combo: Combo, k: nat)
      requires Shaped(potentialBuses, combo) && k < |combo|
      modifies this
      ensures var b := FirstFit(buses, old(potentialBuses), combo, Headcount(combo[k]), 0);
              potentialBuses == if b == -1 then old(potentialBuses) else old(potentialBuses)[k := Row(|combo[k]|, b)]
      ensures clusters == old(clusters) && buses == old(buses) && validSolution == old(validSolution)
    {
      ghost var t0 := potentialBuses;
      var clumpSum := ClumpSum(combo[k]);
      for bus := 0 to |buses|
        invariant potentialBuses == t0
        invariant FirstFit(buses, t0, combo, clumpSum, bus) == FirstFit(buses, t0, combo, clumpSum, 0)
        invariant clusters == old(clusters) && buses == old(buses) && validSolution == old(validSolution)
      {
        if !buses[bus].filled && !BusTaken(potentialBuses, bus) {
          if clumpSum <= SeatsRemaining(buses[bus], potentialBuses, bus, combo) {
            for g := 0 to |combo[k]|
              invariant |potentialBuses| == |t0| && |potentialBuses[k]| == |t0[k]|
              invariant potentialBuses == t0[k := potentialBuses[k]]
              invariant forall j :: 0 <= j < g ==> potentialBuses[k][j] == bus
              invariant clusters == old(clusters) && buses == old(buses) && validSolution == old(validSolution)
            {
              potentialBuses := potentialBuses[k := potentialBuses[k][g := bus]];
            }
            assert potentialBuses[k] == Row(|combo[k]|, bus);
            break;
          }
        }
      }
    }

    /**
     * The commit loop: every group of the combination is appended to the
     * bus its entry names, and that bus is marked used.
     */
    method CommitCombo(combo: Combo)
      requires Shaped(potentialBuses, combo) && Assigned(potentialBuses, |buses|)
      modifies this
      ensures buses == Commit(old(buses), combo, old(potentialBuses))
      ensures clusters == old(clusters) && potentialBuses == old(potentialBuses) && validSolution == old(validSolution)
    {
      ghost var b0 := buses;
      var t := potentialBuses;
      for clump := 0 to |t|
        invariant |buses| == |b0|
        invariant CommitFrom(buses, t, combo, clump) == Commit(b0, combo, t)
        invariant clusters == old(clusters) && potentialBuses == t && validSolution == old(validSolution)
      {
        assert forall x | x in t[clump] :: 0 <= x < |buses|;
        for g := 0 to |t[clump]|
          invariant |buses| == |b0|
          invariant CommitFrom(CommitRow(buses, t[clump], combo[clump], g), t, combo, clump + 1) == Commit(b0, combo, t)
          invariant clusters == old(clusters) && potentialBuses == t && validSolution == old(validSolution)
        {
          var b := t[clump][g];
          assert b in t[clump];
          ghost var next := AddGroup(buses, b, combo[clump][g]);
          buses := buses[b := buses[b].(groups := buses[b].groups + [combo[clump][g]])];
          buses := buses[b := buses[b].(filled := true)];
          assert buses == next;
        }
      }
    }

    /**
     * The table reset and the clump loop of `fillBuses` for one
     * combination: each clump in turn reserves the first bus that fits it.
     */
    method ReserveCombo(combo: Combo)
      modifies this
      ensures potentialBuses == Reserve(buses, combo)
      ensures clusters == old(clusters) && buses == old(buses) && validSolution == old(validSolution)
    {
      ResetTable(combo);
      for clump := 0 to |combo|
        invariant Shaped(potentialBuses, combo)
        invariant ReserveFrom(buses, combo, potentialBuses, clump) == Reserve(buses, combo)
        invariant clusters == old(clusters) && buses == old(buses) && validSolution == old(validSolution)
      {
        ReserveClump(combo, clump);
      }
    }

    /**
     * The combination loop of `fillBuses` for cluster `cl`: the combinations
     * are tried in order until one passes the time check and finds a bus
     * for every clump, and that one is committed.
     */
    method FillCluster(cl: nat)
      requires cl < |clusters|
      modifies this
      ensures clusters == old(clusters) && validSolution == old(validSolution)
      ensures Fleet(buses, potentialBuses) == PackCluster(dist, origin, old(Fleet(buses, potentialBuses)), clusters[cl].combos, 0)
    {
      ghost var f0 := Fleet(buses, potentialBuses);
      var combos := clusters[cl].combos;
      for cb := 0 to |combos|
        invariant PackCluster(dist, origin, Fleet(buses, potentialBuses), combos, cb) == PackCluster(dist, origin, f0, combos, 0)
        invariant clusters == old(clusters) && validSolution == old(validSolution)
      {
        var combo := combos[cb];
        var fitsTimeLimit := FitsTimeLimit(combo);
        if !fitsTimeLimit {
          continue;
        }
        ReserveCombo(combo);
        if !BusTaken(potentialBuses, -1) {
          ReserveSound(buses, combo);
          CommitEffect(buses, combo, potentialBuses);
          CommitCombo(combo);
          break;
        } else {
          potentialBuses := [];
        }
      }
    }

    /** The loop of `fillBuses` that sorts the combinations of every cluster. */
    static method RankEach(sorted: seq<Cluster>) returns (ranked: seq<Cluster>)
      ensures ranked == RankAll(sorted)
    {
      ranked := sorted;
      for c := 0 to |ranked|
        invariant |ranked| == |sorted|
        invariant forall i :: 0 <= i < c ==> ranked[i] == RankCombos(sorted[i])
        invariant forall i :: c <= i < |ranked| ==> ranked[i] == sorted[i]
      {
        ranked := ranked[c := ranked[c].(combos := SortCombos(ranked[c].combos))];
      }
    }

    /** The cluster loop of `fillBuses`: every cluster packed in turn. */
    method PackClusters()
      modifies this
      ensures Fleet(buses, potentialBuses) == PackAll(dist, origin, old(Fleet(buses, potentialBuses)), clusters, 0)
      ensures clusters == old(clusters) && validSolution == old(validSolution)
    {
      ghost var f0 := Fleet(buses, potentialBuses);
      for cl := 0 to |clusters|
        invariant PackAll(dist, origin, Fleet(buses, potentialBuses), clusters, cl) == PackAll(dist, origin, f0, clusters, 0)
        invariant clusters == old(clusters) && validSolution == old(validSolution)
      {
        FillCluster(cl);
      }
    }

    /**
     * `fillBuses`: the clusters sorted largest first, the combinations of
     * each ranked, the buses sorted smallest first, then every cluster
     * packed in turn.
     */
    method FillBuses()
      modifies this
      ensures (clusters, Fleet(buses, potentialBuses)) == FillBusesSpec(dist, origin, old(clusters), old(buses), old(potentialBuses))
      ensures validSolution == old(validSolution)
    {
      clusters := RankEach(SortClusters(clusters));
      buses := SortBuses(buses);
      PackClusters();
    }

    /**
     * The candidate loop of `moveOnes` for the single group of bus `i` of
     * `bs`: the qualifying bus with the shortest trip, the first one on
     * ties, or -1. The seat test passes the sentinel -1, so the table is not
     * consulted.
     */
    method FindTarget(bs: seq<Bus>, i: nat, ghost tags: Tags) returns (newBus: int)
      requires OnBoard(bs, tags) && i < |bs| && |bs[i].groups| == 1
      requires forall g | g in tags :: tags[g] == g.cluster
      ensures newBus == BestTarget(dist, origin, bs, i, tags)
    {
      var shortestTime: nat := NoRoute;
      newBus := -1;
      var mover := bs[i].groups[0];
      ghost var q, t := Candidates(dist, origin, bs, i, tags), Times(dist, origin, bs, i);
      for b := 0 to |bs|
        invariant FirstMinFrom(q, t, b, newBus, shortestTime) == BestTarget(dist, origin, bs, i, tags)
      {
        var groups := bs[b].groups;
        assert mover in bs[i].groups && (groups != [] ==> groups[0] in groups);
        if b != i && (|groups| == 1 || |groups| == 2) && mover.cluster != groups[0].cluster {
          if mover.numStudents < SeatsRemaining(bs[b], potentialBuses, -1, []) {
            var journeyTime := JourneyTime(groups, mover);
            assert q[b] == (journeyTime <= TimeLimit) && t[b] == journeyTime by {
              assert q[b] == Qualifies(dist, origin, bs, i, b, tags) && t[b] == MoveTime(dist, origin, bs, i, b);
            }
            if journeyTime <= TimeLimit && journeyTime < shortestTime {
              shortestTime := journeyTime;
              newBus := b;
            }
          } else {
            assert !q[b] by {
              assert q[b] == Qualifies(dist, origin, bs, i, b, tags);
            }
          }
        } else {
          assert !q[b] by {
            assert q[b] == Qualifies(dist, origin, bs, i, b, tags);
          }
        }
      }
    }

    /** The trip of a bus holding `groups` once `mover` boards behind them, by `totalTime2` or `totalTime3`. */
    method JourneyTime(groups: seq<Group>, mover: Group) returns (journeyTime: nat)
      requires |groups| == 1 || |groups| == 2
      ensures journeyTime == TripTime(dist, origin, groups + [mover])
    {
      if |groups| == 1 {
        journeyTime := TotalTime2(dist, origin, groups[0], mover);
        assert groups + [mover] == [groups[0], mover];
      } else {
        journeyTime := TotalTime3(dist, origin, groups[0], groups[1], mover);
        assert groups + [mover] == [groups[0], groups[1], mover];
      }
    }

    /**
     * The body of the `moveOnes` loop for bus `i`: a single group moves to
     * the bus `FindTarget` chooses, if any, behind that bus's own groups.
     */
    method RepairBus(bs: seq<Bus>, i: nat, ghost tags: Tags) returns (r: seq<Bus>)
      requires OnBoard(bs, tags) && i < |bs|
      requires forall g | g in tags :: tags[g] == g.cluster
      ensures r == RepairAt(dist, origin, bs, i, tags)
    {
      r := bs;
      if |r[i].groups| == 1 {
        var newBus := FindTarget(r, i, tags);
        if newBus != -1 {
          BestTargetIsBest(dist, origin, r, i, tags);
          r := r[newBus := r[newBus].(groups := r[newBus].groups + [r[i].groups[0]])];
          r := r[i := r[i].(groups := r[i].groups[1..])];
        }
      }
    }

    /** `moveOnes`: `RepairBus` for every bus in turn. */
    method MoveOnes()
      modifies this
      ensures buses == RepairFrom(dist, origin, old(buses), 0, old(TagsOf(buses)))
      ensures clusters == old(clusters) && potentialBuses == old(potentialBuses) && validSolution == old(validSolution)
    {
      ghost var tags := TagsOf(buses);
      var bs := buses;
      for i := 0 to |bs|
        modifies {}
        invariant |bs| == |buses| && OnBoard(bs, tags)
        invariant RepairFrom(dist, origin, bs, i, tags) == RepairFrom(dist, origin, buses, 0, tags)
      {
        assert RepairFrom(dist, origin, bs, i, tags)
            == RepairFrom(dist, origin, RepairAt(dist, origin, bs, i, tags), i + 1, tags);
        bs := RepairBus(bs, i, tags);
      }
      buses := bs;
    }

    /**
     * `createCombinations(c)`: the cluster's combinations become the
     * partitions of its members into clumps of at most three groups.
     */
    method CreateCombinations(c: nat)
      requires c < |clusters|
      modifies this
      ensures clusters == old(clusters)[c := old(clusters)[c].(combos := Combinations(old(clusters)[c].members))]
      ensures CombosCover(clusters[c])
      ensures buses == old(buses) && potentialBuses == old(potentialBuses) && validSolution == old(validSolution)
    {
      clusters := clusters[c := clusters[c].(combos := Combinations(clusters[c].members))];
    }

    /**
     * The final check of `Main`: `groupCounter` adds up the groups on every
     * bus, and the solution is invalid when it falls short of the number
     * of groups.
     */
    method CheckSolution()
      modifies this
      ensures validSolution == (old(validSolution) && |Placed(buses)| >= |groups|)
      ensures clusters == old(clusters) && buses == old(buses) && potentialBuses == old(potentialBuses)
    {
      var groupCounter := 0;
      for bus := 0 to |buses|
        modifies {}
        invariant groupCounter == |Placed(buses[..bus])|
      {
        PlacedAppend(buses[..bus], buses[bus]);
        assert buses[..bus + 1] == buses[..bus] + [buses[bus]];
        groupCounter := groupCounter + |buses[bus].groups|;
      }
      assert buses[..|buses|] == buses;
      if groupCounter < |groups| {
        validSolution := false;
      }
    }

    /**
     * The clustering half of `Main` once the k-means labels are known: the
     * groups join the clusters their labels name, and every cluster gets
     * its combinations. The clusters then hold every group exactly once.
     */
    method BuildClusters(labels: seq<int>)
      requires |labels| == |groups|
      requires forall i :: 0 <= i < |labels| ==> 0 <= labels[i] < |clusters|
      requires forall k :: 0 <= k < |clusters| ==> clusters[k].members == []
      modifies this, groups
      ensures AllMembers(clusters) == multiset(groups)
      ensures forall c | c in clusters :: CombosCover(c)
      ensures buses == old(buses) && potentialBuses == old(potentialBuses) && validSolution == old(validSolution)
    {
      ghost var cs0 := clusters;
      KMeansToClusters(labels);
      EmptyClustersHoldNothing(cs0);
      LabelledAllMembers(cs0, groups, labels, |labels|);
      assert groups[..|labels|] == groups;
      CombineAll();
    }

    /** The loop of `Main` that calls `createCombinations` for every cluster; the members stay put. */
    method CombineAll()
      modifies this
      ensures AllMembers(clusters) == AllMembers(old(clusters))
      ensures forall c | c in clusters :: CombosCover(c)
      ensures buses == old(buses) && potentialBuses == old(potentialBuses) && validSolution == old(validSolution)
    {
      ghost var cs1 := clusters;
      for c := 0 to |clusters|
        invariant |clusters| == |cs1|
        invariant forall k :: 0 <= k < |clusters| ==> clusters[k].members == cs1[k].members
        invariant forall k :: 0 <= k < c ==> CombosCover(clusters[k])
        invariant buses == old(buses) && potentialBuses == old(potentialBuses) && validSolution == old(validSolution)
      {
        CreateCombinations(c);
      }
      assert MemberLists(clusters) == MemberLists(cs1);
    }

    /**
     * `fillBuses` followed by `moveOnes`: no placed group is removed, no
     * group is placed more often than the clusters hold it, and every bus
     * stays feasible.
     */
    method PackAndRepair()
      requires forall c | c in clusters :: CombosCover(c)
      requires AllFeasible(dist, origin, buses)
      modifies this
      ensures Placed(old(buses)) <= Placed(buses) <= Placed(old(buses)) + AllMembers(old(clusters))
      ensures AllFeasible(dist, origin, buses)
      ensures validSolution == old(validSolution)
    {
      ghost var cs2, bs2, t2 := clusters, buses, potentialBuses;
      FillBuses();
      FillBusesEffect(dist, origin, cs2, bs2, t2);
      ghost var bs3, tags := buses, TagsOf(buses);
      MoveOnes();
      RepairKeeps(dist, origin, bs3, 0, tags);
    }

    /**
     * The pipeline of `Main` once the k-means labels are known: every bus
     * ends feasible, no group is placed more often than it exists, and the
     * solution stays valid exactly when every group is placed.
     */
    method Assign(labels: seq<int>)
      requires |labels| == |groups|
      requires forall i :: 0 <= i < |labels| ==> 0 <= labels[i] < |clusters|
      requires forall k :: 0 <= k < |clusters| ==> clusters[k].members == []
      requires Unused(buses)
      modifies this, groups
      ensures AllFeasible(dist, origin, buses)
      ensures Placed(buses) <= multiset(groups)
      ensures validSolution == (old(validSolution) && Placed(buses) == multiset(groups))
    {
      BuildClusters(labels);
      UnusedPlacesNothing(dist, origin, buses);
      PackAndRepair();
      CheckSolution();
      CountDecides(Placed(buses), groups);
    }
  }
}
