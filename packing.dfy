/**
 * `fillBuses` as a specification. For each combination of a cluster it
 * applies the time check, builds the tentative reservation table
 * (`potentialBuses`) clump by clump with a first-fit search, and either
 * commits the whole combination or discards the table. The imperative
 * `Engine.FillBuses` is proved to compute `FillBusesSpec`.
 */
module Packing {
  import opened Seqs
  import opened Entities
  import opened Sorting
  import opened Trips
  import opened Seats

  /** The time check: no clump's trip takes longer than the limit. */
  predicate WithinTimeLimit(dist: Dist, origin: Location, combo: Combo)
  {
    forall k :: 0 <= k < |combo| ==> TripTime(dist, origin, combo[k]) <= TimeLimit
  }

  /** `n` copies of the bus index `b`. */
  function Row(n: nat, b: int): (r: seq<int>)
    ensures |r| == n && forall j :: 0 <= j < n ==> r[j] == b
  {
    seq(n, _ => b)
  }

  /** The table has one row per clump and one entry per group. */
  predicate Shaped(t: Table, combo: Combo)
  {
    |t| == |combo| && forall k :: 0 <= k < |t| ==> |t[k]| == |combo[k]|
  }

  /** The table `fillBuses` builds before trying a combination: no bus for any group yet. */
  function EmptyTable(combo: Combo): (t: Table)
    ensures Shaped(t, combo)
    ensures forall k, j :: 0 <= k < |t| && 0 <= j < |t[k]| ==> t[k][j] == -1
  {
    seq(|combo|, k requires 0 <= k < |combo| => Row(|combo[k]|, -1))
  }

  /** Bus `b` has not been used, is not reserved in `t`, and has `need` seats left. */
  predicate CanTake(buses: seq<Bus>, t: Table, combo: Combo, b: int, need: int)
    requires Fits(t, combo)
  {
    0 <= b < |buses| && !buses[b].filled && !BusTaken(t, b)
    && need <= SeatsRemaining(buses[b], t, b, combo)
  }

  /** The bus loop for one clump: the first bus from `from` on that can take it, or -1. */
  function FirstFit(buses: seq<Bus>, t: Table, combo: Combo, need: int, from: nat): (r: int)
    requires Fits(t, combo)
    ensures r == -1 || (from <= r < |buses| && CanTake(buses, t, combo, r, need))
    ensures forall b :: from <= b < |buses| && (r == -1 || b < r) ==> !CanTake(buses, t, combo, b, need)
    decreases |buses| - from
  {
    if from >= |buses| then -1
    else if CanTake(buses, t, combo, from, need) then from
    else FirstFit(buses, t, combo, need, from + 1)
  }

  /** The clump loop from clump `k` on: a clump that fits gets its whole row set to its bus. */
  function ReserveFrom(buses: seq<Bus>, combo: Combo, t: Table, k: nat): (r: Table)
    requires Shaped(t, combo)
    ensures Shaped(r, combo)
    decreases |combo| - k
  {
    if k >= |combo| then t
    else
      var b := FirstFit(buses, t, combo, Headcount(combo[k]), 0);
      ReserveFrom(buses, combo, if b == -1 then t else t[k := Row(|combo[k]|, b)], k + 1)
  }

  /** The table `fillBuses` fills in for one combination. */
  function Reserve(buses: seq<Bus>, combo: Combo): Table
  {
    ReserveFrom(buses, combo, EmptyTable(combo), 0)
  }

  /** Bus `b` is unused and has room for `clump` on top of what it carries. */
  predicate Room(buses: seq<Bus>, b: int, clump: Clump)
  {
    0 <= b < |buses| && !buses[b].filled
    && Headcount(buses[b].groups) + Headcount(clump) <= buses[b].totalSeats
  }

  /**
   * What the reservation table guarantees once clumps before `k` are done:
   * each row names one bus or none, rows from `k` on name none, a named bus
   * is unused and has room for its clump, and no bus is named by two rows.
   */
  ghost predicate ReservedUpTo(buses: seq<Bus>, combo: Combo, t: Table, k: nat)
  {
    Shaped(t, combo) && k <= |t|
    && (forall i, j :: 0 <= i < |t| && 0 <= j < |t[i]| ==> t[i][j] == t[i][0])
    && (forall i :: k <= i < |t| && |t[i]| > 0 ==> t[i][0] == -1)
    && (forall i :: 0 <= i < |t| && |t[i]| > 0 && t[i][0] != -1 ==> Room(buses, t[i][0], combo[i]))
    && (forall i1, i2 :: 0 <= i1 < |t| && 0 <= i2 < |t| && i1 != i2 && |t[i1]| > 0 && |t[i2]| > 0 && t[i1][0] != -1 ==>
          t[i1][0] != t[i2][0])
  }

  lemma ReserveStep(buses: seq<Bus>, combo: Combo, t: Table, k: nat)
    requires ReservedUpTo(buses, combo, t, k) && k < |combo|
    ensures var b := FirstFit(buses, t, combo, Headcount(combo[k]), 0);
            ReservedUpTo(buses, combo, if b == -1 then t else t[k := Row(|combo[k]|, b)], k + 1)
  {
    var b := FirstFit(buses, t, combo, Headcount(combo[k]), 0);
    if b != -1 {
      UntakenHasNoReservations(t, combo, b);
      var t' := t[k := Row(|combo[k]|, b)];
      if |combo[k]| > 0 {
        assert Room(buses, t'[k][0], combo[k]);
      }
    }
  }

  lemma {:induction false} ReserveFromSound(buses: seq<Bus>, combo: Combo, t: Table, k: nat)
    requires ReservedUpTo(buses, combo, t, k)
    ensures ReservedUpTo(buses, combo, ReserveFrom(buses, combo, t, k), |combo|)
    decreases |combo| - k
  {
    if k < |combo| {
      ReserveStep(buses, combo, t, k);
      var b := FirstFit(buses, t, combo, Headcount(combo[k]), 0);
      ReserveFromSound(buses, combo, if b == -1 then t else t[k := Row(|combo[k]|, b)], k + 1);
    }
  }

  /**
   * The reservation table of a combination: every clump is reserved whole
   * on one bus or not at all, a reserved bus was unused and has room for
   * its clump, and no bus is reserved for two clumps.
   */
  lemma ReserveSound(buses: seq<Bus>, combo: Combo)
    ensures ReservedUpTo(buses, combo, Reserve(buses, combo), |combo|)
  {
    ReserveFromSound(buses, combo, EmptyTable(combo), 0);
  }

  /** Every entry of the table names one of `n` buses: no group was left at -1. */
  predicate Assigned(t: Table, n: nat)
  {
    forall i, j :: 0 <= i < |t| && 0 <= j < |t[i]| ==> 0 <= t[i][j] < n
  }

  /** One pass of the commit loop's body: `buses[b].groups.Add(g)` and `buses[b].filled = true`. */
  function AddGroup(buses: seq<Bus>, b: nat, g: Group): (r: seq<Bus>)
    requires b < |buses|
    ensures |r| == |buses|
  {
    buses[b := Bus(buses[b].totalSeats, buses[b].groups + [g], true)]
  }

  /** The commit loop over the groups of one clump, from group `j` on. */
  function CommitRow(buses: seq<Bus>, row: seq<int>, clump: Clump, j: nat): (r: seq<Bus>)
    requires |row| == |clump| && forall x | x in row :: 0 <= x < |buses|
    ensures |r| == |buses|
    decreases |row| - j
  {
    if j >= |row| then buses
    else
      assert row[j] in row;
      CommitRow(AddGroup(buses, row[j], clump[j]), row, clump, j + 1)
  }

  /** The commit loop over the clumps, from clump `k` on. */
  function CommitFrom(buses: seq<Bus>, t: Table, combo: Combo, k: nat): (r: seq<Bus>)
    requires Shaped(t, combo) && Assigned(t, |buses|)
    ensures |r| == |buses|
    decreases |t| - k
  {
    if k >= |t| then buses
    else CommitFrom(CommitRow(buses, t[k], combo[k], 0), t, combo, k + 1)
  }

  /** Moving every group of the combination onto the bus its entry names. */
  function Commit(buses: seq<Bus>, combo: Combo, t: Table): (r: seq<Bus>)
    requires Shaped(t, combo) && Assigned(t, |buses|)
  {
    CommitFrom(buses, t, combo, 0)
  }

  /** Bus `b` after taking all of `clump` and being marked used; an empty clump changes nothing. */
  function Board(buses: seq<Bus>, b: nat, clump: Clump): seq<Bus>
    requires b < |buses|
  {
    if clump == [] then buses
    else buses[b := Bus(buses[b].totalSeats, buses[b].groups + clump, true)]
  }

  lemma {:induction false} CommitRowBoards(buses: seq<Bus>, row: seq<int>, clump: Clump, j: nat, b: nat)
    requires |row| == |clump| && j <= |row| && b < |buses| && forall x | x in row :: x == b
    ensures CommitRow(buses, row, clump, j) == Board(buses, b, clump[j..])
    decreases |row| - j
  {
    if j < |row| {
      assert row[j] in row;
      var next := AddGroup(buses, b, clump[j]);
      assert CommitRow(buses, row, clump, j) == CommitRow(next, row, clump, j + 1);
      CommitRowBoards(next, row, clump, j + 1, b);
      var rest := clump[j + 1..];
      assert clump[j..] == [clump[j]] + rest;
      if rest == [] {
        assert clump[j..] == [clump[j]];
        assert Board(buses, b, [clump[j]]) == next;
      } else {
        assert buses[b].groups + [clump[j]] + rest == buses[b].groups + clump[j..];
        assert Board(next, b, rest) == Board(buses, b, clump[j..]);
      }
    } else {
      assert clump[j..] == [];
    }
  }

  /** A table whose rows each name one bus, no bus twice. */
  ghost predicate OneBusPerClump(t: Table)
  {
    (forall i, j :: 0 <= i < |t| && 0 <= j < |t[i]| ==> t[i][j] == t[i][0])
    && (forall i1, i2 :: 0 <= i1 < |t| && 0 <= i2 < |t| && i1 != i2 && |t[i1]| > 0 && |t[i2]| > 0 ==>
          t[i1][0] != t[i2][0])
  }

  lemma {:induction false} CommitFromEffect(buses: seq<Bus>, t: Table, combo: Combo, k: nat)
    requires Shaped(t, combo) && Assigned(t, |buses|) && OneBusPerClump(t) && k <= |t|
    ensures forall i :: k <= i < |t| && |t[i]| > 0 ==>
              CommitFrom(buses, t, combo, k)[t[i][0]]
              == Bus(buses[t[i][0]].totalSeats, buses[t[i][0]].groups + combo[i], true)
    ensures forall b :: 0 <= b < |buses| && (forall i :: k <= i < |t| && |t[i]| > 0 ==> t[i][0] != b) ==>
              CommitFrom(buses, t, combo, k)[b] == buses[b]
    decreases |t| - k
  {
    if k < |t| {
      var next := CommitRow(buses, t[k], combo[k], 0);
      if |t[k]| > 0 {
        CommitRowBoards(buses, t[k], combo[k], 0, t[k][0]);
        assert combo[k][0..] == combo[k];
      } else {
        assert next == buses;
      }
      CommitFromEffect(next, t, combo, k + 1);
    }
  }

  /**
   * Committing a complete reservation: each reserved bus gets exactly its
   * clump appended and is marked used; every other bus, and in particular
   * every bus already used, is unchanged.
   */
  lemma CommitEffect(buses: seq<Bus>, combo: Combo, t: Table)
    requires ReservedUpTo(buses, combo, t, |combo|) && !BusTaken(t, -1)
    ensures Assigned(t, |buses|)
    ensures |Commit(buses, combo, t)| == |buses|
    ensures forall k :: 0 <= k < |t| && |t[k]| > 0 ==>
              Commit(buses, combo, t)[t[k][0]]
              == Bus(buses[t[k][0]].totalSeats, buses[t[k][0]].groups + combo[k], true)
    ensures forall b :: 0 <= b < |buses| && !BusTaken(t, b) ==> Commit(buses, combo, t)[b] == buses[b]
    ensures forall b :: 0 <= b < |buses| && buses[b].filled ==> Commit(buses, combo, t)[b] == buses[b]
  {
    assert Assigned(t, |buses|) by {
      forall i, j | 0 <= i < |t| && 0 <= j < |t[i]| ensures 0 <= t[i][j] < |buses| {
        assert t[i][j] == t[i][0];
      }
    }
    CommitFromEffect(buses, t, combo, 0);
    forall b | 0 <= b < |buses| && buses[b].filled ensures Commit(buses, combo, t)[b] == buses[b] {
      forall i | 0 <= i < |t| && |t[i]| > 0 ensures t[i][0] != b {
        assert Room(buses, t[i][0], combo[i]);
      }
    }
  }

  lemma PlacedAddGroup(buses: seq<Bus>, b: nat, g: Group)
    requires b < |buses|
    ensures Placed(AddGroup(buses, b, g)) == Placed(buses) + multiset{g}
  {
    PlacedUpdate(buses, b, Bus(buses[b].totalSeats, buses[b].groups + [g], true));
    assert multiset(buses[b].groups + [g]) == multiset(buses[b].groups) + multiset{g};
  }

  lemma {:induction false} CommitRowPlaced(buses: seq<Bus>, row: seq<int>, clump: Clump, j: nat)
    requires |row| == |clump| && j <= |row| && forall x | x in row :: 0 <= x < |buses|
    ensures Placed(CommitRow(buses, row, clump, j)) == Placed(buses) + multiset(clump[j..])
    decreases |row| - j
  {
    if j < |row| {
      assert row[j] in row;
      PlacedAddGroup(buses, row[j], clump[j]);
      CommitRowPlaced(AddGroup(buses, row[j], clump[j]), row, clump, j + 1);
      assert clump[j..] == [clump[j]] + clump[j + 1..];
    }
  }

  lemma {:induction false} CommitFromPlaced(buses: seq<Bus>, t: Table, combo: Combo, k: nat)
    requires Shaped(t, combo) && Assigned(t, |buses|) && k <= |t|
    ensures Placed(CommitFrom(buses, t, combo, k)) == Placed(buses) + multiset(Flatten(combo[k..]))
    decreases |t| - k
  {
    if k < |t| {
      CommitRowPlaced(buses, t[k], combo[k], 0);
      assert combo[k][0..] == combo[k];
      CommitFromPlaced(CommitRow(buses, t[k], combo[k], 0), t, combo, k + 1);
      assert combo[k..][1..] == combo[k + 1..];
    } else {
      assert combo[k..] == [];
    }
  }

  /** A commit places every group of the combination, once each, and nothing else. */
  lemma CommitPlaced(buses: seq<Bus>, combo: Combo, t: Table)
    requires Shaped(t, combo) && Assigned(t, |buses|)
    ensures Placed(Commit(buses, combo, t)) == Placed(buses) + multiset(Flatten(combo))
  {
    CommitFromPlaced(buses, t, combo, 0);
    assert combo[0..] == combo;
  }

  /**
   * What holds of every bus after `fillBuses` and after `moveOnes`: an
   * unused bus is empty, and a bus that carries groups has seats for all
   * of them and reaches their stops within the time limit.
   */
  predicate Feasible(dist: Dist, origin: Location, bus: Bus)
  {
    (!bus.filled ==> bus.groups == [])
    && (bus.groups != [] ==>
          Headcount(bus.groups) <= bus.totalSeats && TripTime(dist, origin, bus.groups) <= TimeLimit)
  }

  predicate AllFeasible(dist: Dist, origin: Location, buses: seq<Bus>)
  {
    forall b :: 0 <= b < |buses| ==> Feasible(dist, origin, buses[b])
  }

  /** Committing a combination that passed the time check keeps every bus feasible. */
  lemma CommitFeasible(dist: Dist, origin: Location, buses: seq<Bus>, combo: Combo, t: Table)
    requires ReservedUpTo(buses, combo, t, |combo|) && !BusTaken(t, -1)
    requires WithinTimeLimit(dist, origin, combo) && AllFeasible(dist, origin, buses)
    ensures Assigned(t, |buses|)
    ensures AllFeasible(dist, origin, Commit(buses, combo, t))
  {
    CommitEffect(buses, combo, t);
    var r := Commit(buses, combo, t);
    forall b | 0 <= b < |r| ensures Feasible(dist, origin, r[b]) {
      if BusTaken(t, b) {
        var k, j :| 0 <= k < |t| && 0 <= j < |t[k]| && t[k][j] == b;
        assert t[k][0] == b;
        assert Room(buses, b, combo[k]);
        assert [] + combo[k] == combo[k];
      }
    }
  }

  /** The `buses` list and the `potentialBuses` table as the packing leaves them. */
  datatype Fleet = Fleet(buses: seq<Bus>, table: Table)

  /**
   * The combination loop of one cluster, from combination `cb` on. A
   * combination that fails the time check is skipped and the table is left
   * as it was; one whose clumps all found a bus is committed and ends the
   * loop; otherwise the table is cleared and the next one is tried.
   */
  function PackCluster(dist: Dist, origin: Location, f: Fleet, combos: seq<Combo>, cb: nat): (r: Fleet)
    ensures |r.buses| == |f.buses|
    decreases |combos| - cb
  {
    if cb >= |combos| then f
    else if !WithinTimeLimit(dist, origin, combos[cb]) then PackCluster(dist, origin, f, combos, cb + 1)
    else
      var t := Reserve(f.buses, combos[cb]);
      if !BusTaken(t, -1) then
        ReserveSound(f.buses, combos[cb]);
        CommitEffect(f.buses, combos[cb], t);
        Fleet(Commit(f.buses, combos[cb], t), t)
      else
        PackCluster(dist, origin, Fleet(f.buses, []), combos, cb + 1)
  }

  /** The cluster loop of `fillBuses`, from cluster `cl` on. */
  function PackAll(dist: Dist, origin: Location, f: Fleet, clusters: seq<Cluster>, cl: nat): (r: Fleet)
    ensures |r.buses| == |f.buses|
    decreases |clusters| - cl
  {
    if cl >= |clusters| then f
    else PackAll(dist, origin, PackCluster(dist, origin, f, clusters[cl].combos, 0), clusters, cl + 1)
  }

  /** A cluster with its combinations in the order `fillBuses` tries them. */
  function RankCombos(c: Cluster): Cluster
  {
    Cluster(c.members, SortCombos(c.combos))
  }

  function RankAll(clusters: seq<Cluster>): seq<Cluster>
  {
    MapSeq(clusters, RankCombos)
  }

  /**
   * `fillBuses`: clusters largest first, each cluster's combinations
   * ranked, buses smallest first, then the packing. Returns the reordered
   * clusters and the new buses and table.
   */
  function FillBusesSpec(dist: Dist, origin: Location, clusters: seq<Cluster>, buses: seq<Bus>, table: Table)
    : (seq<Cluster>, Fleet)
  {
    var cs := RankAll(SortClusters(clusters));
    (cs, PackAll(dist, origin, Fleet(SortBuses(buses), table), cs, 0))
  }

  /** Every combination of the cluster is a partition of its members. */
  ghost predicate CombosCover(c: Cluster)
  {
    forall combo | combo in c.combos :: multiset(Flatten(combo)) == multiset(c.members)
  }

  /**
   * A cluster is packed all or nothing: either no bus changes, or the
   * placed groups grow by exactly the cluster's members. A bus already
   * used is never changed, and every bus stays feasible.
   */
  lemma {:induction false} PackClusterEffect(dist: Dist, origin: Location, f: Fleet, c: Cluster, cb: nat)
    requires CombosCover(c) && AllFeasible(dist, origin, f.buses)
    ensures var r := PackCluster(dist, origin, f, c.combos, cb);
            (r.buses == f.buses || Placed(r.buses) == Placed(f.buses) + multiset(c.members))
            && AllFeasible(dist, origin, r.buses)
            && forall b :: 0 <= b < |f.buses| && f.buses[b].filled ==> r.buses[b] == f.buses[b]
    decreases |c.combos| - cb
  {
    if cb < |c.combos| {
      if !WithinTimeLimit(dist, origin, c.combos[cb]) {
        PackClusterEffect(dist, origin, f, c, cb + 1);
      } else {
        var t := Reserve(f.buses, c.combos[cb]);
        ReserveSound(f.buses, c.combos[cb]);
        if !BusTaken(t, -1) {
          CommitEffect(f.buses, c.combos[cb], t);
          CommitPlaced(f.buses, c.combos[cb], t);
          CommitFeasible(dist, origin, f.buses, c.combos[cb], t);
          assert c.combos[cb] in c.combos;
        } else {
          PackClusterEffect(dist, origin, Fleet(f.buses, []), c, cb + 1);
        }
      }
    }
  }

  lemma {:induction false} PackAllEffect(dist: Dist, origin: Location, f: Fleet, clusters: seq<Cluster>, cl: nat)
    requires cl <= |clusters|
    requires forall c | c in clusters :: CombosCover(c)
    requires AllFeasible(dist, origin, f.buses)
    ensures var r := PackAll(dist, origin, f, clusters, cl);
            Placed(f.buses) <= Placed(r.buses) <= Placed(f.buses) + AllMembers(clusters[cl..])
            && AllFeasible(dist, origin, r.buses)
    decreases |clusters| - cl
  {
    if cl < |clusters| {
      var f1 := PackCluster(dist, origin, f, clusters[cl].combos, 0);
      PackClusterEffect(dist, origin, f, clusters[cl], 0);
      PackAllEffect(dist, origin, f1, clusters, cl + 1);
      AllMembersFront(clusters[cl..]);
      assert clusters[cl..][1..] == clusters[cl + 1..];
    }
  }

  /** Sorting the clusters and ranking their combinations keeps what each cluster holds. */
  lemma RankedClusters(clusters: seq<Cluster>)
    requires forall c | c in clusters :: CombosCover(c)
    ensures AllMembers(RankAll(SortClusters(clusters))) == AllMembers(clusters)
    ensures forall c | c in RankAll(SortClusters(clusters)) :: CombosCover(c)
  {
    var sorted := SortClusters(clusters);
    var cs := RankAll(sorted);
    AllMembersReorder(sorted, clusters);
    assert MemberLists(cs) == MemberLists(sorted);
    forall c | c in cs ensures CombosCover(c) {
      var i :| 0 <= i < |cs| && cs[i] == c;
      assert sorted[i] in multiset(clusters);
      RankCovers(sorted[i]);
    }
  }

  lemma RankCovers(c: Cluster)
    requires CombosCover(c)
    ensures CombosCover(RankCombos(c))
  {
    forall combo | combo in SortCombos(c.combos) ensures multiset(Flatten(combo)) == multiset(c.members) {
      assert combo in multiset(SortCombos(c.combos));
      assert combo in multiset(c.combos);
    }
  }

  /** Sorting the buses keeps their number, the placed groups and feasibility. */
  lemma SortedBuses(dist: Dist, origin: Location, buses: seq<Bus>)
    requires AllFeasible(dist, origin, buses)
    ensures |SortBuses(buses)| == |buses|
    ensures Placed(SortBuses(buses)) == Placed(buses)
    ensures AllFeasible(dist, origin, SortBuses(buses))
  {
    var bs := SortBuses(buses);
    PlacedReorder(bs, buses);
    assert |bs| == |multiset(bs)| == |buses|;
    forall b | 0 <= b < |bs| ensures Feasible(dist, origin, bs[b]) {
      assert bs[b] in multiset(buses);
    }
  }

  /**
   * `fillBuses` reorders the clusters without changing their members, keeps
   * every bus feasible, never removes a placed group, and places a group no
   * more often than the clusters hold it.
   */
  lemma FillBusesEffect(dist: Dist, origin: Location, clusters: seq<Cluster>, buses: seq<Bus>, table: Table)
    requires forall c | c in clusters :: CombosCover(c)
    requires AllFeasible(dist, origin, buses)
    ensures var (cs, f) := FillBusesSpec(dist, origin, clusters, buses, table);
            AllMembers(cs) == AllMembers(clusters) && |f.buses| == |buses|
            && Placed(buses) <= Placed(f.buses) <= Placed(buses) + AllMembers(clusters)
            && AllFeasible(dist, origin, f.buses)
  {
    var cs := RankAll(SortClusters(clusters));
    RankedClusters(clusters);
    SortedBuses(dist, origin, buses);
    PackAllEffect(dist, origin, Fleet(SortBuses(buses), table), cs, 0);
    assert cs[0..] == cs;
  }
}
