/**
 * The entities of the bus-assignment engine: school groups, the clusters
 * they are gathered into, and the buses that carry them.
 */
module Entities {
  import opened Seqs

  /** A destination. Travel times between destinations come from a `Dist`. */
  type Location = nat

  /** The `distTo` tables: whole minutes from one location to another. */
  type Dist = (Location, Location) -> nat

  /**
   * A school group bound for one destination. Clusters, combinations and
   * buses all hold references to the same group objects.
   */
  class Group {
    const destination: Location
    const numStudents: int
    var cluster: int

    constructor (dest: Location, c: int, num: int)
      ensures destination == dest && cluster == c && numStudents == num
    {
      destination := dest;
      cluster := c;
      numStudents := num;
    }
  }

  /** Up to three groups that would share one bus. */
  type Clump = seq<Group>

  /** A partition of a cluster's members into clumps. */
  type Combo = seq<Clump>

  /** A cluster of nearby groups and the candidate combinations of its members. */
  datatype Cluster = Cluster(members: seq<Group>, combos: seq<Combo>)

  /** A bus: its capacity, the groups put on it, and whether `fillBuses` has used it. */
  datatype Bus = Bus(totalSeats: int, groups: seq<Group>, filled: bool)

  /** The number of students in a list of groups, summed front to back. */
  function Headcount(gs: seq<Group>): int
  {
    if gs == [] then 0 else Headcount(gs[..|gs| - 1]) + gs[|gs| - 1].numStudents
  }

  lemma {:induction false} HeadcountConcat(a: seq<Group>, b: seq<Group>)
    ensures Headcount(a + b) == Headcount(a) + Headcount(b)
  {
    if b == [] {
      assert a + b == a;
    } else {
      assert (a + b)[..|a + b| - 1] == a + b[..|b| - 1];
      HeadcountConcat(a, b[..|b| - 1]);
    }
  }

  /** `Cluster.CompareTo`: the sign of the comparison of the member counts. */
  function CompareClusters(a: Cluster, b: Cluster): (r: int)
    ensures -1 <= r <= 1
    ensures r < 0 <==> |a.members| < |b.members|
    ensures r > 0 <==> |a.members| > |b.members|
  {
    if |a.members| < |b.members| then -1
    else if |a.members| == |b.members| then 0
    else 1
  }

  /** `Bus.CompareTo`: the sign of the comparison of the capacities. */
  function CompareBuses(a: Bus, b: Bus): (r: int)
    ensures -1 <= r <= 1
    ensures r < 0 <==> a.totalSeats < b.totalSeats
    ensures r > 0 <==> a.totalSeats > b.totalSeats
  {
    if a.totalSeats < b.totalSeats then -1
    else if a.totalSeats == b.totalSeats then 0
    else 1
  }

  /** Both comparisons are antisymmetric, so they order their values consistently. */
  lemma CompareAntisymmetric(a: Cluster, b: Cluster, x: Bus, y: Bus)
    ensures CompareClusters(a, b) == -CompareClusters(b, a)
    ensures CompareBuses(x, y) == -CompareBuses(y, x)
  {
  }

  /** The group lists of the buses, in bus order. */
  function GroupLists(buses: seq<Bus>): (r: seq<seq<Group>>)
    ensures |r| == |buses|
  {
    seq(|buses|, i requires 0 <= i < |buses| => buses[i].groups)
  }

  /** Every group on some bus, counted once per seat it occupies. */
  function Placed(buses: seq<Bus>): multiset<Group>
  {
    multiset(Flatten(GroupLists(buses)))
  }

  /** Giving bus `i` a new group list changes `Placed` by exactly the swapped lists. */
  lemma PlacedUpdate(buses: seq<Bus>, i: nat, b: Bus)
    requires i < |buses|
    ensures multiset(buses[i].groups) <= Placed(buses)
    ensures Placed(buses[i := b]) == Placed(buses) - multiset(buses[i].groups) + multiset(b.groups)
  {
    assert GroupLists(buses[i := b]) == GroupLists(buses)[i := b.groups];
    FlattenUpdate(GroupLists(buses), i, b.groups);
  }

  /** The member lists of the clusters, in cluster order. */
  function MemberLists(clusters: seq<Cluster>): (r: seq<seq<Group>>)
    ensures |r| == |clusters|
  {
    seq(|clusters|, i requires 0 <= i < |clusters| => clusters[i].members)
  }

  /** Every group in some cluster, counted once per membership. */
  function AllMembers(clusters: seq<Cluster>): multiset<Group>
  {
    multiset(Flatten(MemberLists(clusters)))
  }

  lemma AllMembersUpdate(clusters: seq<Cluster>, i: nat, c: Cluster)
    requires i < |clusters|
    ensures AllMembers(clusters[i := c]) == AllMembers(clusters) - multiset(clusters[i].members) + multiset(c.members)
  {
    assert MemberLists(clusters[i := c]) == MemberLists(clusters)[i := c.members];
    FlattenUpdate(MemberLists(clusters), i, c.members);
  }

  lemma AllMembersAppend(clusters: seq<Cluster>, c: Cluster)
    ensures AllMembers(clusters + [c]) == AllMembers(clusters) + multiset(c.members)
  {
    assert MemberLists(clusters + [c]) == MemberLists(clusters) + [c.members];
    FlattenConcat(MemberLists(clusters), [c.members]);
    FlattenSingle(c.members);
  }

  lemma PlacedAppend(buses: seq<Bus>, b: Bus)
    ensures Placed(buses + [b]) == Placed(buses) + multiset(b.groups)
  {
    assert GroupLists(buses + [b]) == GroupLists(buses) + [b.groups];
    FlattenConcat(GroupLists(buses), [b.groups]);
    FlattenSingle(b.groups);
  }

  function GroupsOf(b: Bus): seq<Group>
  {
    b.groups
  }

  function MembersOf(c: Cluster): seq<Group>
  {
    c.members
  }

  /** Reordering the buses does not change which groups are placed. */
  lemma PlacedReorder(a: seq<Bus>, b: seq<Bus>)
    requires multiset(a) == multiset(b)
    ensures Placed(a) == Placed(b)
  {
    assert GroupLists(a) == MapSeq(a, GroupsOf);
    assert GroupLists(b) == MapSeq(b, GroupsOf);
    FlattenReorder(a, b, GroupsOf);
  }

  /** Reordering the clusters does not change which groups they hold. */
  lemma AllMembersReorder(a: seq<Cluster>, b: seq<Cluster>)
    requires multiset(a) == multiset(b)
    ensures AllMembers(a) == AllMembers(b)
  {
    assert MemberLists(a) == MapSeq(a, MembersOf);
    assert MemberLists(b) == MapSeq(b, MembersOf);
    FlattenReorder(a, b, MembersOf);
  }

  lemma AllMembersFront(clusters: seq<Cluster>)
    requires clusters != []
    ensures AllMembers(clusters) == multiset(clusters[0].members) + AllMembers(clusters[1..])
  {
    assert MemberLists(clusters)[1..] == MemberLists(clusters[1..]);
  }
}
