/**
 * `moveOnes` as a specification. Each bus left with a single group offers
 * that group to the other buses; a bus qualifies when it carries one or
 * two groups of another cluster, has strictly more free seats than the
 * group has students, and still reaches all its stops within the time
 * limit. The group moves to the qualifying bus with the shortest trip, the
 * first such bus on ties. The imperative `Engine.MoveOnes` is proved to
 * compute `RepairFrom`.
 */
module Repair {
  import opened Seqs
  import opened Entities
  import opened Trips
  import opened Seats
  import opened Packing

  /**
   * The cluster tag of each group, as `moveOnes` finds it: the loop reads
   * the tags but never changes them.
   */
  type Tags = map<Group, int>

  /** Every group on the buses has a tag. */
  ghost predicate OnBoard(buses: seq<Bus>, tags: Tags)
  {
    forall b, g :: 0 <= b < |buses| && g in buses[b].groups ==> g in tags
  }

  /** The groups on the buses. */
  ghost function GroupsOn(buses: seq<Bus>): set<Group>
  {
    set b, g | 0 <= b < |buses| && g in buses[b].groups :: g
  }

  /** The current cluster tag of every group on the buses. */
  ghost function TagsOf(buses: seq<Bus>): (tags: Tags)
    reads GroupsOn(buses)
    ensures OnBoard(buses, tags)
    ensures forall g | g in tags :: tags[g] == g.cluster
  {
    map g | g in GroupsOn(buses) :: g.cluster
  }

  /** The trip of bus `b` with the single group of bus `i` added behind its own groups. */
  function MoveTime(dist: Dist, origin: Location, buses: seq<Bus>, i: nat, b: nat): nat
    requires i < |buses| && |buses[i].groups| == 1 && b < |buses|
  {
    TripTime(dist, origin, buses[b].groups + [buses[i].groups[0]])
  }

  /**
   * Bus `b` may take the single group of bus `i`. The seat test is
   * `seatsRemaining` with the sentinel -1, which ignores the table.
   */
  predicate Qualifies(dist: Dist, origin: Location, buses: seq<Bus>, i: nat, b: nat, tags: Tags)
    requires OnBoard(buses, tags) && i < |buses| && |buses[i].groups| == 1 && b < |buses|
  {
    b != i && (|buses[b].groups| == 1 || |buses[b].groups| == 2)
    && (assert buses[i].groups[0] in buses[i].groups && buses[b].groups[0] in buses[b].groups;
        tags[buses[i].groups[0]] != tags[buses[b].groups[0]])
    && buses[i].groups[0].numStudents < SeatsRemaining(buses[b], [], -1, [])
    && MoveTime(dist, origin, buses, i, b) <= TimeLimit
  }

  /** For every bus, whether it may take the single group of bus `i`. */
  function Candidates(dist: Dist, origin: Location, buses: seq<Bus>, i: nat, tags: Tags): (q: seq<bool>)
    requires OnBoard(buses, tags) && i < |buses| && |buses[i].groups| == 1
    ensures |q| == |buses|
    ensures forall c :: 0 <= c < |buses| ==> q[c] == Qualifies(dist, origin, buses, i, c, tags)
  {
    seq(|buses|, c requires 0 <= c < |buses| => Qualifies(dist, origin, buses, i, c, tags))
  }

  /** For every bus, its trip with the single group of bus `i` added. */
  function Times(dist: Dist, origin: Location, buses: seq<Bus>, i: nat): (t: seq<nat>)
    requires i < |buses| && |buses[i].groups| == 1
    ensures |t| == |buses|
    ensures forall c :: 0 <= c < |buses| ==> t[c] == MoveTime(dist, origin, buses, i, c)
  {
    seq(|buses|, c requires 0 <= c < |buses| => MoveTime(dist, origin, buses, i, c))
  }

  /**
   * The candidate loop from candidate `b` on, over the candidates `q` and
   * their times `t`, carrying the best candidate so far and its time
   * (`newBus` and `shortestTime`): a candidate replaces the best only when
   * strictly faster.
   */
  function FirstMinFrom(q: seq<bool>, t: seq<nat>, b: nat, best: int, shortest: nat): int
    requires |q| == |t|
    decreases |q| - b
  {
    if b >= |q| then best
    else if q[b] && t[b] < shortest then FirstMinFrom(q, t, b + 1, b, t[b])
    else FirstMinFrom(q, t, b + 1, best, shortest)
  }

  /** `r` is -1 when no candidate exists, else a candidate of least time, the first one on ties. */
  ghost predicate IsFirstMin(q: seq<bool>, t: seq<nat>, r: int)
    requires |q| == |t|
  {
    (r == -1 <==> forall c :: 0 <= c < |q| ==> !q[c])
    && (r != -1 ==>
          0 <= r < |q| && q[r]
          && (forall c :: 0 <= c < |q| && q[c] ==> t[r] <= t[c])
          && (forall c :: 0 <= c < r && q[c] ==> t[r] < t[c]))
  }

  /** What the candidate loop knows after the candidates below `b`, given that every candidate's time is below `NoRoute`. */
  ghost predicate FirstMinSoFar(q: seq<bool>, t: seq<nat>, b: nat, best: int, shortest: nat)
    requires |q| == |t| && b <= |q|
  {
    (best == -1 ==> shortest == NoRoute && forall c :: 0 <= c < b ==> !q[c])
    && (best != -1 ==>
          0 <= best < b && q[best] && shortest == t[best]
          && (forall c :: 0 <= c < b && q[c] ==> shortest <= t[c])
          && (forall c :: 0 <= c < best && q[c] ==> shortest < t[c]))
  }

  /** The scan ends with the first least-time candidate, or -1 when there is none. */
  lemma {:induction false} FirstMinFromIsFirstMin(q: seq<bool>, t: seq<nat>, b: nat, best: int, shortest: nat)
    requires |q| == |t| && b <= |q|
    requires forall c :: 0 <= c < |q| && q[c] ==> t[c] < NoRoute
    requires FirstMinSoFar(q, t, b, best, shortest)
    ensures IsFirstMin(q, t, FirstMinFrom(q, t, b, best, shortest))
    decreases |q| - b
  {
    if b < |q| {
      if q[b] && t[b] < shortest {
        FirstMinFromIsFirstMin(q, t, b + 1, b, t[b]);
      } else {
        FirstMinFromIsFirstMin(q, t, b + 1, best, shortest);
      }
    }
  }

  /** The bus chosen for the single group of bus `i`, or -1. */
  function BestTarget(dist: Dist, origin: Location, buses: seq<Bus>, i: nat, tags: Tags): int
    requires OnBoard(buses, tags) && i < |buses| && |buses[i].groups| == 1
  {
    FirstMinFrom(Candidates(dist, origin, buses, i, tags), Times(dist, origin, buses, i), 0, -1, NoRoute)
  }

  /** The candidate loop ends with the best bus of all, or -1 when none qualifies. */
  ghost predicate IsBestTarget(dist: Dist, origin: Location, buses: seq<Bus>, i: nat, tags: Tags, t: int)
    requires OnBoard(buses, tags) && i < |buses| && |buses[i].groups| == 1
  {
    (t == -1 <==> forall c :: 0 <= c < |buses| ==> !Qualifies(dist, origin, buses, i, c, tags))
    && (t != -1 ==>
          0 <= t < |buses| && Qualifies(dist, origin, buses, i, t, tags)
          && (forall c :: 0 <= c < |buses| && Qualifies(dist, origin, buses, i, c, tags) ==>
                MoveTime(dist, origin, buses, i, t) <= MoveTime(dist, origin, buses, i, c))
          && (forall c :: 0 <= c < t && Qualifies(dist, origin, buses, i, c, tags) ==>
                MoveTime(dist, origin, buses, i, t) < MoveTime(dist, origin, buses, i, c)))
  }

  /**
   * The target chosen for bus `i`: -1 exactly when no bus qualifies;
   * otherwise a qualifying bus with the shortest trip, the first one on ties.
   */
  lemma BestTargetIsBest(dist: Dist, origin: Location, buses: seq<Bus>, i: nat, tags: Tags)
    requires OnBoard(buses, tags) && i < |buses| && |buses[i].groups| == 1
    ensures IsBestTarget(dist, origin, buses, i, tags, BestTarget(dist, origin, buses, i, tags))
  {
    var q, t := Candidates(dist, origin, buses, i, tags), Times(dist, origin, buses, i);
    FirstMinFromIsFirstMin(q, t, 0, -1, NoRoute);
  }

  /** `buses[t].groups.Add(mover)` followed by `buses[i].groups.RemoveAt(0)`. */
  function Move(buses: seq<Bus>, i: nat, t: nat): (r: seq<Bus>)
    requires i < |buses| && t < |buses| && i != t && |buses[i].groups| == 1
    ensures |r| == |buses|
  {
    var mover := buses[i].groups[0];
    var added := buses[t := buses[t].(groups := buses[t].groups + [mover])];
    added[i := added[i].(groups := added[i].groups[1..])]
  }

  /** A move empties the mover's bus and puts the mover behind the groups of the target; no other bus changes. */
  lemma MoveEffect(buses: seq<Bus>, i: nat, t: nat)
    requires i < |buses| && t < |buses| && i != t && |buses[i].groups| == 1
    ensures var r := Move(buses, i, t);
            r[i] == buses[i].(groups := [])
            && r[t] == buses[t].(groups := buses[t].groups + [buses[i].groups[0]])
            && (forall b :: 0 <= b < |buses| && b != i && b != t ==> r[b] == buses[b])
  {
  }

  lemma PlacedBoard(buses: seq<Bus>, t: nat, g: Group)
    requires t < |buses|
    ensures Placed(buses[t := buses[t].(groups := buses[t].groups + [g])]) == Placed(buses) + multiset{g}
  {
    var b := buses[t].(groups := buses[t].groups + [g]);
    PlacedUpdate(buses, t, b);
    assert multiset(b.groups) == multiset(buses[t].groups) + multiset{g};
  }

  lemma PlacedAlight(buses: seq<Bus>, i: nat)
    requires i < |buses| && |buses[i].groups| == 1
    ensures Placed(buses[i := buses[i].(groups := [])]) == Placed(buses) - multiset{buses[i].groups[0]}
  {
    PlacedUpdate(buses, i, buses[i].(groups := []));
    assert buses[i].groups == [buses[i].groups[0]];
  }

  /** A move neither loses nor duplicates a group. */
  lemma MovePlaced(buses: seq<Bus>, i: nat, t: nat)
    requires i < |buses| && t < |buses| && i != t && |buses[i].groups| == 1
    ensures Placed(Move(buses, i, t)) == Placed(buses)
  {
    var mover := buses[i].groups[0];
    var added := buses[t := buses[t].(groups := buses[t].groups + [mover])];
    assert added[i].groups == [mover];
    assert Move(buses, i, t) == added[i := added[i].(groups := [])] by {
      assert added[i].groups[1..] == [];
    }
    PlacedBoard(buses, t, mover);
    PlacedAlight(added, i);
  }

  lemma MoveOnBoard(buses: seq<Bus>, i: nat, t: nat, tags: Tags)
    requires i < |buses| && t < |buses| && i != t && |buses[i].groups| == 1
    requires OnBoard(buses, tags)
    ensures OnBoard(Move(buses, i, t), tags)
  {
    MoveEffect(buses, i, t);
    assert buses[i].groups[0] in buses[i].groups;
  }

  /**
   * A move to a qualifying bus keeps every bus feasible. The seat test is
   * strict, so the target keeps at least one seat free.
   */
  lemma MoveFeasible(dist: Dist, origin: Location, buses: seq<Bus>, i: nat, t: nat, tags: Tags)
    requires OnBoard(buses, tags) && i < |buses| && t < |buses| && |buses[i].groups| == 1
    requires Qualifies(dist, origin, buses, i, t, tags)
    requires AllFeasible(dist, origin, buses)
    ensures AllFeasible(dist, origin, Move(buses, i, t))
    ensures Headcount(Move(buses, i, t)[t].groups) < buses[t].totalSeats
  {
    MoveEffect(buses, i, t);
    var mover := buses[i].groups[0];
    HeadcountConcat(buses[t].groups, [mover]);
    assert Headcount([mover]) == mover.numStudents by {
      assert [mover][..0] == [];
    }
    assert Feasible(dist, origin, buses[t]);
  }

  /** The outer loop's body for bus `i`: a single group moves to the best target, if any. */
  function RepairAt(dist: Dist, origin: Location, buses: seq<Bus>, i: nat, tags: Tags): (r: seq<Bus>)
    requires OnBoard(buses, tags) && i < |buses|
    ensures |r| == |buses| && OnBoard(r, tags)
  {
    if |buses[i].groups| != 1 then buses
    else
      var t := BestTarget(dist, origin, buses, i, tags);
      if t == -1 then buses
      else
        BestTargetIsBest(dist, origin, buses, i, tags);
        MoveOnBoard(buses, i, t, tags);
        Move(buses, i, t)
  }

  /** The outer loop of `moveOnes`, from bus `i` on. */
  function RepairFrom(dist: Dist, origin: Location, buses: seq<Bus>, i: nat, tags: Tags): (r: seq<Bus>)
    requires OnBoard(buses, tags)
    ensures |r| == |buses|
    decreases |buses| - i
  {
    if i >= |buses| then buses
    else RepairFrom(dist, origin, RepairAt(dist, origin, buses, i, tags), i + 1, tags)
  }

  lemma RepairAtKeeps(dist: Dist, origin: Location, buses: seq<Bus>, i: nat, tags: Tags)
    requires OnBoard(buses, tags) && i < |buses| && AllFeasible(dist, origin, buses)
    ensures Placed(RepairAt(dist, origin, buses, i, tags)) == Placed(buses)
    ensures AllFeasible(dist, origin, RepairAt(dist, origin, buses, i, tags))
  {
    if |buses[i].groups| == 1 {
      var t := BestTarget(dist, origin, buses, i, tags);
      if t != -1 {
        BestTargetIsBest(dist, origin, buses, i, tags);
        MovePlaced(buses, i, t);
        MoveFeasible(dist, origin, buses, i, t, tags);
      }
    }
  }

  /**
   * `moveOnes` neither loses nor duplicates a group, and leaves every bus
   * feasible: within its seats and the time limit.
   */
  lemma {:induction false} RepairKeeps(dist: Dist, origin: Location, buses: seq<Bus>, i: nat, tags: Tags)
    requires OnBoard(buses, tags) && AllFeasible(dist, origin, buses)
    ensures Placed(RepairFrom(dist, origin, buses, i, tags)) == Placed(buses)
    ensures AllFeasible(dist, origin, RepairFrom(dist, origin, buses, i, tags))
    decreases |buses| - i
  {
    if i < |buses| {
      RepairAtKeeps(dist, origin, buses, i, tags);
      RepairKeeps(dist, origin, RepairAt(dist, origin, buses, i, tags), i + 1, tags);
    }
  }
}
