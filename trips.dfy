/**
 * Trip times (`totalTime` with one, two and three groups): the shortest
 * drive from the origin, the destination of the first group, through
 * every destination of a clump, capped by the initial `minTime` of 100.
 */
module Trips {
  import opened Entities

  /** A clump is acceptable when its trip takes at most this many minutes. */
  const TimeLimit: nat := 40

  /** The initial value of `minTime` and `timeTaken`: what a trip counts as when no order is computed. */
  const NoRoute: nat := 100

  /** Minutes to drive from `start` through `stops`, in that order. */
  function RouteTime(dist: Dist, start: Location, stops: seq<Location>): nat
    decreases |stops|
  {
    if stops == [] then 0 else dist(start, stops[0]) + RouteTime(dist, stops[0], stops[1..])
  }

  /** The destinations of a list of groups. */
  function Dests(gs: seq<Group>): (r: seq<Location>)
    ensures |r| == |gs|
  {
    seq(|gs|, i requires 0 <= i < |gs| => gs[i].destination)
  }

  /** `route` visits exactly the stops of `stops`, in some order. */
  predicate IsOrder(route: seq<Location>, stops: seq<Location>)
  {
    multiset(route) == multiset(stops)
  }

  /** `if (t < minTime) minTime = t`, applied to each candidate time in turn. */
  function Cheapest(minTime: nat, times: seq<nat>): nat
  {
    if times == [] then minTime
    else Cheapest(if times[0] < minTime then times[0] else minTime, times[1..])
  }

  /** The running minimum is below the start and every candidate, and is one of them. */
  lemma {:induction false} CheapestIsMin(minTime: nat, times: seq<nat>)
    ensures Cheapest(minTime, times) <= minTime
    ensures forall i :: 0 <= i < |times| ==> Cheapest(minTime, times) <= times[i]
    ensures Cheapest(minTime, times) == minTime
            || exists i :: 0 <= i < |times| && Cheapest(minTime, times) == times[i]
  {
    if times != [] {
      var m := if times[0] < minTime then times[0] else minTime;
      CheapestIsMin(m, times[1..]);
      var r := Cheapest(m, times[1..]);
      if r != m {
        var i :| 0 <= i < |times[1..]| && r == times[1..][i];
        assert r == times[i + 1];
      }
      forall i | 0 <= i < |times| ensures r <= times[i] {
        if i > 0 {
          assert times[i] == times[1..][i - 1];
        }
      }
    }
  }

  /** The visiting orders `totalTime(B, C)` tries: ABC, ACB. */
  function OrdersOf2(B: Location, C: Location): seq<seq<Location>>
  {
    [[B, C], [C, B]]
  }

  /** The visiting orders `totalTime(B, C, D)` tries: ABCD, ABDC, ACBD, ACDB, ADBC, ADCB. */
  function OrdersOf3(B: Location, C: Location, D: Location): seq<seq<Location>>
  {
    [[B, C, D], [B, D, C], [C, B, D], [C, D, B], [D, B, C], [D, C, B]]
  }

  /** The candidate times of `totalTime(B, C)`: ABC, ACB. */
  function Times2(dist: Dist, origin: Location, B: Location, C: Location): seq<nat>
  {
    [dist(origin, B) + dist(B, C), dist(origin, C) + dist(C, B)]
  }

  /** The candidate times of `totalTime(B, C, D)`: ABCD, ABDC, ACBD, ACDB, ADBC, ADCB. */
  function Times3(dist: Dist, origin: Location, B: Location, C: Location, D: Location): seq<nat>
  {
    [dist(origin, B) + dist(B, C) + dist(C, D),
     dist(origin, B) + dist(B, D) + dist(D, C),
     dist(origin, C) + dist(C, B) + dist(B, D),
     dist(origin, C) + dist(C, D) + dist(D, B),
     dist(origin, D) + dist(D, B) + dist(B, C),
     dist(origin, D) + dist(D, C) + dist(C, B)]
  }

  /** `totalTime(B)`: straight from the origin to the group. */
  function TotalTime1(dist: Dist, origin: Location, b: Group): nat
  {
    dist(origin, b.destination)
  }

  /** `totalTime(B, C)`: the cheaper of ABC and ACB, starting from 100. */
  function TotalTime2(dist: Dist, origin: Location, b: Group, c: Group): nat
  {
    Cheapest(NoRoute, Times2(dist, origin, b.destination, c.destination))
  }

  /** `totalTime(B, C, D)`: the cheapest of the six orders, starting from 100. */
  function TotalTime3(dist: Dist, origin: Location, b: Group, c: Group, d: Group): nat
  {
    Cheapest(NoRoute, Times3(dist, origin, b.destination, c.destination, d.destination))
  }

  /**
   * The `switch` on the clump size in `fillBuses` (and the two calls in
   * `moveOnes`): any other size leaves the initial 100.
   */
  function TripTime(dist: Dist, origin: Location, clump: seq<Group>): nat
  {
    if |clump| == 1 then TotalTime1(dist, origin, clump[0])
    else if |clump| == 2 then TotalTime2(dist, origin, clump[0], clump[1])
    else if |clump| == 3 then TotalTime3(dist, origin, clump[0], clump[1], clump[2])
    else NoRoute
  }

  lemma SwapsOfTwo(a: Location, b: Location, x: Location, y: Location)
    requires multiset{a, b} == multiset{x, y}
    ensures (a == x && b == y) || (a == y && b == x)
  {
    assert a in multiset{x, y};
    if a == x {
      assert multiset{b} == multiset{a, b} - multiset{a} == multiset{x, y} - multiset{x} == multiset{y};
      assert b in multiset{y};
    } else {
      assert multiset{b} == multiset{a, b} - multiset{a} == multiset{x, y} - multiset{y} == multiset{x};
      assert b in multiset{x};
    }
  }

  lemma DropFirst(a: Location, b: Location, c: Location, y: Location, z: Location)
    requires multiset{a, b, c} == multiset{a, y, z}
    ensures multiset{b, c} == multiset{y, z}
  {
    assert multiset{b, c} == multiset{a, b, c} - multiset{a};
    assert multiset{y, z} == multiset{a, y, z} - multiset{a};
  }

  lemma SwapsOfThree(a: Location, b: Location, c: Location, x: Location, y: Location, z: Location)
    requires multiset{a, b, c} == multiset{x, y, z}
    ensures || (a == x && b == y && c == z) || (a == x && b == z && c == y)
            || (a == y && b == x && c == z) || (a == y && b == z && c == x)
            || (a == z && b == x && c == y) || (a == z && b == y && c == x)
  {
    assert a in multiset{x, y, z} by {
      assert a in multiset{a, b, c};
    }
    if a == x {
      DropFirst(a, b, c, y, z);
      SwapsOfTwo(b, c, y, z);
    } else if a == y {
      assert multiset{x, y, z} == multiset{y, x, z};
      DropFirst(a, b, c, x, z);
      SwapsOfTwo(b, c, x, z);
    } else {
      assert multiset{x, y, z} == multiset{z, x, y};
      DropFirst(a, b, c, x, y);
      SwapsOfTwo(b, c, x, y);
    }
  }

  /** The visiting orders of two stops are the two `totalTime` tries. */
  lemma OrdersOfTwo(route: seq<Location>, x: Location, y: Location)
    requires IsOrder(route, [x, y])
    ensures route in OrdersOf2(x, y)
  {
    assert |route| == 2;
    assert route == [route[0], route[1]];
    assert multiset(route) == multiset{route[0], route[1]};
    SwapsOfTwo(route[0], route[1], x, y);
  }

  /** The visiting orders of three stops are the six `totalTime` tries. */
  lemma OrdersOfThree(route: seq<Location>, x: Location, y: Location, z: Location)
    requires IsOrder(route, [x, y, z])
    ensures route in OrdersOf3(x, y, z)
  {
    assert |route| == 3;
    assert route == [route[0], route[1], route[2]];
    assert multiset(route) == multiset{route[0], route[1], route[2]};
    SwapsOfThree(route[0], route[1], route[2], x, y, z);
  }

  lemma SwapLastTwo(x: Location, y: Location, z: Location)
    ensures multiset([x, z, y]) == multiset([x, y, z])
  {
  }

  lemma SwapFirstTwo(x: Location, y: Location, z: Location)
    ensures multiset([y, x, z]) == multiset([x, y, z])
  {
  }

  lemma RotateLeft(x: Location, y: Location, z: Location)
    ensures multiset([y, z, x]) == multiset([x, y, z])
  {
  }

  lemma RotateRight(x: Location, y: Location, z: Location)
    ensures multiset([z, x, y]) == multiset([x, y, z])
  {
  }

  lemma Reverse3(x: Location, y: Location, z: Location)
    ensures multiset([z, y, x]) == multiset([x, y, z])
  {
  }

  /** Each try is a visiting order. */
  lemma TriesAreOrders2(x: Location, y: Location)
    ensures forall r | r in OrdersOf2(x, y) :: IsOrder(r, [x, y])
  {
    assert multiset([y, x]) == multiset([x, y]);
  }

  lemma TriesAreOrders3(x: Location, y: Location, z: Location)
    ensures forall r | r in OrdersOf3(x, y, z) :: IsOrder(r, [x, y, z])
  {
    var o := OrdersOf3(x, y, z);
    forall r | r in o ensures IsOrder(r, [x, y, z]) {
      var i :| 0 <= i < |o| && o[i] == r;
      if i == 1 {
        SwapLastTwo(x, y, z);
      } else if i == 2 {
        SwapFirstTwo(x, y, z);
      } else if i == 3 {
        RotateLeft(x, y, z);
      } else if i == 4 {
        RotateRight(x, y, z);
      } else if i == 5 {
        Reverse3(x, y, z);
      }
    }
  }

  /** One group: the time of the only route. */
  lemma TripTimeOfOne(dist: Dist, origin: Location, clump: seq<Group>)
    requires |clump| == 1
    ensures TripTime(dist, origin, clump) == RouteTime(dist, origin, Dests(clump))
  {
    assert Dests(clump)[1..] == [];
  }

  /** The time of a two-stop route, leg by leg. */
  lemma RouteTimeOfTwo(dist: Dist, origin: Location, r: seq<Location>)
    requires |r| == 2
    ensures RouteTime(dist, origin, r) == dist(origin, r[0]) + dist(r[0], r[1])
  {
    var r1 := r[1..];
    assert r1[1..] == [];
    assert RouteTime(dist, r1[0], r1[1..]) == 0;
  }

  /** The time of a three-stop route, leg by leg. */
  lemma RouteTimeOfThree(dist: Dist, origin: Location, r: seq<Location>)
    requires |r| == 3
    ensures RouteTime(dist, origin, r) == dist(origin, r[0]) + dist(r[0], r[1]) + dist(r[1], r[2])
  {
    var r1 := r[1..];
    var r2 := r1[1..];
    assert r2[1..] == [];
    assert RouteTime(dist, r2[0], r2[1..]) == 0;
    assert RouteTime(dist, r1[0], r2) == dist(r1[0], r2[0]);
  }

  /**
   * `t` is the shortest trip through `stops` unless that exceeds 100: it
   * is at most 100, no visiting order is faster, and below 100 some order
   * takes exactly `t`.
   */
  ghost predicate IsShortest(dist: Dist, origin: Location, stops: seq<Location>, t: nat)
  {
    && t <= NoRoute
    && (forall route | IsOrder(route, stops) :: t <= RouteTime(dist, origin, route))
    && (t == NoRoute || exists route | IsOrder(route, stops) :: t == RouteTime(dist, origin, route))
  }

  /**
   * When the candidates are the times of the tries, and the tries are
   * exactly the visiting orders, the running minimum from 100 is the
   * shortest trip (or 100).
   */
  lemma ShortestOfTries(dist: Dist, origin: Location, stops: seq<Location>,
                        tries: seq<seq<Location>>, times: seq<nat>)
    requires |tries| == |times|
    requires forall i :: 0 <= i < |tries| ==> RouteTime(dist, origin, tries[i]) == times[i]
    requires forall r | r in tries :: IsOrder(r, stops)
    requires forall route | IsOrder(route, stops) :: route in tries
    ensures IsShortest(dist, origin, stops, Cheapest(NoRoute, times))
  {
    var t := Cheapest(NoRoute, times);
    CheapestIsMin(NoRoute, times);
    forall route | IsOrder(route, stops) ensures t <= RouteTime(dist, origin, route) {
      var i :| 0 <= i < |tries| && tries[i] == route;
    }
    if t != NoRoute {
      var i :| 0 <= i < |times| && t == times[i];
      assert tries[i] in tries;
    }
  }

  /** `totalTime(B, C)` is at most 100 and no order is faster; below 100 it is the time of an order. */
  lemma TwoStops(dist: Dist, origin: Location, b: Group, c: Group)
    ensures IsShortest(dist, origin, [b.destination, c.destination], TotalTime2(dist, origin, b, c))
  {
    var (B, C) := (b.destination, c.destination);
    var tries := OrdersOf2(B, C);
    var times := Times2(dist, origin, B, C);
    forall i | 0 <= i < 2 ensures RouteTime(dist, origin, tries[i]) == times[i] {
      RouteTimeOfTwo(dist, origin, tries[i]);
    }
    TriesAreOrders2(B, C);
    forall route | IsOrder(route, [B, C]) ensures route in tries {
      OrdersOfTwo(route, B, C);
    }
    ShortestOfTries(dist, origin, [B, C], tries, times);
  }

  /** `totalTime(B, C, D)` is at most 100 and no order is faster; below 100 it is the time of an order. */
  lemma ThreeStops(dist: Dist, origin: Location, b: Group, c: Group, d: Group)
    ensures IsShortest(dist, origin, [b.destination, c.destination, d.destination], TotalTime3(dist, origin, b, c, d))
  {
    var (B, C, D) := (b.destination, c.destination, d.destination);
    var tries := OrdersOf3(B, C, D);
    var times := Times3(dist, origin, B, C, D);
    forall i | 0 <= i < 6 ensures RouteTime(dist, origin, tries[i]) == times[i] {
      RouteTimeOfThree(dist, origin, tries[i]);
    }
    TriesAreOrders3(B, C, D);
    forall route | IsOrder(route, [B, C, D]) ensures route in tries {
      OrdersOfThree(route, B, C, D);
    }
    ShortestOfTries(dist, origin, [B, C, D], tries, times);
  }

  /**
   * Two or three groups: the trip time is at most 100, no visiting order
   * of the clump's destinations is faster, and unless it is 100 some
   * order takes exactly that long.
   */
  lemma TripTimeIsShortest(dist: Dist, origin: Location, clump: seq<Group>)
    requires 2 <= |clump| <= 3
    ensures IsShortest(dist, origin, Dests(clump), TripTime(dist, origin, clump))
  {
    if |clump| == 2 {
      assert Dests(clump) == [clump[0].destination, clump[1].destination];
      TwoStops(dist, origin, clump[0], clump[1]);
    } else {
      assert Dests(clump) == [clump[0].destination, clump[1].destination, clump[2].destination];
      ThreeStops(dist, origin, clump[0], clump[1], clump[2]);
    }
  }
}
