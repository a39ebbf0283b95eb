/**
 * Seat bookkeeping: the reservation table `potentialBuses`, `busTaken`,
 * and `Bus.seatsTaken` / `seatsRemaining`, which count the committed
 * groups of a bus and, on request, the groups tentatively reserved for it.
 */
module Seats {
  import opened Entities

  /**
   * `potentialBuses`: entry `[k][j]` is the bus tentatively given to group
   * `j` of clump `k` of the combination being tried, or -1 for none yet.
   */
  type Table = seq<seq<int>>

  /** `busTaken`: does some entry of the table equal `e`? */
  function BusTaken(t: Table, e: int): (r: bool)
    ensures r <==> exists k, j :: 0 <= k < |t| && 0 <= j < |t[k]| && t[k][j] == e
  {
    if t == [] then false
    else if e in t[0] then
      var j :| 0 <= j < |t[0]| && t[0][j] == e;
      true
    else
      var rest := BusTaken(t[1..], e);
      assert rest ==> exists k, j :: 0 <= k < |t| && 0 <= j < |t[k]| && t[k][j] == e by {
        if rest {
          var k, j :| 0 <= k < |t[1..]| && 0 <= j < |t[1..][k]| && t[1..][k][j] == e;
          assert t[k + 1][j] == e;
        }
      }
      assert (exists k, j :: 0 <= k < |t| && 0 <= j < |t[k]| && t[k][j] == e) ==> rest by {
        if exists k, j :: 0 <= k < |t| && 0 <= j < |t[k]| && t[k][j] == e {
          var k, j :| 0 <= k < |t| && 0 <= j < |t[k]| && t[k][j] == e;
          assert k != 0;
          assert t[1..][k - 1][j] == e;
        }
      }
      rest
  }

  /** Every entry of the table names a group of the combination. */
  predicate Fits(t: Table, combo: Combo)
  {
    |t| <= |combo| && forall k :: 0 <= k < |t| ==> |t[k]| <= |combo[k]|
  }

  /** The inner loop of `seatsTaken` over one clump: students whose entry is `b`. */
  function RowSeats(row: seq<int>, clump: Clump, b: int): int
    requires |row| <= |clump|
  {
    if row == [] then 0
    else (if row[0] == b then clump[0].numStudents else 0) + RowSeats(row[1..], clump[1..], b)
  }

  /** The nested loop of `seatsTaken`: students of every group whose entry is `b`. */
  function ReservedSeats(t: Table, combo: Combo, b: int): int
    requires Fits(t, combo)
  {
    if t == [] then 0 else RowSeats(t[0], combo[0], b) + ReservedSeats(t[1..], combo[1..], b)
  }

  /** The groups of one clump whose entry is `b`, in order. */
  function RowGroups(row: seq<int>, clump: Clump, b: int): (r: seq<Group>)
    requires |row| <= |clump|
    ensures forall g | g in r :: exists j :: 0 <= j < |row| && row[j] == b && clump[j] == g
    ensures forall j :: 0 <= j < |row| && row[j] == b ==> clump[j] in r
  {
    if row == [] then []
    else
      var rest := RowGroups(row[1..], clump[1..], b);
      assert forall j :: 1 <= j < |row| ==> row[j] == row[1..][j - 1] && clump[j] == clump[1..][j - 1];
      (if row[0] == b then [clump[0]] else []) + rest
  }

  /** The groups of the combination whose entry is `b`, clump by clump. */
  function ReservedGroups(t: Table, combo: Combo, b: int): (r: seq<Group>)
    requires Fits(t, combo)
    ensures forall g | g in r ::
              exists k, j :: 0 <= k < |t| && 0 <= j < |t[k]| && t[k][j] == b && combo[k][j] == g
    ensures forall k, j :: 0 <= k < |t| && 0 <= j < |t[k]| && t[k][j] == b ==> combo[k][j] in r
  {
    if t == [] then []
    else
      var here, rest := RowGroups(t[0], combo[0], b), ReservedGroups(t[1..], combo[1..], b);
      forall g | g in here + rest
        ensures exists k, j :: 0 <= k < |t| && 0 <= j < |t[k]| && t[k][j] == b && combo[k][j] == g
      {
        if g in here {
          var j :| 0 <= j < |t[0]| && t[0][j] == b && combo[0][j] == g;
        } else {
          var k, j :| 0 <= k < |t[1..]| && 0 <= j < |t[1..][k]| && t[1..][k][j] == b && combo[1..][k][j] == g;
          assert t[k + 1][j] == b && combo[k + 1][j] == g;
        }
      }
      forall k, j | 0 <= k < |t| && 0 <= j < |t[k]| && t[k][j] == b ensures combo[k][j] in here + rest {
        if k > 0 {
          assert t[1..][k - 1][j] == b && combo[1..][k - 1][j] == combo[k][j];
        }
      }
      here + rest
  }

  lemma {:induction false} RowSeatsAreRowGroups(row: seq<int>, clump: Clump, b: int)
    requires |row| <= |clump|
    ensures RowSeats(row, clump, b) == Headcount(RowGroups(row, clump, b))
  {
    if row != [] {
      RowSeatsAreRowGroups(row[1..], clump[1..], b);
      var first: seq<Group> := if row[0] == b then [clump[0]] else [];
      HeadcountConcat(first, RowGroups(row[1..], clump[1..], b));
      assert Headcount(first) == if row[0] == b then clump[0].numStudents else 0 by {
        if row[0] == b {
          assert first[..0] == [];
        }
      }
    }
  }

  /** The loop's sum is the headcount of exactly the groups reserved for `b`. */
  lemma {:induction false} ReservedSeatsAreReservedGroups(t: Table, combo: Combo, b: int)
    requires Fits(t, combo)
    ensures ReservedSeats(t, combo, b) == Headcount(ReservedGroups(t, combo, b))
  {
    if t != [] {
      RowSeatsAreRowGroups(t[0], combo[0], b);
      ReservedSeatsAreReservedGroups(t[1..], combo[1..], b);
      HeadcountConcat(RowGroups(t[0], combo[0], b), ReservedGroups(t[1..], combo[1..], b));
    }
  }

  lemma {:induction false} RowUnreserved(row: seq<int>, clump: Clump, b: int)
    requires |row| <= |clump| && b !in row
    ensures RowGroups(row, clump, b) == []
  {
    if row != [] {
      assert b !in row[1..];
      RowUnreserved(row[1..], clump[1..], b);
    }
  }

  /** A bus no entry names has no group reserved for it. */
  lemma {:induction false} UntakenHasNoReservations(t: Table, combo: Combo, b: int)
    requires Fits(t, combo) && !BusTaken(t, b)
    ensures ReservedGroups(t, combo, b) == []
    ensures ReservedSeats(t, combo, b) == 0
  {
    ReservedSeatsAreReservedGroups(t, combo, b);
    if t != [] {
      RowUnreserved(t[0], combo[0], b);
      UntakenHasNoReservations(t[1..], combo[1..], b);
    }
  }

  /**
   * `Bus.seatsTaken(potBus, busindex, clusterindex, comboindex)`, with the
   * cluster and combination indices resolved to `combo`: the committed
   * groups, plus the reserved ones unless `busIndex` is the sentinel -1.
   */
  function SeatsTaken(bus: Bus, t: Table, busIndex: int, combo: Combo): (r: int)
    requires busIndex != -1 ==> Fits(t, combo)
    ensures busIndex == -1 ==> r == Headcount(bus.groups)
    ensures busIndex != -1 ==> r == Headcount(bus.groups) + Headcount(ReservedGroups(t, combo, busIndex))
  {
    if busIndex != -1 then
      ReservedSeatsAreReservedGroups(t, combo, busIndex);
      Headcount(bus.groups) + ReservedSeats(t, combo, busIndex)
    else
      Headcount(bus.groups)
  }

  /** `Bus.seatsRemaining`: capacity minus `seatsTaken`. */
  function SeatsRemaining(bus: Bus, t: Table, busIndex: int, combo: Combo): (r: int)
    requires busIndex != -1 ==> Fits(t, combo)
    ensures busIndex == -1 ==> r == bus.totalSeats - Headcount(bus.groups)
    ensures busIndex != -1 ==>
              r == bus.totalSeats - Headcount(bus.groups) - Headcount(ReservedGroups(t, combo, busIndex))
  {
    bus.totalSeats - SeatsTaken(bus, t, busIndex, combo)
  }
}
