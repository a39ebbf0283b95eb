# Bus assignment engine — a Dafny model

This project models the core of a school field-trip bus planner. Groups of
students each have one destination. A k-means labelling gathers nearby
groups into clusters. Every cluster's members are enumerated into
*combinations*: partitions into *clumps* of at most three groups, where a
clump is one bus load. `fillBuses` then tries each cluster's combinations
in a fixed order. It takes the first combination whose every clump has a
trip of at most 40 minutes and can be given its own unused bus with enough
seats, and commits it. `moveOnes` afterwards moves the group of a
single-group bus onto a bus of another cluster when the trip stays within
the limit. The final count sets `validSolution` to false when some group
was left off every bus.

The model is split into modules that follow the program:

- `Seqs`: sequence helpers.
- `Entities`: `Group` as a class, `Cluster` and `Bus` as values, and the two `CompareTo` methods.
- `Partitioning`: `GetAllPartitions`, `GetTuplePartitions`, `lessThanFour` and the filtered combinations.
- `Sorting`: the orders `fillBuses` applies.
- `Trips`: the three `totalTime` overloads.
- `Seats`: the reservation table, `busTaken`, `seatsTaken` and `seatsRemaining`.
- `Packing`: `fillBuses` as specification functions and what they guarantee.
- `Repair`: `moveOnes` as specification functions and what they guarantee.
- `Clustering`: `kMeansToClusters` and `splitCluster` on values.
- `Assignment`: the program's static state as the class `Engine`. Its methods fall into three kinds:
  - **State-changing methods proved equal to a specification function.** `KMeansToClusters` and `SplitCluster` compute the clusters that `Labelled` and `SplitOff` give. `ResetTable`, `ReserveClump`, `ReserveCombo`, `CommitCombo`, `FillCluster`, `PackClusters` and `FillBuses` compute `EmptyTable`, `FirstFit`, `Reserve`, `Commit`, `PackCluster`, `PackAll` and `FillBusesSpec`. `MoveOnes` computes `RepairFrom`, and `CreateCombinations` computes `Combinations`. `CheckSolution` sets `validSolution` from the count of placed groups.
  - **Methods that only read the state and return a value.** `FitsTimeLimit` returns `WithinTimeLimit`, `ClumpSum` returns `Headcount`, `JourneyTime` returns `TripTime` and `FindTarget` returns `BestTarget`. The static method `RankEach` returns `RankAll`, and `RepairBus` returns `RepairAt`.
  - **Composite methods proved to have properties rather than to equal a function.** These are `CombineAll`, `BuildClusters`, `PackAndRepair` and `Assign`. Their properties are conserved members, combinations that cover their cluster, bounds on the placed groups, feasible buses, and the three guarantees below.

The end-to-end property is `Assignment.Engine.Assign`. Once the k-means labels are given, it guarantees three things:
- every bus carries at most its seats and its trip takes at most 40 minutes;
- no group is placed more often than it occurs in the input, so none is placed twice when the input groups are distinct objects;
- `validSolution` stays true exactly when every group is on a bus.

Travel times are a total function `Dist` from a pair of locations to whole
minutes. The first group's destination is the origin of every trip.

## Model

| member | source | states |
|---|---|---|
| Entities.Group.constructor | newfuncs2/newfuncs2/Program.cs:127-132 | a new group has the given destination, cluster tag and student count |
| Entities.CompareClusters | newfuncs2/newfuncs2/Program.cs:103-117 | the result is -1, 0 or 1; negative exactly when the first cluster has fewer members, positive exactly when it has more |
| Entities.CompareBuses | newfuncs2/newfuncs2/Program.cs:161-176 | the result is -1, 0 or 1; negative exactly when the first bus has fewer seats, positive exactly when it has more |
| Entities.CompareAntisymmetric | newfuncs2/newfuncs2/Program.cs:103-117 | swapping the arguments of either comparison negates the result |
| Entities.HeadcountConcat | newfuncs2/newfuncs2/Program.cs:182-186 | the students of two group lists together are the sum of each list's students |
| Partitioning.Split | newfuncs2/newfuncs2/Program.cs:52-61 | one pattern's split: the first block starts with the first element, and the two blocks together are as long as the input |
| Partitioning.DistributeInterleaves | newfuncs2/newfuncs2/Program.cs:55-58 | the bit-driven distribution keeps every element once and keeps the input order within each block |
| Partitioning.DistributeSecondNonEmpty | newfuncs2/newfuncs2/Program.cs:48-58 | a non-zero pattern below 2^n sends some element to the second block |
| Partitioning.DistributeHead | newfuncs2/newfuncs2/Program.cs:57 | the lowest pattern bit is 0 exactly when the first remaining element goes to the first block |
| Partitioning.DistributeInjective | newfuncs2/newfuncs2/Program.cs:48-58 | on distinct elements, two patterns below 2^n that give the same first block are the same pattern |
| Partitioning.SplitInterleaves | newfuncs2/newfuncs2/Program.cs:52-61 | the two blocks of a split hold every element once, each block in the input order |
| Partitioning.SplitInjective | newfuncs2/newfuncs2/Program.cs:48-61 | on distinct elements, different patterns give different first blocks |
| Partitioning.InterleavingMultiset | newfuncs2/newfuncs2/Program.cs:52-58 | an interleaving holds exactly the elements of its two blocks |
| Partitioning.InterleavingDistinct | newfuncs2/newfuncs2/Program.cs:52-58 | the blocks of an interleaving of distinct elements are duplicate-free and disjoint |
| Partitioning.SplitsDistinct | newfuncs2/newfuncs2/Program.cs:48-62 | for distinct elements, all the two-block splits have different first blocks |
| Partitioning.TuplePartitions | newfuncs2/newfuncs2/Program.cs:41-63 | nothing for fewer than two elements; otherwise 2^(n-1) - 1 splits, each with two non-empty blocks, the first starting with the first element, together an interleaving of the input, and with pairwise different first blocks when the input is duplicate-free |
| Partitioning.PartitionsShape | newfuncs2/newfuncs2/Program.cs:19-39 | every result of the recursive enumeration is the fixed parts followed by a partition of the suffix |
| Partitioning.RefinementsShape | newfuncs2/newfuncs2/Program.cs:29-38 | every partition from the split loop extends the fixed parts with one of the splits' first blocks |
| Partitioning.PartitionsDistinct | newfuncs2/newfuncs2/Program.cs:19-39 | for a duplicate-free suffix, the enumeration never yields the same partition twice |
| Partitioning.RefinementsDisjoint | newfuncs2/newfuncs2/Program.cs:29-38 | partitions obtained from different first blocks never coincide |
| Partitioning.RefinementsDistinct | newfuncs2/newfuncs2/Program.cs:29-38 | the split loop yields no partition twice |
| Partitioning.GetAllPartitions | newfuncs2/newfuncs2/Program.cs:14-39 | the first partition is the whole input as one block; every result is a partition of the input into non-empty blocks; no partition is repeated when the input is duplicate-free |
| Partitioning.LessThanFour | newfuncs2/newfuncs2/Program.cs:69-79 | true exactly when every block has at most three members |
| Partitioning.KeepSmall | newfuncs2/newfuncs2/Program.cs:444 | the filter keeps exactly the partitions that pass `lessThanFour`, and no more copies of any than there were |
| Partitioning.KeepSmallConcat | newfuncs2/newfuncs2/Program.cs:444 | the filter keeps the enumeration order |
| Partitioning.Combinations | newfuncs2/newfuncs2/Program.cs:438-445 | every combination partitions the members into clumps of at most three; for at most three members the first is all members in one clump; combinations are pairwise different when the members are |
| Sorting.SortBy | newfuncs2/newfuncs2/Program.cs:474-483 | the sort result is ordered by its key and is a permutation of the input |
| Sorting.ClustersDescending | newfuncs2/newfuncs2/Program.cs:474 | sorted clusters are a permutation in which `Cluster.CompareTo` never increases, so the largest cluster comes first |
| Sorting.CombosOrdered | newfuncs2/newfuncs2/Program.cs:477-480 | sorted combinations are a permutation with fewer clumps first, among equal counts more three-group clumps first, and combinations with equal keys in their enumeration order |
| Sorting.SortByStable | newfuncs2/newfuncs2/Program.cs:479 | the sort is stable: for every key, the elements with that key keep their relative order |
| Sorting.BusesAscending | newfuncs2/newfuncs2/Program.cs:483 | sorted buses are a permutation in which `Bus.CompareTo` never decreases, so the smallest bus comes first |
| Trips.CheapestIsMin | newfuncs2/newfuncs2/Program.cs:390-400 | the running minimum is at most its start and every candidate, and equals the start or one of the candidates |
| Trips.TriesAreOrders3 | newfuncs2/newfuncs2/Program.cs:409-431 | the six routes tried by `totalTime(B, C, D)` all visit exactly B, C and D |
| Trips.OrdersOfThree | newfuncs2/newfuncs2/Program.cs:409-431 | every order of B, C and D is among the six routes tried |
| Trips.OrdersOfTwo | newfuncs2/newfuncs2/Program.cs:392-398 | every order of B and C is among the two routes tried |
| Trips.ShortestOfTries | newfuncs2/newfuncs2/Program.cs:387-434 | when the candidates are exactly all visiting orders, the running minimum from 100 is the shortest trip, or 100 |
| Trips.TwoStops | newfuncs2/newfuncs2/Program.cs:387-401 | `totalTime(B, C)` is the shortest trip from the origin through both stops, capped at 100 |
| Trips.ThreeStops | newfuncs2/newfuncs2/Program.cs:404-434 | `totalTime(B, C, D)` is the shortest trip from the origin through all three stops, capped at 100 |
| Trips.TripTimeOfOne | newfuncs2/newfuncs2/Program.cs:378-384 | `totalTime(B)` is the drive from the origin to B |
| Trips.TripTimeIsShortest | newfuncs2/newfuncs2/Program.cs:500-514 | the time check's trip for a clump of two or three groups is the shortest trip through their stops, capped at 100 |
| Seats.BusTaken | newfuncs2/newfuncs2/Program.cs:608-621 | true exactly when some entry of the table equals the element |
| Seats.RowGroups | newfuncs2/newfuncs2/Program.cs:193-203 | a row's reserved groups are exactly the clump's groups whose entry names the bus |
| Seats.ReservedGroups | newfuncs2/newfuncs2/Program.cs:191-204 | the reserved groups of a bus are exactly the combination's groups whose table entry names it |
| Seats.ReservedSeatsAreReservedGroups | newfuncs2/newfuncs2/Program.cs:191-204 | the table scan's sum is the students of the reserved groups |
| Seats.UntakenHasNoReservations | newfuncs2/newfuncs2/Program.cs:191-204 | a bus that no entry names has nothing reserved |
| Seats.SeatsTaken | newfuncs2/newfuncs2/Program.cs:179-207 | with the -1 sentinel, the students on board; otherwise those plus the students of the groups reserved for the bus |
| Seats.SeatsRemaining | newfuncs2/newfuncs2/Program.cs:209-212 | the seats minus what `seatsTaken` counts, for both the sentinel and the table case |
| Packing.EmptyTable | newfuncs2/newfuncs2/Program.cs:538-550 | one row per clump and one -1 entry per group |
| Packing.FirstFit | newfuncs2/newfuncs2/Program.cs:565-581 | the first bus that is unused, unreserved and has room for the clump, or -1 when none has |
| Packing.ReserveSound | newfuncs2/newfuncs2/Program.cs:554-582 | after the clump loop each row names one bus or none; a named bus is unused and has room for its clump; no bus is named twice |
| Packing.CommitEffect | newfuncs2/newfuncs2/Program.cs:584-595 | when no entry is -1, each clump's bus gets the clump appended and is marked used; every other bus is unchanged, a used bus in particular |
| Packing.CommitPlaced | newfuncs2/newfuncs2/Program.cs:587-594 | the commit places every group of the combination exactly once and nothing else |
| Packing.CommitFeasible | newfuncs2/newfuncs2/Program.cs:584-595 | committing a combination that passed the time check keeps every bus within its seats and the time limit |
| Packing.PackClusterEffect | newfuncs2/newfuncs2/Program.cs:490-603 | a cluster is packed all or nothing: either the buses are unchanged or exactly its members are added; used buses are untouched and every bus stays feasible |
| Packing.PackAllEffect | newfuncs2/newfuncs2/Program.cs:487-604 | packing all clusters only adds groups, at most the clusters' members, and keeps every bus feasible |
| Packing.SortedBuses | newfuncs2/newfuncs2/Program.cs:483 | sorting the buses keeps which groups are on board and keeps them feasible |
| Packing.RankedClusters | newfuncs2/newfuncs2/Program.cs:474-480 | the two sorts keep the members of the clusters and the fact that every combination partitions them |
| Packing.FillBusesEffect | newfuncs2/newfuncs2/Program.cs:470-605 | `fillBuses` keeps the number of buses and the clusters' members, only adds groups, adds at most the clusters' members, and leaves every bus feasible |
| Repair.FirstMinFromIsFirstMin | newfuncs2/newfuncs2/Program.cs:334-364 | the candidate scan ends with -1 exactly when nothing qualifies, else with a qualifying bus of least time, the first one on ties |
| Repair.BestTargetIsBest | newfuncs2/newfuncs2/Program.cs:334-364 | the chosen bus is -1 exactly when no bus qualifies; otherwise it qualifies, no qualifying bus has a shorter trip, and every earlier qualifying bus has a longer one |
| Repair.MoveEffect | newfuncs2/newfuncs2/Program.cs:366-372 | the group joins the end of the target bus and leaves its own bus empty; no other bus changes |
| Repair.MovePlaced | newfuncs2/newfuncs2/Program.cs:366-372 | a move neither loses nor duplicates a group |
| Repair.MoveFeasible | newfuncs2/newfuncs2/Program.cs:337-372 | moving the group onto a qualifying bus keeps every bus within its seats and the time limit; the seat test is strict (fewer students than free seats), so the target keeps at least one seat free |
| Repair.RepairAtKeeps | newfuncs2/newfuncs2/Program.cs:328-373 | one pass of the outer loop keeps the placed groups and feasibility |
| Repair.RepairKeeps | newfuncs2/newfuncs2/Program.cs:321-375 | `moveOnes` neither loses nor duplicates a group and leaves every bus feasible |
| Clustering.WithLabelMembers | newfuncs2/newfuncs2/Program.cs:255-259 | a group is appended to cluster k exactly when one of its positions carries label k |
| Clustering.LabelledMembers | newfuncs2/newfuncs2/Program.cs:252-260 | every cluster receives, in order, exactly the groups labelled with its index, and nothing else changes |
| Clustering.LabelledAllMembers | newfuncs2/newfuncs2/Program.cs:252-260 | the labelling adds each group to the clusters exactly once |
| Clustering.KeptMembers | newfuncs2/newfuncs2/Program.cs:299-306 | the split keeps exactly the members not labelled 1 |
| Clustering.MovedMembers | newfuncs2/newfuncs2/Program.cs:299-306 | the split moves exactly the members labelled 1 |
| Clustering.SplitConserves | newfuncs2/newfuncs2/Program.cs:299-306 | kept and moved members together are the old members, none lost or duplicated |
| Clustering.SplitOffKeepsMembers | newfuncs2/newfuncs2/Program.cs:297-311 | a split changes where groups are held, not which groups nor how often |
| Assignment.UnusedPlacesNothing | newfuncs2/newfuncs2/Program.cs:214-218 | freshly built buses carry nothing and are feasible |
| Assignment.CountDecides | newfuncs2/newfuncs2/Program.cs:843-852 | when no group is placed more often than it exists, the group count reaches the number of groups exactly when every group is placed |
| Assignment.LabelsTag | newfuncs2/newfuncs2/Program.cs:252-260 | clusters filled from empty by a labelling hold each group under the index its tag names |
| Assignment.Engine.constructor | newfuncs2/newfuncs2/Program.cs:657-662 | the initial state: the groups, the travel times, empty clusters, one empty unused bus per capacity, an empty table, and a valid solution |
| Assignment.Engine.KMeansToClusters | newfuncs2/newfuncs2/Program.cs:252-260 | the clusters become the labelling's clusters; for distinct groups each tag becomes its label, and starting from empty clusters every group sits in the cluster its tag names |
| Assignment.Engine.SplitCluster | newfuncs2/newfuncs2/Program.cs:276-316 | the members labelled 1 leave for a new last cluster, in reverse order, and are tagged with its index; the rest stay in order |
| Assignment.Engine.FitsTimeLimit | newfuncs2/newfuncs2/Program.cs:493-531 | true exactly when every clump's trip takes at most 40 minutes |
| Assignment.Engine.ClumpSum | newfuncs2/newfuncs2/Program.cs:559-563 | the students of the clump |
| Assignment.Engine.ResetTable | newfuncs2/newfuncs2/Program.cs:538-550 | the table becomes one row per clump, all entries -1; nothing else changes |
| Assignment.Engine.ReserveClump | newfuncs2/newfuncs2/Program.cs:554-581 | the clump's row is set to the first bus that fits it, or stays -1; nothing else changes |
| Assignment.Engine.ReserveCombo | newfuncs2/newfuncs2/Program.cs:538-582 | the table becomes the reservation of the combination against the current buses |
| Assignment.Engine.CommitCombo | newfuncs2/newfuncs2/Program.cs:587-594 | the buses become the commit of the combination by the table |
| Assignment.Engine.FillCluster | newfuncs2/newfuncs2/Program.cs:490-603 | the buses and table become the packing of the cluster's combinations |
| Assignment.Engine.RankEach | newfuncs2/newfuncs2/Program.cs:477-480 | every cluster's combinations are sorted; nothing else changes |
| Assignment.Engine.PackClusters | newfuncs2/newfuncs2/Program.cs:487-604 | the buses and table become the packing of all clusters in order |
| Assignment.Engine.FillBuses | newfuncs2/newfuncs2/Program.cs:470-605 | the clusters, buses and table become what the specification of `fillBuses` gives |
| Assignment.Engine.JourneyTime | newfuncs2/newfuncs2/Program.cs:343-361 | the trip of the target bus with the single group boarding last |
| Assignment.Engine.FindTarget | newfuncs2/newfuncs2/Program.cs:328-364 | the chosen target is the best qualifying bus as `BestTargetIsBest` characterises it, or -1 |
| Assignment.Engine.RepairBus | newfuncs2/newfuncs2/Program.cs:330-373 | one pass of the outer loop of `moveOnes` |
| Assignment.Engine.MoveOnes | newfuncs2/newfuncs2/Program.cs:321-375 | the buses become the repair of the old buses under the cluster tags; nothing else changes |
| Assignment.Engine.CreateCombinations | newfuncs2/newfuncs2/Program.cs:438-466 | the cluster's combinations become the filtered partitions of its members, each of which partitions them |
| Assignment.Engine.CombineAll | newfuncs2/newfuncs2/Program.cs:827-833 | every cluster gets its combinations and the members stay put |
| Assignment.Engine.BuildClusters | newfuncs2/newfuncs2/Program.cs:814-833 | after the labelling and the combinations, the clusters hold every group exactly once and every combination partitions its cluster |
| Assignment.Engine.PackAndRepair | newfuncs2/newfuncs2/Program.cs:835-839 | `fillBuses` then `moveOnes` only add groups, add at most the clusters' members, and leave every bus feasible |
| Assignment.Engine.CheckSolution | newfuncs2/newfuncs2/Program.cs:843-852 | the solution stays valid exactly when it was valid and the buses carry at least as many groups as exist |
| Assignment.Engine.Assign | newfuncs2/newfuncs2/Program.cs:811-852 | every bus is feasible at the end, no group is placed more often than it exists, and the solution stays valid exactly when every group is on a bus |

## Left out

- `runKMeans` (Program.cs:225-249) calls the Accord k-means library. The labels it computes are an input to `KMeansToClusters`, `BuildClusters` and `Assign`. The two-way labels it computes inside `splitCluster` are an input to `SplitCluster`.
- `findLargeClusters` (Program.cs:264-274) is not modelled. Its loop ends only if the external k-means keeps producing splits that shrink the cluster, which nothing here can state.
- Assignment.Engine.Assign: goes straight from `kMeansToClusters` to the combinations loop without `findLargeClusters`. It matches `Main` when no cluster has more than ten members.
- `outputBuses` (Program.cs:623-654) and every console message are output only and are not modelled.
- `Main`'s data tables of locations, groups, capacities and travel times (Program.cs:664-794) become the constructor's parameters.
- A `Location` is an index. Its address, coordinates and `distTo` dictionary are not modelled. Travel times are a total function, so the missing-key exception of the dictionary is not modelled.
- Travel times and seat sums are `double` in the source and whole numbers here. The source's times come from a whole-minute table, and seat sums add integer student counts.
- `int` arithmetic is unbounded. The 32-bit overflow of student sums is not modelled.
- The exceptions the source would raise on an out-of-range index are not modelled: a label outside the cluster list, or more labels than groups. The methods require indices in range instead.
- `seatsTaken` receives the combination itself instead of a cluster and combination index. The source's three -1 sentinels are always passed together, so they become one sentinel `busIndex == -1`.
- Lazily produced sequences (`yield return`, `Where`, `ToList`) are computed eagerly as sequences in the same order.
- Partitioning.TuplePartitions: the count 2^(n-1) - 1 is stated with unbounded integers. In the source, `1 << (n - 1)` and `pattern >> (index - 1)` are 32-bit shifts whose count is taken modulo 32. From 32 elements on, the bound wraps and the source yields no split or an arbitrary few. `Main` keeps clusters at ten members or fewer, far below that.
- Partitioning.GetAllPartitions: completeness is not proved. The model does not state that every partition of the input appears, nor that their number is the Bell number.
- Sorting.SortBy: `List.Sort` is unstable, but the model sorts stably. Only the order by key and the permutation are stated; the order among equal keys is not claimed for the cluster and bus sorts. The combination sort is the stable LINQ `OrderBy`, and its tie order is stated by `Sorting.CombosOrdered`.
- `Bus` and `Cluster` are values held in sequences rather than shared objects. The source never puts one bus or cluster object in two places, so there is no aliasing to lose. `Group` stays a class, and its `cluster` tag is updated in place.
- Assignment.Engine.MoveOnes: works on a local copy of the bus list and stores it back at the end. It reads the groups' cluster tags through a snapshot taken at the start; `moveOnes` changes no tag, so the snapshot agrees with the tags throughout.
- Assignment.Engine.SplitCluster: does not state that the tags still name the holding cluster afterwards. It states only that the moved groups carry the new cluster's index.
