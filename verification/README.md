# Placement and clock tree engines of OpenROAD, modelled in Dafny

The model covers the algorithmic cores of three tools: the detailed placement optimiser (`src/dpo`), the legaliser
with its checker and its fillers (`src/dpl`), and clock tree synthesis (`src/cts`). Objects whose methods update their
fields are classes, their loops are loops; what a whole operation must achieve is a function or a predicate on values,
and the main results are lemmas about those and the methods' `ensures` clauses.

**Placement optimiser.** `Netlist`, `Intervals` and `Hpwl` hold the wirelength and the four incremental prices of a
move. `Coloring`, `MisColoring`, `MisGrid`, `IndependentSet`, `Matching`, `MatchingRuns` and `Mis` are the
independent-set matcher: cells of one colour share no counted net, so their costs add up, and a match trades places;
`MatchingBest` says what a match achieves, `MatchingExact` and `MatchingPins` when it can lose. `InterleaveSpec`,
`InterleaveTable`, `InterleaveSolve`, `InterleaveBuild`, `InterleaveClamp`, `Interleave`, `InterleaveWindows` and
`InterleaveSegment` are the row interleaver, from one table entry up to a whole segment; `InterleaveModel`,
`InterleaveTies`, `InterleavePadding` and `InterleaveRun` say what it does to padding that differs between a cell's
sides. `Utilization` and `Abu` are the bin utilisation objective with its undo, `UtilizationCover` and
`UtilizationCost` what its covers and its cost mean. `Median` and `OptimalRegion` find the region where a cell's nets
are shortest. `RowMerge` merges and fills the intervals of a row, `RowGroups` says which subrows make which row,
`RowArchitecture` builds the rows and finds the closest one.

**Legaliser.** `LegalGrid` is the grid of sites and its arithmetic, `LegalSearch` what a search finds, `LegalStart`
what its start and its window mean, `LegalPlace` what placing and shifting do in which order, `LegalMoves` what
refining and swapping do to cells and displacements, `Legalizer` the tool itself. `LegalExact` says when those keep
what they promise. `CheckPlacement` is the overlap sweep, `Fillers` the greedy filler, `FillersExact` the finite test
of when it misses nothing.

**Clock tree.** `ClockTree` has nets as values: when they are a tree, how deep a net hangs, what each edit does to
both. `ClockNet` has the subnets with their index, `ClockSplice` the buffer chains, `PostCts` the repair of long
wires, `LevelSpec`, `LevelLeaves`, `LevelSteps`, `LevelProgress` and `LevelBalancer` the balancing of all sinks to one
depth. `Theta` is the space-filling curve, `SinkClusters` the rotating clusterer, `BufferOdometer` the walk over all
buffer sizes.

## Where the code promises less than it seems to

Each of these is stated as an if-and-only-if over all inputs, with an input on the failing side.

- Matching with costs cut down to integers never loses wirelength on cells with whole edges, one pin on a net and
  pins on multiples of 1/q if and only if q is 1 (`MatchingExact.NeverLosesIff`). Pins are taken at the centres of
  their shapes, so q can be 2: `TruncationLoses` has three unit cells for which every cheapest assignment loses the
  fraction of a pin's offset.
- A match of cells with at most k pins on a net always adds less than one unit of wirelength a cell if and only if k
  is 1, because costs count a net once a pin (`MatchingPins.LosesLessIff`); what the cells pay by that count always
  rises by less.
- A refining move always lowers the total displacement if and only if the cell has no left padding: the distance
  test prices the padded corner, the paint puts the cell right of it (`LegalExact.RefineLowersIff`).
- A swap never stops in the middle if and only if both cells' paddings add up to the same width; it leaves cells
  on suitable sites if and only if also the groups agree; it changes the displacement by what was tested, and
  lowers it, if and only if the left paddings agree (`LegalExact.Swap...Iff`).
- A search starts with its cell inside the core, whatever the cell wishes, if and only if the last site and the last
  row it could start on are less than half a step from the end: rounding goes up (`LegalStart.StartsInsideIff`).
- The overlap check reports exactly the cells that overlap an earlier one if and only if no cell that is no block is
  listed between two blocks: a block is not compared with what an earlier block hides (`CheckPlacement.ExactIff`).
  Whether anything is reported is right always (`CheckPlacement.VerdictIsRight`).
- The greedy filler fills every gap if and only if there is a one-site filler, and every gap but single sites if and
  only if there is that or both a two- and a three-site filler (`Fillers.Library`). It fills every gap that can be
  filled at all if and only if the widest filler spoils no gap up to the square of its width
  (`FillersExact.CompleteExactlyWhen`); four and three sites fail on a gap of six.
- The walk over buffer sizes visits every combination, none twice, and describes each one right if and only if
  the first listed buffer is the first by name; otherwise it visits exactly the buffers not before it
  (`BufferOdometer.VisitAll`).
- A row merged from several subrows spans exactly its intervals if and only if the first listed of its lowest subrows
  is the leftmost and the span is a whole number of that one's sites: its left end is never set
  (`RowGroups.SpansExactlyWhen`, with two subrows listed right to left in `MissesLeftSubrow`).
- The region for a cell always gives the least wirelength, for cells with at most k pins on a net, if and only if k
  is at most 1: a net pulls once for each pin. A cell with two pins on a net to 0 and one on each of two nets to 100
  has the whole line for its region, though 0 is worse than 100 (`OptimalRegion.RangeIsBestIff`).
- No accepted window of the interleaver ever breaks padding that was kept if and only if each cell has the same
  padding on both sides (`InterleavePadding.KeepsPaddingIff`): a cell is put in the middle of its slot. A cell
  that then stands left of the next window's limits makes that window misjudge the nets, so that a run of two windows
  can make them longer (`InterleaveRun.RunRises`).

## Model

| member | source | states |
|---|---|---|
| `LevelBalancing.LevelBalancer.Run` | src/cts/src/LevelBalancer.cpp:48-55 | after measuring and fixing, every sink that is no gate, of the root and of every builder behind gates, is exactly as deep as the deepest was, every clock keeps its pins, as many buffers are counted as nets were made, and a net is marked as a leaf exactly when it has pins of no known gate, if it was so before |
| `LevelBalancing.LevelBalancer.ComputeMaxTreeDepth` | src/cts/src/LevelBalancer.cpp:57-80 | the depth of the deepest nested sink, and for each gate of each nested builder what hangs below it, entered in the map; a builder driven by a port counts for the depth and gets no entry |
| `LevelBalancing.LevelBalancer.AddBufferLevels` | src/cts/src/LevelBalancer.cpp:82-127 | exactly a chain of fresh buffers below the net with the cluster at its end, and nothing else; counts the buffers and marks the nets: all but the last as no leaves, the last as one when the cluster has a pin of no known gate |
| `LevelBalancing.LevelBalancer.FixTreeLevels` | src/cts/src/LevelBalancer.cpp:129-193 | balances a builder and all builders behind its gates to the given depth, however deep it hangs itself; each clock keeps its pins and the nets of others are untouched |
| `ClockNet.SubNet.AddInst` | src/cts/src/Clock.h:122-126 | appends an instance, listed before or not; the index stays the exact inverse of the list exactly when it was not |
| `ClockNet.SubNet.ReplaceSink` | src/cts/src/Clock.h:130-136 | puts the new instance where the old one stands; the index stays the exact inverse exactly when the new one was not on the net |
| `ClockNet.SubNet.RemoveSinks` | src/cts/src/Clock.h:138-153 | keeps the driver, even if listed, and the other sinks in their order; the index is exact again |
| `ClockTree.SpliceTree` | src/cts/src/HTreeBuilder.cpp:1000-1005 | one buffer in front of one sink keeps the nets a tree; the new net is one below the old one |
| `ClockSplice.SegmentBuilder.Build` | src/cts/src/HTreeBuilder.cpp:960-1018 | all wires and buffers of a segment, with or without a sink, give exactly the chain of as many buffers as the wires have |
| `ClockSplice.SegmentBuilder.ForceBufferInSegment` | src/cts/src/HTreeBuilder.cpp:1020-1036 | one buffer exactly when the segment had none |
| `ClockSplice.ChainTree` | src/cts/src/HTreeBuilder.cpp:960-1018 | such a chain keeps a tree a tree, every sink a sink, and adds only buffers |
| `ClockSplice.ChainDepth` | src/cts/src/LevelBalancer.cpp:82-127 | the end of a chain of n buffers is exactly n deeper than where it was built |
| `ClockSplice.ChainDepths` | src/cts/src/HTreeBuilder.cpp:960-1018 | a chain in front of a sink that drives nothing moves no other net |
| `PostCts.PostCtsOpt.InitSourceSinkDists` | src/cts/src/PostCtsOpt.cpp:52-79 | the distance of every sink of a leaf net is noted, and their sum, which the average is made of, is that over all leaf nets |
| `PostCts.Repair.OutlierIsFar` | src/cts/src/PostCtsOpt.cpp:94-110 | a sink is given buffers exactly when as many distances like its own as there are sinks come to more than five times the sum of all |
| `PostCts.PostCtsOpt.FixLongWire` | src/cts/src/PostCtsOpt.cpp:112-160 | as many wires as whole characterised lengths fit the distance; splices exactly the chain of their buffers in front of the sink |
| `PostCts.PostCtsOpt.FixNetSourceSinkDists` | src/cts/src/PostCtsOpt.cpp:94-110 | going through a net's sinks while splicing into it meets each of them once and counts its outliers; in a leaf net each sink ends deeper by its own number of buffers and no other net moves |
| `PostCts.PostCtsOpt.FixSourceSinkDists` | src/cts/src/PostCtsOpt.cpp:81-110 | over all leaf nets the clock stays a tree and keeps all sinks; if leaf nets' sinks drive nothing, each of them ends deeper by exactly the buffers its own wire gets, and no other sink or net moves |
| `Theta.ComputeTheta` | src/cts/src/SinkClustering.cpp:105-123 | ends for every point with power-of-two denominators, with a result in [0, 1) |
| `Theta.OwnQuarter` | src/cts/src/SinkClustering.cpp:105-141 | the curve visits one quadrant after the other: each point's theta lies on its quadrant's quarter of the circle |
| `Theta.QuadrantsInTurn` | src/cts/src/SinkClustering.cpp:125-141 | the curve goes up from the first quadrant, then right, then down, then back left: quadrants in turn share a side |
| `Theta.NoPointTwice` | src/cts/src/SinkClustering.cpp:105-123 | two points with up to 52 binary places and the same theta are one point |
| `SinkClusters.SinkClustering.FindBestMatching` | src/cts/src/SinkClustering.cpp:155-355 | solution j is the order rotated by j, cut into clusters that keep the limits, a new one being opened exactly when the next point would break one, with its cost counted right; the first of the cheapest is chosen |
| `SinkClusters.RotationPartitions` | src/cts/src/SinkClustering.cpp:155-355 | hence every point is in exactly one cluster of every solution |
| `SinkClusters.Task.JoiningFits` | src/cts/src/SinkClustering.cpp:357-367 | a point that breaks no limit can join: size and all pairwise distances, or the total capacitance, stay within the limits |
| `SinkClusters.Task.LimitIsBroken` | src/cts/src/SinkClustering.cpp:357-367 | a limit counts as exceeded exactly when, by diameter, the cluster is full or one of its points is too far from the new one; by capacitance, when its pins and its wires to the new point come to more than the maximum |
| `BufferOdometer.UpdateBufferTopologies` | src/cts/src/TechChar.cpp:952-1020 | one step of a counter with carry, on the instances and on the names in the description |
| `BufferOdometer.NextCounts` | src/cts/src/TechChar.cpp:952-1020 | read as a number the step adds one and wraps at the end |
| `BufferOdometer.VisitAll` | src/cts/src/TechChar.cpp:1167-1236 | visits exactly the combinations of buffers not named before the first listed one; all of them, none twice, each described right, if and only if that is the first by name |
| `HpwlObjective.DetailedHpwl.Curr` | src/dpo/src/detailed_hpwl.cxx:99-133 | the full recount over nets with 2 to 99 pins |
| `HpwlObjective.DetailedHpwl.DeltaMany` | src/dpo/src/detailed_hpwl.cxx:137-261 | exactly the wirelength before minus the wirelength after, over the whole netlist, with the cells put back |
| `HpwlObjective.DetailedHpwl.DeltaOne` | src/dpo/src/detailed_hpwl.cxx:265-325 | the same for one cell |
| `HpwlObjective.DetailedHpwl.DeltaSwap` | src/dpo/src/detailed_hpwl.cxx:336-409 | the same for two cells that exchange places |
| `HpwlObjective.DetailedHpwl.DeltaTwo` | src/dpo/src/detailed_hpwl.cxx:413-485 | the same for two cells with given targets |
| `HpwlObjective.DeltaIsLocal` | src/dpo/src/detailed_hpwl.cxx:137-261 | counting each net of the moved cells once gives the change of the total |
| `HpwlObjective.DetailedHpwl.Improve` | src/dpo/src/detailed_global.cxx:185-228 | over any run of tried moves each is kept exactly when the wirelength after it is no more than before; the running total is the recount, and it never rises |
| `OptimalRegion.GlobalSwap.CalculateEdgeBB` | src/dpo/src/detailed_global.cxx:313-339 | the box of a net without one cell; fails exactly when nobody else is on the net |
| `OptimalRegion.GlobalSwap.GetRange` | src/dpo/src/detailed_global.cxx:232-309 | every place of the returned box is in the chip, and no place in the chip is cheaper, each net counted once a pin; with one pin a net, none gives less wirelength |
| `OptimalRegion.MedianIsOptimal` | src/dpo/src/detailed_global.cxx:296-306 | what lies between the middle two box ends, clamped to the chip, is cheapest over the chip |
| `OptimalRegion.RangeIsBestIff` | src/dpo/src/detailed_global.cxx:232-309 | no place of the region ever gives more wirelength than another place in the chip, for cells with at most k pins on a net, if and only if k is at most 1 |
| `Median.MiddleIsBest` | src/dpo/src/detailed_global.cxx:296-306 | nothing is nearer to an even number of points than what lies between the middle two |
| `RowMerge.Merge` | src/dpo/src/architecture.cxx:187-208 | separated intervals with exactly the union of the given ones |
| `RowMerge.FillGaps` | src/dpo/src/architecture.cxx:227-253 | fillers and intervals together tile the width without overlap; fillers have the given height |
| `RowArchitecture.Architecture.PostProcess` | src/dpo/src/architecture.cxx:132-265 | one row for each height, the heights and the subrows of each being those the given rows determine, made from the first listed of the lowest; its intervals are the union of its subrows and with the fillers tile the whole width |
| `RowGroups.SpansExactlyWhen` | src/dpo/src/architecture.cxx:210-225 | a merged row spans exactly its intervals if and only if, of the given rows near its height, the first listed of the lowest is the leftmost and the span is a whole number of its sites |
| `RowGroups.MissesLeftSubrow` | src/dpo/src/architecture.cxx:210-225 | two subrows listed right to left make a row that does not cover the left one |
| `RowArchitecture.Architecture.FindClosestRow` | src/dpo/src/architecture.cxx:269-294 | the row nearest to a height, the lower of two equally near |
| `Coloring.Graph.AddEdge` | src/dpo/src/color.h:53-56 | adds the edge in both directions and nothing else |
| `Coloring.Graph.RemoveDuplicates` | src/dpo/src/color.h:57-63 | the same neighbours, each listed once, in rising order |
| `Coloring.Graph.GreedyColoring` | src/dpo/src/color.h:65-95 | gives each vertex in turn the smallest colour no earlier neighbour has, though marks are never cleared, so a proper colouring with at most as many colours below a vertex's as it has neighbours; the reported number of colours is the largest colour plus one |
| `MisColoring.ColorCells` | src/dpo/src/detailed_mis.cxx:275-339 | each movable cell in turn has the smallest colour of no earlier one that shares a counted net with it, so movable cells of one colour share no counted net |
| `MisGrid.SearchGrid.Populate` | src/dpo/src/detailed_mis.cxx:392-417 | every candidate is in the bin over its centre and in no other, each bin in the order of the candidates |
| `MisGrid.SearchGrid.BinCovers` | src/dpo/src/detailed_mis.cxx:392-417 | the bin of a centre inside the grid covers it |
| `MisGrid.SearchGrid.Gather` | src/dpo/src/detailed_mis.cxx:436-532 | the seed and, bin after bin outwards from its own by steps to a neighbouring bin, the compatible cells of each, until the limit is reached; distinct, and none missed when it is not |
| `Mis.DetailedMis.GetHpwl` | src/dpo/src/detailed_mis.cxx:740-782 | the wirelength of a cell's nets if it stood elsewhere |
| `IndependentSet.CostsAddUp` | src/dpo/src/detailed_mis.cxx:740-782 | the true wirelength change of moving independent cells with one pin on a net together is the sum of the changes of that cost, each alone |
| `Mis.DetailedMis.CostMatrix` | src/dpo/src/detailed_mis.cxx:536-727 | the truncated cost of every gathered cell on every gathered spot |
| `Mis.DetailedMis.MoveCells` | src/dpo/src/detailed_mis.cxx:536-727 | the cost recounted while cells move one by one, in any order, is what it was before anybody moved |
| `Mis.DetailedMis.CompatibleIsSameKind` | src/dpo/src/detailed_mis.cxx:467-514 | a cell is matched with the seed exactly when it is another of its colour and they agree in width, height, region and power |
| `Mis.DetailedMis.SolveMatch` | src/dpo/src/detailed_mis.cxx:536-727 | when the solver assigns spots for the truncated costs of two or more cells, each cell stands exactly where its assigned cell stood; otherwise nobody moves. What they pay, each net once a pin, rises by at most one unit a cell, or not at all on whole costs; with one pin on a net so does the wirelength |
| `MatchingBest.MatchIsBest` | src/dpo/src/detailed_mis.cxx:536-727 | after a match by a cheapest solver no other spread of the cells over their spots pays less by one unit a cell, and none at all if costs are whole; with one pin on a net the same holds of the wirelength |
| `Matching.MatchingBound` | src/dpo/src/detailed_mis.cxx:536-727 | for a cost matrix of independent cells, any assignment no dearer than staying raises what they pay by less than one unit a cell; with one pin on a net that is exactly the change of the wirelength |
| `MatchingExact.NeverLosesIff` | src/dpo/src/detailed_mis.cxx:536-727 | with whole cell edges, one pin on a net and pins on multiples of 1/q no cheapest assignment ever loses if and only if q is 1 |
| `MatchingExact.TruncationLoses` | src/dpo/src/detailed_mis.cxx:536-727 | three unit cells on whole corners, a pin at offset f in each, 0 < f < 1: every cheapest assignment loses exactly f |
| `MatchingPins.LosesLessIff` | src/dpo/src/detailed_mis.cxx:536-782 | with at most k pins of a cell on a net every cheapest assignment adds less than one unit a cell if and only if k is 1 |
| `MatchingPins.TwoPinsLose` | src/dpo/src/detailed_mis.cxx:536-782 | two unit cells, one with two pins on its net: every cheapest assignment adds four units |
| `MatchingRuns.FootprintsConserved` | src/dpo/src/detailed_mis.cxx:536-727 | trading places among cells of one kind keeps the multiset of occupied spots with what kind of cell is on each |
| `Mis.DetailedMis.Place` | src/dpo/src/detailed_mis.cxx:217-258 | a pass is a sequence of rounds, one for each seed used less than twice so far: what is gathered around it is matched and counted as used. The occupied spots stay the same multiset, kind by kind; with one pin on a net the wirelength rises by at most one unit for each time a cell was matched, never in a whole-number design |
| `InterleaveTable.TableEntry.Add` | src/dpo/src/detailed_interleaving.cxx:198-212 | the incremental update is the specified step |
| `InterleaveSpec.EntryIsRecount` | src/dpo/src/detailed_interleaving.cxx:174-221 | after any order of cells the kept left edge, net boxes and cost are those recounted from scratch |
| `InterleaveTable.FillTable` | src/dpo/src/detailed_interleaving.cxx:739-780 | every entry of the table stands for the best-of-two order of its prefixes, along its parents |
| `InterleaveTable.ReadBack` | src/dpo/src/detailed_interleaving.cxx:787-809 | the order read back along the parents is the one the last entry stands for |
| `InterleaveTable.BestInterleaves` | src/dpo/src/detailed_interleaving.cxx:714-780 | that order takes all cells of both lists, each list in its own order |
| `InterleaveSolve.PassesImprove` | src/dpo/src/detailed_interleaving.cxx:716-817 | any number of passes rearranges the cells and never costs more |
| `InterleaveSolve.EveryOther` | src/dpo/src/detailed_interleaving.cxx:716-735 | a pass splits the order into every other cell, from the first and from the second |
| `InterleaveSolve.SmallProblem.Solve` | src/dpo/src/detailed_interleaving.cxx:665-820 | leaves the cells packed in an order that costs exactly what is returned, and no more than the sorted order did |
| `InterleaveClamp.ClampWidth` | src/dpo/src/detailed_interleaving.cxx:626-647 | clamping the outside terminals to the window shifts a net's width by an amount that does not depend on the cells inside |
| `InterleaveClamp.WindowChange` | src/dpo/src/detailed_interleaving.cxx:626-647 | hence the true total wirelength changes by exactly the change of the small problem's cost |
| `InterleaveBuild.Enlarge` | src/dpo/src/detailed_interleaving.cxx:550-563 | the window grown site by site, right and left while the limits allow, until there is room or no way to grow |
| `InterleaveBuild.Bloat` | src/dpo/src/detailed_interleaving.cxx:565-611 | the reserved widths, cell after cell given its share of whole sites while they fit the window |
| `InterleaveBuild.SharesFit` | src/dpo/src/detailed_interleaving.cxx:565-611 | a cell's share of spare width is as many whole sites as all cells can have, or one |
| `Interleave.Room` | src/dpo/src/detailed_interleaving.cxx:528-619 | cells that stand apart within the limits always get room, so the failure is never met |
| `Interleave.Build` | src/dpo/src/detailed_interleaving.cxx:476-650 | the small problem is the window's: its nets, pins, clamped boxes and widths |
| `Interleave.DetailedInterleave.OptimizeWindow` | src/dpo/src/detailed_interleaving.cxx:420-463 | an accepted window has its cells packed apart between the limits; if they stood apart there before, the true wirelength is strictly lower; a rejected one changes nothing |
| `InterleaveSegment.SortFinds` | src/dpo/src/detailed_interleaving.cxx:464-467 | sorting by position finds the new order of the cells, whatever order the sort takes |
| `InterleaveSegment.TryWindow` | src/dpo/src/detailed_interleaving.cxx:389-468 | one window between the limits its neighbours and their padding leave: accepted if and only if the order found is cheaper, and then the cells and the order of the segment are the new ones |
| `InterleaveSegment.RunSegment` | src/dpo/src/detailed_interleaving.cxx:366-470 | every window of the segment is tried, in order: in each longest run of single-height cells one from every step-th cell on, pulled back at the run's end, if it has five cells or more; each leaves the cells and their order as it found or as it rearranged them. Cells stay apart by their own widths, whatever the padding, and no other cell moves; where the padding is the same on both sides and the padded cells stand apart, they still do and the wirelength never rises |
| `InterleaveWindows.EveryCellInWindow` | src/dpo/src/detailed_interleaving.cxx:378-400 | every cell of a run of at least five is in some window when windows are no shorter than the step |
| `InterleavePadding.KeepsPaddingIff` | src/dpo/src/detailed_interleaving.cxx:420-467 | for any list of the cells' left and right paddings, no accepted window of such cells ever breaks padding if and only if each cell has the same on both sides |
| `InterleaveRun.RunRises` | src/dpo/src/detailed_interleaving.cxx:388-468 | ten cells standing apart with padding on the right only: every outcome of two windows of five makes the nets longer |
| `AbuObjective.DetailedAbu.Curr` | src/dpo/src/detailed_abu.cxx:560-581 | the objective from scratch; bins, buckets and totals then track the placement |
| `UtilizationCost.BucketIsTenth` | src/dpo/src/detailed_abu.cxx:430-449 | a bin is in the bucket of the tenth to which it is full, the last for all above, and in none exactly when it is at most a fifth of a unit square or at most a fifth of it is free |
| `UtilizationCost.CostOfTenths` | src/dpo/src/detailed_abu.cxx:560-581 | the objective is the sum over the tenths above the target of how full on average the bins there are |
| `UtilizationCost.CostsNothingIff` | src/dpo/src/detailed_abu.cxx:560-581 | a placement costs nothing if and only if nothing covers any bin whose tenth is above the target |
| `UtilizationCost.OneOver` | src/dpo/src/detailed_abu.cxx:560-581 | one bin alone above the target costs exactly how full it is |
| `AbuObjective.DetailedAbu.UpdateBins` | src/dpo/src/detailed_abu.cxx:693-744 | adds or takes off exactly what a cell covers of each bin, recording each bin before it first changes |
| `UtilizationCover.CoversAddUp` | src/dpo/src/detailed_abu.cxx:693-744 | what a cell covers of all bins is the part of it that is in the chip, if no overlap is a sliver |
| `UtilizationCover.SpacesAddUp` | src/dpo/src/detailed_abu.cxx:430-449 | the free areas of all bins and what fixed objects take of them are together the chip |
| `AbuObjective.DetailedAbu.Delta` | src/dpo/src/detailed_abu.cxx:585-652 | exactly the objective before minus the objective after |
| `AbuObjective.DetailedAbu.RejectBins` | src/dpo/src/detailed_abu.cxx:754-785 | utilisations, buckets and totals are exactly what they were |
| `AbuObjective.DetailedAbu.Run` | src/dpo/src/detailed_abu.cxx:585-785 | over any run of priced moves, each accepted or rejected, the running cost is the recount of the accepted placement |
| `Utilization.Chip.MoveChanges` | src/dpo/src/detailed_abu.cxx:693-744 | taking off old covers and adding new ones gives the moved placement's utilisation |
| `Utilization.Chip.Rebucketed` | src/dpo/src/detailed_abu.cxx:401-449 | what moving one bin between buckets does to the buckets' contents and totals |
| `AbuObjective.DetailedAbu.SortChanged` | src/dpo/src/detailed_abu.cxx:612-633 | moving every changed bin from the bucket of its old utilisation to that of its new one leaves all buckets and totals those of the current utilisations |
| `LegalGrid.Core.FootOfPaint` | src/dpl/src/Opendp.cpp:500-603 | the sites found from a painted cell's location are exactly those painted |
| `LegalStart.SitesNeeded` | src/dpl/src/Opendp.cpp:500-515 | a cell takes the least numbers of sites and of rows that hold it with its padding |
| `LegalGrid.FootprintsDisjoint` | src/dpl/src/Grid.cpp:350-389 | on a consistent grid footprints of different placed cells never meet |
| `Legalizer.Opendp.SetFixedGridCells` | src/dpl/src/Grid.cpp:181-196 | a site under fixed cells has the last of them; all other sites are as before |
| `Legalizer.Opendp.ErasePixel` | src/dpl/src/Grid.cpp:332-347 | exactly the cell's own sites are free again |
| `Legalizer.Opendp.PaintPixel` | src/dpl/src/Grid.cpp:350-389 | succeeds exactly when all its sites are free; then exactly these are the cell's |
| `Legalizer.Opendp.CheckPixels` | src/dpl/src/Place.cpp:848-871 | accepts only sites in the grid that are free, valid and of the cell's group |
| `Legalizer.Opendp.BinSearch` | src/dpl/src/Place.cpp:803-844 | the bin's place nearest the near side that passes the check, none if there is none |
| `Legalizer.Opendp.DiamondSearchSide` | src/dpl/src/Place.cpp:775-800 | keeps the nearest of the places found so far in the ring, the earlier on ties |
| `Legalizer.Opendp.SearchRing` | src/dpl/src/Place.cpp:740-768 | the nearest place of one whole ring |
| `Legalizer.Opendp.DiamondSearch` | src/dpl/src/Place.cpp:695-772 | the place at the target or else the nearest of the first ring that has one; none exactly when no ring within the limits has a place |
| `LegalSearch.Rules.SearchedOnce` | src/dpl/src/Place.cpp:695-772 | that describes one outcome only |
| `Legalizer.Opendp.MoveHopeless` | src/dpl/src/Place.cpp:947-998 | off a site where nothing fits, to the specified one straight left, right, below or above |
| `LegalSearch.Rules.HopelessNearest` | src/dpl/src/Place.cpp:947-998 | no valid site in those four directions is nearer |
| `Legalizer.Opendp.LegalGridPt` | src/dpl/src/Place.cpp:1006-1055 | where a search starts: the padded wish moved into the core, off macros and off hopeless sites |
| `LegalStart.StartIsNearest` | src/dpl/src/Place.cpp:872-893 | a point is moved as little as needed for the cell to be inside the core, and then to the nearest site corner |
| `LegalStart.StartsInsideIff` | src/dpl/src/Place.cpp:872-893 | that is inside the core for every wish if and only if the room of the cell is less than half a step past a corner in both directions |
| `LegalStart.OffNearestSide` | src/dpl/src/Place.cpp:903-942 | a cell with a point in common with the macro on its start is moved beside the nearest of the four sides, ties east, south, north, west; any other stays |
| `LegalStart.GroupWindow` | src/dpl/src/Place.cpp:695-730 | the window of a grouped cell's search is what is in reach inside the boundary of the group, if anything is |
| `LegalStart.WindowIsReach` | src/dpl/src/Place.cpp:695-730 | for any other cell it is all the grid in reach |
| `LegalStart.BinIsNearest` | src/dpl/src/Place.cpp:775-800 | a bin of the diamond begins where it is meant to, or as near to it as the window goes |
| `LegalStart.DistanceInUnits` | src/dpl/src/Place.cpp:775-800 | places are compared by their distance in database units |
| `Legalizer.Opendp.MapMove` | src/dpl/src/Place.cpp:568-582 | puts the cell exactly where the search ends, owning those sites, and changes nothing else; painting it never meets an owned site |
| `Legalizer.Opendp.ShiftMove` | src/dpl/src/Place.cpp:585-625 | takes exactly the cells around the start that are grouped if it is, and ungrouped if it is not, off the grid, puts the cell where its search then ends and then each of the others; fails exactly when one of these finds no place. On success nobody lost a place, and the grid is consistent |
| `Legalizer.Opendp.RefineMove` | src/dpl/src/Place.cpp:657-679 | moves exactly when the search's result passes the distance test, and then to that; without left padding the total displacement falls |
| `LegalExact.RefineLowersIff` | src/dpl/src/Place.cpp:657-690 | every refining move lowers the total displacement if and only if the left padding is zero |
| `Legalizer.Opendp.SwapCells` | src/dpl/src/Place.cpp:628-654 | swaps exactly when two different movable cells of equal size are not on hold and the tested distances fall; stops in the middle exactly when one has no room; two placed cells with equal left padding strictly lower the total displacement |
| `LegalExact.SwapHasRoomIff` | src/dpl/src/Place.cpp:628-654 | no swap stops in the middle if and only if the paddings add up to the same |
| `LegalExact.SwapSuitsIff` | src/dpl/src/Place.cpp:628-654 | and all cells stay on suitable sites if and only if also the groups agree |
| `LegalExact.SwapExactIff` | src/dpl/src/Place.cpp:628-690 | the displacement changes by what the test added up if and only if the left paddings agree |
| `LegalExact.SwapLowersIff` | src/dpl/src/Place.cpp:628-690 | and falls if and only if they agree |
| `Legalizer.Opendp.Anneal` | src/dpl/src/Place.cpp:497-511 | the pairs are tried in turn and swapped exactly when wanted; any sequence in which movable cells of equal size are placed, of one group and equally wide with their padding keeps the grid consistent, other pairs being skipped; if equal-sized cells have equal left padding each swap lowers the total |
| `Legalizer.Opendp.SortByArea` | src/dpl/src/Place.cpp:319-327 | the same cells, larger ones first, by number on ties |
| `Legalizer.Opendp.Place` | src/dpl/src/Place.cpp:275-311 | the ungrouped movable cells have their turns, those of several rows first, then by area, then by number: each goes where its search ends on the grid of its turn or, if that ends with nothing, is shifted in. It stops if a turn gets stuck, or before the first if a cell is larger than the core; otherwise all are placed on their own free, valid sites, and no grouped or fixed cell moved |
| `LegalPlace.TurnOrderOnce` | src/dpl/src/Place.cpp:275-311 | there is one such order |
| `LegalPlace.FirstTakesItsPlace` | src/dpl/src/Place.cpp:275-311 | the first in it takes the place its search finds on the starting grid, if it finds one |
| `CheckPlacement.OverlapShares` | src/dpl/src/CheckPlacement.cpp:216-237 | cells that overlap geometrically share a site |
| `CheckPlacement.OverlapIsCommonSquare` | src/dpl/src/CheckPlacement.cpp:216-237 | cells overlap exactly when some unit square is covered by both, and not both are blocks |
| `CheckPlacement.PlacementChecker.CheckOverlap` | src/dpl/src/CheckPlacement.cpp:199-213 | a cell just painted is reported exactly when it overlaps an earlier one that was the first on some site of its |
| `CheckPlacement.PlacementChecker.CheckOverlaps` | src/dpl/src/CheckPlacement.cpp:63-81 | the sweep reports exactly those cells, so nothing exactly when no two cells overlap |
| `CheckPlacement.VerdictIsRight` | src/dpl/src/CheckPlacement.cpp:197-237 | no cell is reported exactly when no two cells overlap |
| `CheckPlacement.ExactIff` | src/dpl/src/CheckPlacement.cpp:197-237 | exactly the cells that overlap an earlier one are reported, wherever they lie, if and only if no cell that is no block is listed between two blocks |
| `Fillers.FillerPlacer.GapFillers` | src/dpl/src/FillerPlacement.cpp:156-183 | the greedy filling of the gap or nothing, whatever was asked before; it sums to the gap |
| `Fillers.FillerPlacer.PlaceRowFillers` | src/dpl/src/FillerPlacement.cpp:85-136 | succeeds exactly when every free run fills; then each run has the fillers of its greedy choice, in that order, each free site is under exactly one filler and no other site under any; sure with one-site fillers, or two- and three-site fillers and no lone site |
| `Fillers.Library.GreedyFills` | src/dpl/src/FillerPlacement.cpp:164-182 | a filling found fills exactly |
| `Fillers.Library.FillsEveryGap` | src/dpl/src/FillerPlacement.cpp:156-183 | every gap fills if and only if there is a one-site filler |
| `Fillers.Library.FillsAllButSingleSites` | src/dpl/src/FillerPlacement.cpp:156-183 | every gap but a single site fills if and only if there is that or both a two- and a three-site filler |
| `FillersExact.CompleteExactlyWhen` | src/dpl/src/FillerPlacement.cpp:156-183 | every gap that can be filled is filled if and only if, for the gaps up to the square of the widest width, taking the widest filler leaves nothing or a gap that can be filled |
| `FillersExact.FourAndThreeFail` | src/dpl/src/FillerPlacement.cpp:156-183 | fillers of four and three sites fail the test: a gap of six can be filled and is not |

## Left out

- Doubles: coordinates, costs and areas are exact reals; rounding and overflow are not modelled. The tolerances
  and truncations the code writes out are.
- The assignment solver of the matcher: any permutation whose integer cost is at most that of staying; nothing of
  how it is found. `MatchingBest` and `MatchingExact` take it to be a cheapest one, as the solver promises.
- The random choices of annealing and of the optimiser's move generators: any sequence of pairs or moves.
- Hash and pointer order, and the order of equal elements in unstable sorts: any order.
- `DetailedMgr` with its segments, and the legality tests of moves made there.
- Optimality of the interleaving table: it is a heuristic, and only never loses.
- InterleaveSegment.RunSegment: promises padding and wirelength over a run only for padding that is the same on both
  sides of a cell, because the code keeps neither otherwise (`InterleavePadding.KeepsPaddingIff`,
  `InterleaveRun.RunRises`).
- Cell orientation and the power rail chosen when a cell is painted; the rail test of the search is modelled.
- Obstructions of type OVERLAP, rotated macros, and fractional site use when group regions are set up: the grid
  begins with any assignment of validity, groups and hopeless sites.
- Legalizer.Opendp.PaintPixel: the code reads past its grid for a cell that sticks out; the model stops there as it
  does on an owned site.
- Legalizer.Opendp.LegalGridPt: a start outside the grid after the move off a macro counts as not hopeless; the code
  reads past its grid there.
- Placement of groups (`placeGroups2`, `brickPlace1`, `brickPlace2`, `groupRefine`).
- CheckPlacement.PlacementChecker.CheckOverlaps: for cells in the core, on site corners and without padding; the
  padded comparison and the checks of rows, rails and regions are left out.
- LevelBalancing.LevelBalancer.Run: assumes what the tree builders establish: each gate has one sink pin and drives
  at most one child builder, recorded levels are the sinks' depths, and clocks of different builders are different
  objects. Builders driven by a port are measured but not balanced, as in the code.
- Names and net wiring in the database of clock buffers; where an instance is stays a parameter.
- Timing characterisation with its slew and capacitance tables: which wire is fastest for a slew and a capacitance is
  a parameter. K-means clustering, H-tree topology and its wire lengths.
- OptimalRegion.GlobalSwap.GetRange: promises least wirelength for cells with at most one pin on a net, because the code
  counts a net once a pin (`OptimalRegion.RangeIsBestIff`).
- Mis.DetailedMis.Place: promises wirelength for cells with at most one pin on a net, because the code counts a net
  once a pin (`MatchingPins.LosesLessIff`). The matcher's other objective, displacement, is left out.
- Theta.ComputeTheta: for points with power-of-two denominators, which all doubles have; one third, which no double
  is, folds to itself for ever (`Theta.ThirdNeverEnds`).
- BufferOdometer.VisitAll: for topologies with a buffer; those of wire alone are looked at once.
- Logging, Tcl and Python commands, the graphical interface and file output.
