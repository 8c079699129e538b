# GitComet core: verified model

A Dafny 4.11 model of five parts of the `gitcomet-core` crate, with proofs of what each part is for.
`dafny verify dfyconfig.toml` checks the whole project.

**The text-diff engine** (`file_diff.rs`). A line is an opaque value with equality, and an edit script
is a list of kept, deleted and inserted lines. Modelled and proved are the O(ND) search over one
frontier array with its triangular trace (`Myers`, `GreedyScripts`), the patience recursion with its anchors
(`Patience`, `PatienceAnchors`, `IncreasingSubsequence`), the linear-time fallbacks
(`LinearFallback`), edit distance by a single-row table and by 128-bit words (`Levenshtein`,
`Words`, `BitParallel`, `Scratch`), the price of showing one line beside another (`PairCost`),
the cheapest alignment of a replaced block (`Alignment`, `ReplacementAlign`), the planner that turns
edit scripts into side-by-side runs (`PlanRuns`, `Planner`), hunks and their application (`Hunks`), and
the resolution of byte ranges to whole UTF-8 characters (`Utf8`, `Utf8Encoding`, `Utf8Slices`). The main result that
spans them: for files of less than 1,024 lines in all, the inline view of the plan has exactly
n + m - LCS rows, besides the one for a missing newline at the end of a file, and no plan that
shows both files completely has fewer.

**The commit-history index** (`history_index.rs`). A builder class accepts commits and finishes flat
tables; the queries are proved to answer what a walk over the list of pushed commits would answer
(`HistoryTables`, `HistorySort`, `HistoryBuilder`, `HistoryLookup`, `HistoryKeyed`,
`HistoryReference`, `HistoryText`, over `ByteOrder`). A projection hides rows (`HistoryProjections`), and after a
refresh every visible row is anchored at its nearest survivor (`Survivors`).

**The Git-runtime probe protocol** (`process.rs`). `RuntimeProtocol` is a state machine over
unboundedly many outstanding requests whose steps are the four critical sections; `RuntimeSlots` is the
slot as it is updated in place, each method proved to be the corresponding step.

**Row-to-run coalescing** (`merge.rs`): `AlignedRuns`.

**Ignore-file patterns** (`gitignore.rs`): `GitignorePatterns`, `GitignoreMatches` and `GitignoreAppends`.

Loops, arrays and objects of the program are loops, arrays and classes here; each is proved against
a recursive or declarative specification, and the results about that specification are lemmas.
Where the code and its comments differ the code is followed. The claim in `merge.rs` that a replacement
block is kept whole fails for a block with a row, not its first, that is present only on the side that is
strictly lower by then: `AlignedRuns.ForcedBlockKeptWhole` proves that it fails for exactly those blocks,
`PinnedBlockIsTorn` gives a plan with one block, `NeighbourIsTorn` one with neighbouring blocks, and
`PinnedNeighbourIsWhole` a block that stays whole although it follows another conflict. The claim that
corresponding lines always sit at the same visual height holds in every plan with three inputs
(`ThreeWayRowsLevel`); with two it fails for exactly those pairs that a one-sided row precedes in their
run (`PairLevel`, with such a plan in `NeighbourIsNotLevel`). Appending to an ignore file rewrites no
byte of it, as `gitignore.rs` says; but the reading of lines by which the code decides what is present
(`str::lines`) takes a carriage return before a line feed for part of the line ending, so an unfinished
last line that ends in one is read differently once a bare line feed follows
(`GitignoreAppends.AppendKeepsLines` says exactly when, `StrayCarriageReturnIsLost` gives such a file).

## Model

| member | source | states |
|---|---|---|
| EditScripts.ValidConcat | crates/gitcomet-core/src/file_diff.rs:2635-2777 | Correct scripts for consecutive regions concatenate to a correct script whose cost is the sum; this is what lets the recursion glue its parts together |
| InsDelDistance.DistLowerBound | crates/gitcomet-core/src/file_diff.rs:3029-3214 | No correct script for two prefixes has fewer insertions and deletions than the recursively defined distance |
| InsDelDistance.DistIsMinimal | crates/gitcomet-core/src/file_diff.rs:3029-3214 | A script whose cost is the distance is a shortest one among all correct scripts |
| InsDelDistance.DistIsLcs | crates/gitcomet-core/src/file_diff.rs:3029-3214 | The distance is n + m minus twice the length of a longest common subsequence |
| InsDelDistance.FrontierBound | crates/gitcomet-core/src/file_diff.rs:3045-3099 | A point no dearer than the whole diff has x at most n + m, so the 32-bit frontier entries never overflow |
| Myers.EntryReachable | crates/gitcomet-core/src/file_diff.rs:3083-3093 | The point at which a depth enters a diagonal, chosen from its two neighbours, is reachable with that many edits |
| Myers.NoShortcut | crates/gitcomet-core/src/file_diff.rs:3086-3099 | Beyond the entry point a depth can leave a cell of the diagonal only along a match: following matches greedily reaches the furthest point |
| Myers.FrontierKept | crates/gitcomet-core/src/file_diff.rs:3080-3099 | Writing a diagonal of depth d leaves all furthest points of depth d - 1 in the one in-place array intact, because parities differ |
| Myers.Snake | crates/gitcomet-core/src/file_diff.rs:3094-3099 | Following equal lines keeps the distance and stops at the first mismatch |
| Myers.SearchDiagonal | crates/gitcomet-core/src/file_diff.rs:3083-3100 | One inner step computes the furthest-reaching point of its depth and diagonal, without reading outside the array |
| Myers.SearchDepth | crates/gitcomet-core/src/file_diff.rs:3077-3114 | One outer step either stops with the depth equal to the distance, possibly in mid-depth, or leaves every furthest point of the depth in the frontier |
| Myers.Search | crates/gitcomet-core/src/file_diff.rs:3049-3120 | The search stops at depth exactly the distance, and the compact trace holds every furthest point of all smaller depths |
| Myers.CompactTraceGet | crates/gitcomet-core/src/file_diff.rs:3220-3225 | The triangular index of a diagonal lies inside the trace and names the entry stored for that depth and diagonal |
| Myers.Predecessor | crates/gitcomet-core/src/file_diff.rs:3142-3157 | Backtracking recovers from the trace the neighbour from which the search entered the diagonal |
| Myers.BacktrackDepth | crates/gitcomet-core/src/file_diff.rs:3141-3184 | One depth of backtracking leads from a furthest point of depth d to one of depth d - 1 and adds exactly one insertion or deletion besides the kept lines |
| Myers.Backtrack | crates/gitcomet-core/src/file_diff.rs:3122-3214 | Backtracking from the corner gives a correct script whose cost is the distance, whatever the last, possibly stale, layer of the array holds |
| Myers.MyersEdits | crates/gitcomet-core/src/file_diff.rs:3029-3214 | The result is a correct edit script in which deletions come before insertions in every group of changes; it is a shortest one, with n + m - 2 LCS insertions and deletions, and greedy: every change leaves from the furthest point of its diagonal, and is the one that is due there |
| Myers.EntryDue | crates/gitcomet-core/src/file_diff.rs:3083-3093 | The comparison that chooses the better neighbour decides whether an insertion or a deletion is due |
| Myers.GreedyDeletesFirst | crates/gitcomet-core/src/file_diff.rs:3122-3214 | In a greedy script no insertion is directly followed by a deletion, because the point the deletion leads to was within reach before the insertion |
| GreedyScripts.GreedyIsUnique | crates/gitcomet-core/src/file_diff.rs:3029-3214 | There is only one greedy shortest script, so the search has no other result |
| Levenshtein.Symmetric | crates/gitcomet-core/src/file_diff.rs:1277-1290 | Swapping the two sides, as the table does to keep the shorter one inside, keeps every entry of the table |
| Levenshtein.Neighbours | crates/gitcomet-core/src/file_diff.rs:1307-1352 | Neighbouring cells differ by at most one and diagonals never decrease, so one bit each for +1 and -1 describes a column |
| Levenshtein.TrimKeepsDistance | crates/gitcomet-core/src/file_diff.rs:2540-2576 | Dropping agreeing units at the front and at the back of both sides keeps the edit distance |
| Levenshtein.LevBounds | crates/gitcomet-core/src/file_diff.rs:1307-1352 | The distance is at most the longer and at least the difference of the two lengths |
| Words.BitSum | crates/gitcomet-core/src/file_diff.rs:1335-1335 | Each bit of a sum is the exclusive or of the two bits and the carry into that position |
| Words.SpreadBits | crates/gitcomet-core/src/file_diff.rs:1335-1335 | The word (((eq & p) + p) ^ p) &#124; eq satisfies the row recurrence of horizontal zero differences: the wrapping addition carries a match up through runs of ones |
| BitParallel.CellDifferences | crates/gitcomet-core/src/file_diff.rs:1332-1349 | The two differences of a table cell are determined by those of its left and upper neighbours and by whether the units match |
| BitParallel.HorizontalRow | crates/gitcomet-core/src/file_diff.rs:1333-1337 | After the horizontal words are computed, bit i tells whether row i + 1 rises or falls from this column to the next |
| BitParallel.VerticalRow | crates/gitcomet-core/src/file_diff.rs:1334-1348 | The updated vertical words encode the next column of the table, row by row |
| BitParallel.EqMasks | crates/gitcomet-core/src/file_diff.rs:1317-1320 | Every byte value gets the word that marks exactly its positions in the pattern |
| BitParallel.Step | crates/gitcomet-core/src/file_diff.rs:1332-1349 | One text byte turns the words of one column into those of the next and moves the running distance to its last cell |
| BitParallel.BitParallelLevenshtein | crates/gitcomet-core/src/file_diff.rs:1307-1352 | The result is the recursive edit distance whenever the shorter side has at most 128 bytes, including exactly 128, and nothing otherwise |
| Scratch.LevenshteinScratch.FillRow | crates/gitcomet-core/src/file_diff.rs:1288-1303 | One pass turns row i of the table into row i + 1 inside the single reused row |
| Scratch.LevenshteinScratch.DistanceNonEmptyUnequal | crates/gitcomet-core/src/file_diff.rs:1277-1305 | The single-row table computes the edit distance, whichever side is longer |
| Scratch.LevenshteinScratch.DistanceOf | crates/gitcomet-core/src/file_diff.rs:1240-1252 | Equal and empty sides are answered directly, and all answers are the edit distance |
| Scratch.LevenshteinScratch.DistanceBytes | crates/gitcomet-core/src/file_diff.rs:1258-1274 | Byte strings get the edit distance whichever of the two algorithms is used |
| Alignment.LevIsOpt | crates/gitcomet-core/src/file_diff.rs:1277-1305 | The edit-distance table is the table of least alignment costs with unit gaps and mismatches |
| Alignment.DistanceIsLeast | crates/gitcomet-core/src/file_diff.rs:1277-1305 | The edit distance is a lower bound for every way of turning one string into the other unit by unit |
| Boundaries.BoundaryUnique | crates/gitcomet-core/src/file_diff.rs:2578-2613 | Shared prefix and suffix are determined by the two sequences, so any two correct scans agree |
| Boundaries.SharedBoundaryBytes | crates/gitcomet-core/src/file_diff.rs:2578-2598 | Scanning a word at a time and finishing byte by byte finds the longest shared prefix and the longest suffix beside it |
| Boundaries.SharedBoundaryUnits | crates/gitcomet-core/src/file_diff.rs:2600-2613 | The unit scan finds the same boundary |
| PairCost.PricedAtMost | crates/gitcomet-core/src/file_diff.rs:2540-2576 | The distance used for a price is the true distance or an upper bound of it, and at most the longer line |
| PairCost.PriceAtMost | crates/gitcomet-core/src/file_diff.rs:2540-2576 | No pair is priced above 240 |
| PairCost.PriceWithinBudget | crates/gitcomet-core/src/file_diff.rs:2540-2576 | For unequal lines whose middles fit the cell budget the price is 80 plus the scaled distance of the untrimmed lines, saturating as the product does, plus 40 for long enough lines that share no end |
| PairCost.PriceOverBudget | crates/gitcomet-core/src/file_diff.rs:2540-2576 | Beyond the cell budget the price is the same formula on the longer of the two middles |
| PairCost.PriceOfEqual | crates/gitcomet-core/src/file_diff.rs:2457-2480 | Equal lines cost nothing to pair, all others at least 80 |
| PairCost.BytesKeepPrice | crates/gitcomet-core/src/file_diff.rs:2457-2480 | Pricing ASCII lines on their bytes gives the price of their characters |
| PairCost.PriceOf | crates/gitcomet-core/src/file_diff.rs:2540-2576 | The price in saturating 32-bit arithmetic is the price on whole lines |
| PairCost.ReplacementPairCost | crates/gitcomet-core/src/file_diff.rs:2457-2480 | Whichever representation and distance algorithm is used, the cost of two lines is the price of their texts |
| Alignment.OptIsLeast | crates/gitcomet-core/src/file_diff.rs:1396-1503 | No monotone alignment of two blocks is cheaper than the recursively defined optimum |
| ReplacementAlign.TextIds | crates/gitcomet-core/src/file_diff.rs:1367-1386 | Lines get equal numbers only when their texts are equal, and the repeat flag tells whether some text occurs twice |
| ReplacementAlign.MemoFill | crates/gitcomet-core/src/file_diff.rs:1434-1444 | Storing the price of one pair under its text numbers keeps the memo table right for every pair that shares the entry |
| ReplacementAlign.PairPrice | crates/gitcomet-core/src/file_diff.rs:1434-1447 | A price taken from the memo table is the price of the pair asked for |
| ReplacementAlign.BestStep | crates/gitcomet-core/src/file_diff.rs:1448-1465 | The choice in one cell, made on saturating 32-bit costs, is the true least cost and records a step that attains it |
| ReplacementAlign.FillRow | crates/gitcomet-core/src/file_diff.rs:1430-1466 | From one rolling row the next one is filled with least costs, and its steps are recorded |
| ReplacementAlign.FillTable | crates/gitcomet-core/src/file_diff.rs:1409-1468 | After all rows, swapped in turn, every recorded step leads to a cell from which its own is reached at least cost |
| ReplacementAlign.ReadBack | crates/gitcomet-core/src/file_diff.rs:1470-1503 | Walking the steps back from the far corner gives operations that consume both blocks at the least cost |
| ReplacementAlign.AlignReplacement | crates/gitcomet-core/src/file_diff.rs:1396-1503 | The operations consume exactly all deletes and all inserts, no monotone alignment is cheaper under the given pair prices, and among the cheapest it is the one that ends in a pair, else an insertion, else a deletion, at every step back |
| Alignment.DueIsUnique | crates/gitcomet-core/src/file_diff.rs:1449-1503 | The order in which ties are broken, a pair before an insertion before a deletion, leaves only one alignment |
| Planner.BudgetBoundsCosts | crates/gitcomet-core/src/file_diff.rs:1823-1841 | Two non-empty blocks within the 50,000-cell budget are short enough that no 32-bit cost saturates |
| IncreasingSubsequence.PilesSeparate | crates/gitcomet-core/src/file_diff.rs:2843-2854 | A later and larger pair is put on a later pile |
| IncreasingSubsequence.PileBounds | crates/gitcomet-core/src/file_diff.rs:2843-2854 | An increasing subsequence is no longer than the number of the pile its last pair lies on |
| IncreasingSubsequence.ChainOk | crates/gitcomet-core/src/file_diff.rs:2851-2869 | Following the links from a pair gives an increasing subsequence with one pair per pile up to its own |
| IncreasingSubsequence.ChoosePile | crates/gitcomet-core/src/file_diff.rs:2843-2850 | Pile tops stay in increasing order, so bisection finds the leftmost pile whose top is not smaller |
| IncreasingSubsequence.LisIsLongest | crates/gitcomet-core/src/file_diff.rs:2832-2871 | The subsequence is strictly increasing in the second component and at least as long as every other such subsequence |
| IncreasingSubsequence.PatienceLis | crates/gitcomet-core/src/file_diff.rs:2832-2871 | The pass returns exactly that subsequence |
| PatienceAnchors.LineInfo | crates/gitcomet-core/src/file_diff.rs:2795-2809 | The occurrence table has the count and, for a line seen once, the position of every line of the range and of no other |
| PatienceAnchors.CollectPairs | crates/gitcomet-core/src/file_diff.rs:2811-2822 | Walking the table in any order finds every line that is unique on both sides, once |
| PatienceAnchors.AllPairsUnique | crates/gitcomet-core/src/file_diff.rs:2811-2825 | The sorted list of unique pairs does not depend on the order in which they were found |
| PatienceAnchors.AnchorsDetermined | crates/gitcomet-core/src/file_diff.rs:2787-2829 | So the anchors are a function of the two ranges: hash-map iteration order cannot show |
| PatienceAnchors.LisAnchors | crates/gitcomet-core/src/file_diff.rs:2787-2829 | Anchors lie in range, pair equal lines, and increase strictly on both sides |
| PatienceAnchors.SomeAnchor | crates/gitcomet-core/src/file_diff.rs:2787-2829 | Two ranges that share a line unique to both have at least one anchor |
| PatienceAnchors.FindPatienceAnchors | crates/gitcomet-core/src/file_diff.rs:2787-2829 | The anchors are a longest increasing subsequence of all unique pairs |
| Patience.TrimRegion | crates/gitcomet-core/src/file_diff.rs:2649-2665 | A region is trimmed by its longest shared prefix and the longest shared suffix beside it |
| Patience.SplitAtAnchors | crates/gitcomet-core/src/file_diff.rs:2726-2764 | Diffing between anchors gives a correct script for the region in which every anchor is kept as a pair, each after what the recursion gives for the gap before it, and the last gap after them |
| Patience.PatienceRecurse | crates/gitcomet-core/src/file_diff.rs:2635-2777 | The recursion ends by depth 32 and gives a correct script for its region; above that depth it keeps the shared ends and every anchor between them, and so on inside every gap at every depth; regions without anchors and those that are too deep get a shortest script, or a positional one |
| Patience.HistogramEdits | crates/gitcomet-core/src/file_diff.rs:2631-2633 | For whole files the script is correct and keeps the shared ends and every anchor between them, and the ends and anchors of every nested gap |
| LinearFallback.MyersFallbackEdits | crates/gitcomet-core/src/file_diff.rs:2892-2946 | The script is correct, the pairs of lines it keeps are exactly those of the longest shared prefix and of the longest suffix beside it, and its deletions come before its insertions |
| LinearFallback.PositionalFallbackEdits | crates/gitcomet-core/src/file_diff.rs:2948-3027 | The script is correct, and the pairs it keeps are exactly those of the shared ends and, between them, of the equal lines at the same distance from the prefix; at every other such position the deletion is directly followed by the insertion |
| PlanRuns.CoverPush | crates/gitcomet-core/src/file_diff.rs:1516-1598 | Pushing a run that starts where coverage ends extends coverage and both counts by that run, merged or not |
| PlanRuns.AppendedCounts | crates/gitcomet-core/src/file_diff.rs:1516-1583 | Merging changes neither the number of unchanged nor of paired rows |
| PlanRuns.AppendedPairs | crates/gitcomet-core/src/file_diff.rs:1516-1583 | Merging two unchanged runs shows exactly the pairs of lines that the two would show |
| PlanRuns.AppendedChanged | crates/gitcomet-core/src/file_diff.rs:1516-1583 | Merging two modified runs shows exactly the pairs of lines beside each other that the two would show |
| PlanRuns.MergedPush | crates/gitcomet-core/src/file_diff.rs:1516-1583 | Neighbouring runs never have the same kind: what could be merged is merged |
| PlanRuns.PlanBuilder.Push | crates/gitcomet-core/src/file_diff.rs:1585-1598 | The run list becomes the old one with the run appended or merged, and the counters keep matching it |
| PlanRuns.PlanBuilder.ApplyEofNewline | crates/gitcomet-core/src/file_diff.rs:1600-1646 | When exactly one file ends in a newline and the last run is unchanged lines, its last row becomes a modified row of the two last lines, adding one inline row; otherwise nothing changes |
| PlanRuns.EofPairs | crates/gitcomet-core/src/file_diff.rs:1600-1646 | The end-of-file rewrite takes from the pairs shown as unchanged the one of the two last lines, if it is there, and no other |
| PlanRuns.EofMovesPair | crates/gitcomet-core/src/file_diff.rs:1600-1646 | The pair it takes from the unchanged ones is shown as changed instead |
| PlanRuns.EachLineOnce | crates/gitcomet-core/src/file_diff.rs:551-606 | Covering both files means that every line of each is shown by exactly one run and no other line is |
| PlanRuns.RowBalance | crates/gitcomet-core/src/file_diff.rs:572-606 | Rows plus rows that show two lines, and inline rows plus unchanged rows, both add up to the lines of both files |
| Planner.PairByPosition | crates/gitcomet-core/src/file_diff.rs:1730-1774 | The first lines of both blocks, as many as the shorter has, are shown beside each other as changed, and the rest of the longer side by itself: the block gets as many rows as its longer side has lines |
| Planner.PushOps | crates/gitcomet-core/src/file_diff.rs:1839-1882 | One row per alignment operation is pushed, covering exactly the two blocks, and exactly the pairs of lines that the operations pair stand beside each other as changed |
| Planner.PushAlignedReplacement | crates/gitcomet-core/src/file_diff.rs:1776-1883 | A replaced block is covered; one-sided blocks stay one-sided, blocks over the budget are paired by position, and all others are shown by a cheapest alignment |
| Planner.OneLineBlock | crates/gitcomet-core/src/file_diff.rs:1776-1883 | One line replaced by another is shown beside it exactly when the pair costs at most 200; else the removed line comes before the added one |
| Planner.GroupIsWhole | crates/gitcomet-core/src/file_diff.rs:2031-2063 | When a script deletes first, a group of changes reaches to the next kept line and is one replaced block |
| Planner.LinearPlan | crates/gitcomet-core/src/file_diff.rs:1885-1965 | The plan partitions both files; the pairs it shows as unchanged are exactly those of the shared prefix and suffix, less the last lines if the end-of-file row applies, and the interior between them is one replaced block shown as such blocks are |
| Planner.SparsePositionalPlan | crates/gitcomet-core/src/file_diff.rs:1648-1728 | A positional plan is made exactly for large files of equal length with at most a quarter of their lines changed and no two in a row; it partitions both files, has a row per position and shows exactly the pairs of equal lines at the same position as unchanged and exactly those of different lines as changed, but for the last lines if the end-of-file row applies |
| Planner.PushNext | crates/gitcomet-core/src/file_diff.rs:2007-2080 | One maximal group of edits is turned into runs that cover the lines it consumes: kept lines as one context run with exactly their pairs, deletions with the following insertions as one replaced block |
| Planner.PlanFromEdits | crates/gitcomet-core/src/file_diff.rs:1999-2093 | For every correct edit script the plan partitions both files and shows the script group by group, each replaced group one-sided, by position or by a cheapest alignment; the pairs shown as unchanged are exactly those the script keeps, and the inline rows are all lines with each kept pair counted once, but for the last lines when the end-of-file row applies |
| Planner.KeptAndCost | crates/gitcomet-core/src/file_diff.rs:1999-2081 | Every line of both files is either in a kept pair or counted by the cost of the script |
| Planner.KeptGroupPairs | crates/gitcomet-core/src/file_diff.rs:2007-2030 | A group of kept lines adds one diagonal to the pairs a script keeps, and a group of changes adds none |
| Planner.SelectEdits | crates/gitcomet-core/src/file_diff.rs:1505-1514 | Each strategy gives a correct script; below 1,024 lines it is a shortest one, below 100,000 it keeps shared ends and anchors at every depth, and from there on it keeps exactly the shared ends |
| Planner.EofDeltaMeans | crates/gitcomet-core/src/file_diff.rs:2882-2890 | The end-of-file mark names the old file exactly when only the new one ends in a newline, and the new file in the opposite case |
| Planner.SideBySidePlan | crates/gitcomet-core/src/file_diff.rs:1967-2093 | Whichever planner is chosen and whatever pairs cost, the plan partitions both files with matching counters and shows what its size class promises: the shared ends around one block, the equal positions of files with few isolated changes, or group by group a script that is a shortest one or keeps ends and anchors; below 1,024 lines its inline view has n + m - LCS rows, plus at most the end-of-file row |
| Planner.NoPlanShowsLess | crates/gitcomet-core/src/file_diff.rs:601-606 | No plan that partitions the two files has fewer inline rows than n + m - LCS |
| Planner.SideBySidePlanFromLines | crates/gitcomet-core/src/file_diff.rs:730-743 | The same with lines of text priced by their edit distance |
| Hunks.EditsToHunks | crates/gitcomet-core/src/file_diff.rs:631-673 | For a script over the base the hunks are ordered, disjoint, non-empty and separated by an untouched base line; they replace exactly the lines the script deletes and bring as many as it inserts, and applying them to the whole base renders the script |
| Hunks.ReconstructSide | crates/gitcomet-core/src/file_diff.rs:676-701 | For any hunks and any range the output is the base of the clamped range with the hunks applied |
| Hunks.RenderedNewSide | crates/gitcomet-core/src/file_diff.rs:631-701 | With one map for both kinds of lines a correct script renders the mapped new side |
| Hunks.RebuildNewSide | crates/gitcomet-core/src/file_diff.rs:631-701 | Hunks of a correct script, applied to the whole base, rebuild the new side exactly |
| Hunks.AppliedSplit | crates/gitcomet-core/src/conflict_session/subchunk.rs:355-376 | Where no hunk straddles a cut of a base range, applying the hunks is applying those before it to the part before it and those after it to the part after it |
| Hunks.PartRendered | crates/gitcomet-core/src/conflict_session/subchunk.rs:355-376 | For hunks made from a script, a base range that no hunk straddles corresponds to a part of the script that replaces exactly those base lines, and applying the hunks inside renders exactly that part |
| Hunks.SideContent | crates/gitcomet-core/src/conflict_session/subchunk.rs:355-376 | For a correct script the content of one side over such a range is the part of the new side that the script makes of exactly those base lines |
| Utf8.SplitsAtBoundaries | crates/gitcomet-core/src/file_diff.rs:93-107 | A valid text splits into valid texts exactly at the positions that are not inside a character (RFC 3629, section 4) |
| Utf8.BoundaryNear | crates/gitcomet-core/src/file_diff.rs:35-35 | From any position of a valid text a character boundary follows within three bytes |
| Utf8.WholeShift | crates/gitcomet-core/src/file_diff.rs:119-171 | Whether bytes are whole characters does not depend on what surrounds them |
| Utf8Encoding.Utf8IsEncoding | crates/gitcomet-core/src/file_diff.rs:119-171 | Bytes count as text exactly when they are the encoding of some character numbers, surrogates excluded (RFC 3629, section 3) |
| Utf8Slices.ClampUp | crates/gitcomet-core/src/file_diff.rs:93-99 | The first character boundary at or after the offset |
| Utf8Slices.ClampDown | crates/gitcomet-core/src/file_diff.rs:101-107 | The last character boundary at or before the offset |
| Utf8Slices.ResolvedTextSubslice | crates/gitcomet-core/src/file_diff.rs:109-117 | In memory a range inside the text shrinks to character boundaries, and to the empty range at its start when no whole character fits; a range outside is refused |
| Utf8Slices.ResolutionIsUnique | crates/gitcomet-core/src/file_diff.rs:109-117 | A range resolves to one range only |
| Utf8Slices.WindowResolves | crates/gitcomet-core/src/file_diff.rs:137-163 | For a valid text the range found in the bytes read with a three-byte lookaround is the one the whole text resolves to |
| Utf8Slices.ReadUtf8FileSubslice | crates/gitcomet-core/src/file_diff.rs:119-171 | Reading from the file gives, for valid content, exactly the range and text the in-memory clamp gives; for any content what it returns is text at its range of what the file still has; for a file cut short it returns nothing exactly when bytes around the range are gone |
| ByteOrder.LessIsValue | crates/gitcomet-core/src/history_index.rs:98-111 | On identifiers of one length lexicographic order is the order of big-endian values |
| ByteOrder.LeadingOrder | crates/gitcomet-core/src/history_index.rs:98-128 | Identifiers are ordered first by any leading part, so two-byte buckets and eight-byte keys ascend along the sorted rows |
| HistoryTables.BelowComeFirst | crates/gitcomet-core/src/history_index.rs:457-463 | In an ascending list the entries below a bucket are exactly the first ones, as many as the prefix sum counts |
| HistorySort.SortPlain | crates/gitcomet-core/src/history_index.rs:466-470 | Small histories: the rows are sorted by whole identifier, every row once |
| HistorySort.KeyedIsValue | crates/gitcomet-core/src/history_index.rs:447-453 | Sorting by eight-byte key first and identifier second is sorting by identifier |
| HistorySort.SortKeyed | crates/gitcomet-core/src/history_index.rs:432-456 | Large histories: the rows are sorted by identifier, and the key cache runs parallel to them |
| HistorySort.FanoutTable | crates/gitcomet-core/src/history_index.rs:457-463 | Entry k of the fanout table is the number of identifiers whose first two bytes are below k |
| HistoryLookup.FanoutSlices | crates/gitcomet-core/src/history_index.rs:102-107 | Every row with an identifier lies in the slice its bucket delimits |
| HistoryLookup.LocatedIsLinearSearch | crates/gitcomet-core/src/history_index.rs:98-111 | For distinct identifiers a located position is the answer of a linear search of the pushed list |
| HistoryLookup.PositionBytes | crates/gitcomet-core/src/history_index.rs:98-111 | With or without fanout table the answer is a row with that identifier, or nothing exactly when no row has it |
| HistoryKeyed.PositionInKeyed | crates/gitcomet-core/src/history_index.rs:114-128 | Searching the builder cache, narrowed to the run of equal keys, gives the same answer |
| HistoryLookup.Parents | crates/gitcomet-core/src/history_index.rs:129-138 | A row has one rank for every parent pushed with it, in order, naming a row with that identifier, or none exactly when no row has it; past the last row there are none |
| HistoryLookup.ParentIdBytes | crates/gitcomet-core/src/history_index.rs:140-148 | The p-th parent of a row is exactly the one pushed, whether it is an indexed commit or an external one, and nothing past the last |
| HistoryLookup.IdBytes | crates/gitcomet-core/src/history_index.rs:43-46 | A row has the identifier pushed at that row, and there is none past the last row |
| HistoryText.EncodeObjectId | crates/gitcomet-core/src/hex.rs:29-39 | An identifier is written with two letters for every byte, the higher half first |
| HistoryText.CommitText | crates/gitcomet-core/src/history_index.rs:47-50 | A row has the text of the identifier pushed at that row, and there is none past the last row |
| HistoryText.IdTextSpells | crates/gitcomet-core/src/history_index.rs:47-50 | The text of an identifier spells that identifier and no other of the same length |
| HistoryBuilder.NewHistoryIndexBuilder | crates/gitcomet-core/src/history_index.rs:353-373 | Only hash lengths of 20 and 32 bytes are accepted, and the builder starts empty |
| HistoryBuilder.HistoryIndexBuilder.Push | crates/gitcomet-core/src/history_index.rs:380-405 | A push answers with exactly one of success and three errors; success appends the commit, a bad parent leaves everything as it was, too many edges leaves the parents behind, after which no push succeeds |
| HistoryBuilder.HistoryIndexBuilder.Finish | crates/gitcomet-core/src/history_index.rs:427-504 | Uncancelled, the finished index represents exactly the pushed commits: identifiers, order, fanout, parents, external parents and stash marks |
| HistoryBuilder.ResolveParents | crates/gitcomet-core/src/history_index.rs:474-492 | Every edge becomes the row of its parent if that is indexed and otherwise the missing mark with its identifier remembered by edge |
| HistoryReference.PrefixIsInterval | crates/gitcomet-core/src/history_index.rs:63-97 | Starting with given hexadecimal digits is the same as lying between the least and the greatest identifier with them |
| HistoryReference.StartsWithIsSpelling | crates/gitcomet-core/src/history_index.rs:63-81 | An identifier has the digits of a text exactly when the text is the beginning of its own text, in lower or upper case |
| HistoryReference.Bounds | crates/gitcomet-core/src/history_index.rs:70-81 | The two bounds are filled digit by digit, and exactly non-hexadecimal text is refused |
| HistoryReference.Position | crates/gitcomet-core/src/history_index.rs:51-61 | The text of a full identifier, in lower or upper case, finds a row with that identifier, or nothing exactly when there is none; any other text finds nothing |
| HistoryReference.OwnTextIsFound | crates/gitcomet-core/src/history_index.rs:47-61 | Looking up the text of a row gives a row with the same identifier |
| HistoryReference.OnlyBetween | crates/gitcomet-core/src/history_index.rs:82-96 | The row between the bounds is returned exactly when it is the only one |
| HistoryReference.ResolveReference | crates/gitcomet-core/src/history_index.rs:63-97 | A text of 7 to 2 h - 1 characters names a row exactly when the text of that row and of no other begins with it, in lower or upper case; a full one names a row with that text if there is one; shorter and longer texts and those with a character outside 0-9, a-f and A-F name none |
| HistoryProjections.NewProjection | crates/gitcomet-core/src/history_index.rs:191-199 | Any hidden list is accepted; the projection hides exactly the listed rows that exist, sorted and without repeats |
| HistoryProjections.ShownCount | crates/gitcomet-core/src/history_index.rs:206-222 | Subtracting the hidden rows below a row counts the shown rows below it |
| HistoryProjections.DisplacementGrows | crates/gitcomet-core/src/history_index.rs:223-240 | The distance by which hidden rows displace visible indices never decreases, which is what the bisection needs |
| HistoryProjections.VisiblePosition | crates/gitcomet-core/src/history_index.rs:206-222 | The visible index of a row is its place among the shown rows, and hidden or missing rows have none |
| HistoryProjections.RawPosition | crates/gitcomet-core/src/history_index.rs:223-240 | The row at a visible index is the one written there among the shown rows |
| HistoryProjections.MapsAreInverse | crates/gitcomet-core/src/history_index.rs:206-240 | The two maps undo each other, between visible indices and exactly the rows that are not hidden |
| HistoryProjections.MapsKeepOrder | crates/gitcomet-core/src/history_index.rs:206-240 | Both maps keep the order |
| HistoryProjections.VisiblePositionAtOrAfter | crates/gitcomet-core/src/history_index.rs:244-251 | The answer splits the visible rows into those below the given row and those at or after it |
| HistoryProjections.Len | crates/gitcomet-core/src/history_index.rs:200-202 | The length is the number of shown rows |
| Survivors.MergeStop | crates/gitcomet-core/src/history_index.rs:272-288 | Where the merge stops decides the target: the entry there has the identifier, or no row of the next index has it |
| Survivors.JoinTargets | crates/gitcomet-core/src/history_index.rs:266-289 | The merge-join gives every old row the visible index of its commit in the next projection, or the missing mark |
| Survivors.GapAnchor | crates/gitcomet-core/src/history_index.rs:309-319 | Inside a gap the closest survivor is one of the two rows around it, the later one on a tie |
| Survivors.FillGap | crates/gitcomet-core/src/history_index.rs:305-321 | Filling one gap in place gives each of its rows its closest survivor and touches nothing else |
| Survivors.NearestSurvivors | crates/gitcomet-core/src/history_index.rs:261-325 | Every old visible row maps to the next visible index of the closest old visible row that survives, ties going to the later row, and all to the missing mark exactly when none survives |
| RuntimeProtocol.StepKeepsInv | crates/gitcomet-core/src/process.rs:134-208 | Every critical section, in any state, keeps the invariant over claims, generations and tokens |
| RuntimeProtocol.RunsKeepInv | crates/gitcomet-core/src/process.rs:134-208 | So every reachable state satisfies it, whatever the interleaving and however many requests are outstanding |
| RuntimeProtocol.OneClaim | crates/gitcomet-core/src/process.rs:162-208 | At most one outstanding request holds the claim, and a set claim always has such a request |
| RuntimeProtocol.RecordedIsCurrent | crates/gitcomet-core/src/process.rs:134-197 | A recorded availability was found by running a request begun for the recorded preference after that preference was last selected; the two steps of the run are exhibited |
| RuntimeProtocol.SupersededIsHarmless | crates/gitcomet-core/src/process.rs:186-208 | A superseded request neither publishes nor releases a newer claim |
| RuntimeProtocol.SelectSupersedes | crates/gitcomet-core/src/process.rs:134-150 | Selecting another executable supersedes and cancels every outstanding request and frees the claim |
| RuntimeProtocol.SelectedAgain | crates/gitcomet-core/src/process.rs:134-150 | Selecting the executable that is selected changes nothing |
| RuntimeProtocol.HolderReleases | crates/gitcomet-core/src/process.rs:186-208 | The holder clears the claim by running, which publishes its result, and also by being dropped unrun, which changes nothing else |
| RuntimeProtocol.ClaimNotLost | crates/gitcomet-core/src/process.rs:162-183 | With nothing outstanding the claim is free and a forced probe starts |
| RuntimeProtocol.UnforcedBegin | crates/gitcomet-core/src/process.rs:162-183 | From every reachable state an unforced begin issues a request if and only if no request holds the claim, the recorded availability is not a healthy one and every probe begun since the preference last changed is at least ten seconds old; otherwise it changes nothing |
| RuntimeProtocol.ForcedBegin | crates/gitcomet-core/src/process.rs:162-183 | A forced begin issues a request if and only if none holds the claim |
| RuntimeProtocol.ProbedMeansBegan | crates/gitcomet-core/src/process.rs:134-183 | The slot remembers exactly whether a probe was begun since the preference last changed |
| RuntimeProtocol.HealthyIsLeftAlone | crates/gitcomet-core/src/process.rs:160-174 | An unforced begin leaves a healthy slot as it is |
| RuntimeProtocol.FailedIsRetried | crates/gitcomet-core/src/process.rs:160-183 | After a failed probe, with nothing outstanding, an unforced begin starts one for the selected executable as soon as the last is not recent, and does nothing before |
| RuntimeProtocol.CancelledIsSuperseded | crates/gitcomet-core/src/process.rs:186-197 | A cancelled request is always superseded as well |
| RuntimeSlots.RuntimeSlot.SelectGitExecutablePreference | crates/gitcomet-core/src/process.rs:134-150 | The slot changes as the protocol step says; the old token is cancelled and a new one handed out only when the preference changes |
| RuntimeSlots.RuntimeSlot.BeginGitRuntimeProbe | crates/gitcomet-core/src/process.rs:162-183 | A request is refused, changing nothing, or issued exactly as the protocol step says: unless one is claimed, when forced, or when the slot is not healthy and the last one is at least ten seconds old |
| RuntimeSlots.RuntimeSlot.Publish | crates/gitcomet-core/src/process.rs:186-197 | A result is recorded exactly when the request is neither cancelled nor superseded |
| RuntimeSlots.RuntimeSlot.Release | crates/gitcomet-core/src/process.rs:200-208 | Dropping clears the claim exactly when the generation is the current one |
| AlignedRuns.RowKindIsRelation | crates/gitcomet-core/src/merge.rs:363-388 | The thirteen cases of a three-way row kind say exactly how ours and theirs stand to the base, a missing line being a content of its own; they do so if and only if the row has a side |
| AlignedRuns.TwoWayRowKind | crates/gitcomet-core/src/merge.rs:363-372 | With two inputs a row is unchanged exactly when both sides say the same and a conflict exactly when both speak and differ |
| AlignedRuns.AlignedRowsToRuns | crates/gitcomet-core/src/merge.rs:418-484 | The loop with its three cursors computes the coalesced runs |
| AlignedRuns.RunsConserveRows | crates/gitcomet-core/src/merge.rs:418-484 | Runs are contiguous from zero on all three sides, end at the number of rows each side is present in, and have as many visual rows as there are rows with a side |
| AlignedRuns.VisualRowsAreRows | crates/gitcomet-core/src/merge.rs:320-322 | There are as many visual rows as rows if and only if every row has a side present |
| AlignedRuns.RunsExpandToRows | crates/gitcomet-core/src/merge.rs:418-484 | With no row forced, expanding the runs reproduces the sides and kind of every row that has a side |
| AlignedRuns.RunsAreCanonical | crates/gitcomet-core/src/merge.rs:449-481 | With no row forced and a side present in every row, neighbouring runs differ in kind or sides: nothing more can be coalesced |
| AlignedRuns.RowIsInItsRun | crates/gitcomet-core/src/merge.rs:418-484 | The run a row was added to has the row's kind and, to the end, holds the row's line of each side it has |
| AlignedRuns.UnforcedRowsLevel | crates/gitcomet-core/src/merge.rs:307-316 | With no row forced, corresponding lines always sit at the same height in their run |
| AlignedRuns.ThreeWayRowsLevel | crates/gitcomet-core/src/merge.rs:307-316 | So they do in every plan with three inputs, whatever its blocks |
| AlignedRuns.PairLevel | crates/gitcomet-core/src/merge.rs:307-316 | In a two-way plan the two lines of a row sit at the same height if and only if no row before it in the same run is one-sided |
| AlignedRuns.PlanPairLevel | crates/gitcomet-core/src/merge.rs:307-316 | So it is decided for every row of a plan with two inputs, from its rows and blocks |
| AlignedRuns.NeighbourIsNotLevel | crates/gitcomet-core/src/merge.rs:307-316 | A plan in which two corresponding lines sit at different heights |
| AlignedRuns.ForcedBlockIsOneRun | crates/gitcomet-core/src/merge.rs:396-416 | A forced replacement block whose replaced rows come first is kept as a single run, unless it runs on from another conflict |
| AlignedRuns.HeightsAreOfRuns | crates/gitcomet-core/src/merge.rs:448-480 | How high the two sides stand, counted row by row, is how far they reach in the conflict run that ends the runs |
| AlignedRuns.ForcedBlockRuns | crates/gitcomet-core/src/merge.rs:396-416 | A forced block of a two-way plan is spread over exactly one run more than it has such rows after the first |
| AlignedRuns.ForcedBlockKeptWhole | crates/gitcomet-core/src/merge.rs:396-416 | The rows of a forced block of a two-way plan, whatever they are, are shown by one run if and only if none after the first is present only on the side that is strictly lower by then |
| AlignedRuns.PlanBlockKeptWhole | crates/gitcomet-core/src/merge.rs:390-416 | So it is decided for every block of a plan that contains a replacement, from its rows and blocks |
| AlignedRuns.ReplacedFirstKeptWhole | crates/gitcomet-core/src/merge.rs:396-416 | A forced block whose replaced rows come first is kept whole if and only if no one-sided rows follow or the conflict it runs on from is not lower on their side |
| AlignedRuns.PinnedBlockIsTorn | crates/gitcomet-core/src/merge.rs:396-416 | A plan of one block, as a pinned line gives it, that is torn apart |
| AlignedRuns.NeighbourIsTorn | crates/gitcomet-core/src/merge.rs:396-416 | A plan of three neighbouring blocks, of which the last is torn apart by the one before it |
| AlignedRuns.PinnedNeighbourIsWhole | crates/gitcomet-core/src/merge.rs:396-416 | The same lines with one more pin: the last block begins on the lower side, starts a run of its own behind the conflict before it, and is kept whole there |
| AlignedRuns.ForcedRows | crates/gitcomet-core/src/merge.rs:390-412 | Exactly the rows of conflict blocks that contain a replacement are forced, and none in a three-way plan |
| AlignedRuns.AlignedPlanToRuns | crates/gitcomet-core/src/merge.rs:390-416 | The plan is projected with exactly those rows forced |
| GitignorePatterns.TrimTrailingSpaces | crates/gitcomet-core/src/gitignore.rs:213-242 | The walk cuts a line where git does: trailing spaces go unless quoted |
| GitignorePatterns.TrimIsIdempotent | crates/gitcomet-core/src/gitignore.rs:213-242 | Trimming drops nothing but spaces from the end, and trimming again drops nothing |
| GitignorePatterns.TrimDropsUnquoted | crates/gitcomet-core/src/gitignore.rs:207-242 | Exactly the spaces at the end that no backslash quotes are dropped |
| GitignorePatterns.EscapeLiteral | crates/gitcomet-core/src/gitignore.rs:292-304 | The loop puts a backslash before every metacharacter |
| GitignorePatterns.EscapedReadsBack | crates/gitcomet-core/src/gitignore.rs:292-304 | An escaped text has no live wildcard and stands for the text itself |
| GitignorePatterns.EscapeTrailingSpaces | crates/gitcomet-core/src/gitignore.rs:311-323 | Every space of the trailing run gets its own backslash |
| GitignorePatterns.QuotedTextSurvives | crates/gitcomet-core/src/gitignore.rs:292-323 | Escaping and then quoting keeps what the text says and shields all of it from trimming |
| GitignorePatterns.RelativeSegments | crates/gitcomet-core/src/gitignore.rs:257-273 | The segments are the normal components in order; anything else refuses the path |
| GitignorePatterns.SegmentsOfPlainPaths | crates/gitcomet-core/src/gitignore.rs:257-273 | A path has segments exactly when all its components are plain text without line breaks, and so are the segments |
| GitignorePatterns.Anchored | crates/gitcomet-core/src/gitignore.rs:281-288 | The anchored pattern is the escaped text of the path with a slash before every segment |
| GitignorePatterns.PatternFor | crates/gitcomet-core/src/gitignore.rs:39-62 | Each scope yields the pattern for its target, and nothing exactly when the path or the scope does not apply |
| GitignorePatterns.PatternsSayTheirTarget | crates/gitcomet-core/src/gitignore.rs:39-62 | Every pattern is unchanged by trimming and unescapes to its target: the path, the folder with a slash, or the extension after the wildcard |
| GitignorePatterns.PathsAreDistinct | crates/gitcomet-core/src/gitignore.rs:39-62 | Different paths get different patterns |
| GitignoreMatches.LiteralMatches | crates/gitcomet-core/src/gitignore.rs:292-304 | Under matching with asterisks, question marks, escapes and arbitrary brackets, a pattern without live wildcards matches the text it stands for and no other |
| GitignoreMatches.WrittenMatches | crates/gitcomet-core/src/gitignore.rs:39-62 | A pattern for a path or folder matches exactly its text, and one for an extension exactly the names that end in it |
| GitignoreMatches.FirstColumn | crates/gitcomet-core/src/gitignore.rs:275-288 | No pattern begins like a comment or an exception |
| GitignoreMatches.ExtensionIs | crates/gitcomet-core/src/gitignore.rs:325-329 | The extension is what follows the last dot of a name: not empty, without a dot, and with something before that dot |
| GitignoreAppends.AppendPatterns | crates/gitcomet-core/src/gitignore.rs:151-205 | The new content is the old, completed by a line ending if needed, followed by the missing patterns, one per line |
| GitignoreAppends.AppendedLineEndings | crates/gitcomet-core/src/gitignore.rs:184-204 | Every line feed that is appended belongs to the line ending in use, with a carriage return or without, and the content ends in it |
| GitignoreAppends.DetectLineEnding | crates/gitcomet-core/src/text_utils.rs:127-156 | The line ending in use is the one most lines of the file have, a bare line feed on a tie |
| GitignoreAppends.AppendKeepsStyle | crates/gitcomet-core/src/gitignore.rs:151-205 | A file whose lines all end alike keeps its kind of line ending |
| GitignoreAppends.MissingIsMissing | crates/gitcomet-core/src/gitignore.rs:163-175 | Appended are exactly the non-empty patterns asked for and not present, each once |
| GitignoreAppends.MissingInOrder | crates/gitcomet-core/src/gitignore.rs:163-175 | They come in the order in which they are asked for first |
| GitignoreAppends.AppendKeepsLines | crates/gitcomet-core/src/gitignore.rs:151-205 | The existing text stays a prefix, so no byte is rewritten; read the way the code reads lines, the result holds the existing lines followed by the new patterns if and only if it is not the case that the text ends in a carriage return and a bare line feed is the ending in use |
| GitignoreAppends.StrayCarriageReturnIsLost | crates/gitcomet-core/src/gitignore.rs:151-205 | A concrete file whose last line the code reads without its carriage return once a line feed follows it |
| GitignoreAppends.AppendedIsPresent | crates/gitcomet-core/src/gitignore.rs:151-205 | After appending, every pattern asked for is read from the file |
| GitignoreAppends.AppendIsIdempotent | crates/gitcomet-core/src/gitignore.rs:151-205 | Appending the same patterns a second time returns nothing, whatever the file was like and whichever line ending is then in use |
| GitignoreAppends.WrittenUnbroken | crates/gitcomet-core/src/gitignore.rs:257-273 | Patterns never hold a line break, because segments with one are refused |
| GitignoreAppends.AppendedPathIsIgnored | crates/gitcomet-core/src/gitignore.rs:39-205 | Adding a path leaves a line in the file that stands literally for the path, and nothing is added exactly when it was there |

## Left out

- Myers.MyersEdits: minimality is stated for files of up to 2^32 - 1 lines together, or with an empty side; beyond that the program falls back to a linear script, which is only proved correct.
- ReplacementAlign.AlignReplacement: pair prices are a pure function of the two texts; the scratch buffers behind the price are modelled in `PairCost.ReplacementPairCost` only.
- PairCost.ReplacementPairCost: lines of 2^32 or more characters are not modelled.
- HistoryBuilder.HistoryIndexBuilder.Finish: finishing after a push failed for too many edges is not modelled; the program does not roll such a push back.
- HistoryProjections.NewProjection: a projection is modelled by its number of rows and its hidden list; the index handle it shares is passed separately.
- Survivors.NearestSurvivors: identifiers of the next index are distinct, as commit identifiers are; elapsed time plays no role.
- Utf8Slices.ReadUtf8FileSubslice: failures to open or seek a file are not modelled; a file that was cut short is.
- Cancellation in index building and refresh is a function from the number of the check to its answer; in the probe protocol it is a flag per token.
- Lengths, offsets and generations are unbounded naturals: 64-bit saturation and the wrap-around of the probe generation are not modelled. 32-bit table entries and costs are modelled at their width.
- 128-bit words are numbers below 2^128 with bitwise operators defined digit by digit.
- Hash maps are maps with arbitrary iteration order, and the standard sort is an insertion sort proved ordered and a permutation.
- Text that is only looked at for ASCII characters is a sequence of characters in the ignore-file model.
- GitignoreMatches.WrittenMatches: what a bracket expression matches is a parameter, and patterns are matched against a text, not against a directory tree.
- Probing an executable, the wall clock, lock poisoning and PATH handling: the probe result and the time are inputs.
- Storage variants of line text, sharing, memory estimates and lazily loaded text.
- Row materialisation, region anchors, changed-line masks and line-to-row maps derived from a plan.
- The merge planner behind aligned rows, conflict markers, conflict sessions, remote URLs, the watchers and the user interface.
- Suggestions for several selected paths at once, which compare the single patterns modelled here.
