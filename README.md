# ECTS tag-discrimination analysis in Dafny

This project models `AnalysisTools` from `Program.cs` of the ECTS analysis
tool. The tool estimates how many SELECT commands a reader needs, and how
many bits they cost, to single out a set of target RFID tags from a
background population. It works in three steps:

- **Candidate extraction.** For every target (1-based index), every window
  of length `L_min..L_max` that lies inside the first `BIT_LENGTH = 32`
  positions becomes a candidate discriminator when no background tag holds
  the same contents at the same position (`IfExist` is false). A candidate
  is the tuple (target index, contents, 1-based start, end).
- **Greedy ECTS rounds.** While targets are unresolved and ECTS is enabled,
  the round counter is raised first. The candidates are grouped by
  (contents, start), and the largest group is chosen. The targets it covers
  become resolved, and every candidate of those targets is dropped.
- **Cost.** The result is the round counter and the bits, which are the
  chosen groups' lengths plus 45 bits per counted SELECT.

`CountConsecutiveGroups` splits a sorted selection of numbers into runs of
consecutive numbers. It reports the number of runs and the sum over the
runs of `n` minus the run's size.

Modules:

- `Windows` (windows.dfy) holds the entities and `IfExist`.
- `Extraction` (extraction.dfy) holds the candidate loops, as methods
  proved equal to the spec function `Candidates`. `Candidates` is built in
  the same order as the loops.
- `Planner` (planner.dfy) holds the grouping, the pick of the largest
  group, the removal, and `Plan`, the rounds as a function.
- `Analysis` (analysis.dfy) holds `AnalyzeTags` with its `while` loop and
  the `Limit` switch.
- `ConsecutiveRuns` (runs.dfy) holds the run splitting.

The `Limit` switch (Program.cs:119-137) is `Analysis.LimitBounds`. Mode 1
and the `default:` branch (any mode other than 0, 1 and 2) give `[1, 32]`;
the method's default argument `Limit = 0` selects mode 0, which is left out. `AnalyzeTags` itself takes the bounds
`lMin`/`lMax` as parameters, so any mode's bounds can be supplied.

Notes on what the code does:

- **Grouping key.** The code groups by (contents, start). Every candidate
  has `end = start - 1 + |contents|` (`Windows.IsUniqueWindow`), so this
  is the same as grouping by (contents, start, end).
- **Tie-break.** The code breaks ties between groups of equal size by
  first appearance. `GroupBy` keeps first-seen order and `OrderByDescending`
  is stable. `Planner.IsFirstLargestAt` states this rule, and the model
  uses it.
- **Group size.** The code ranks groups by their number of candidates, not
  of distinct targets. `Planner.GroupSizeIsTargetsCovered` and
  `Extraction.CandidatesNoDuplicates` show that the two are equal for the
  extracted candidates.
- **Exhaustion.** The round counter is raised before the "no group left"
  exit. A run that ends with unresolved targets therefore reports one
  SELECT more than the groups it chose, and is charged 45 bits for it.

## Model

| member | source | states |
|---|---|---|
| Windows.IfExistExactly | Program.cs:57-62 | `IfExist` holds exactly when some tag at least `end` long has the window `[start, end)` equal to the needed string; an empty tag list gives false |
| Extraction.AppendWindows | Program.cs:148-159 | the start loop for one length appends to the list exactly that length's unique windows, in start order |
| Extraction.TargetWindows | Program.cs:146-160 | the length and start loops for one target produce exactly `TargetCandidates`, in loop order |
| Extraction.ExtractCandidates | Program.cs:141-162 | the extraction over all targets produces exactly `Candidates`, in loop order |
| Extraction.StartsBelowMembers | Program.cs:148-159 | a candidate is in the start loop's output exactly when it is a unique window of that length starting before the bound |
| Extraction.LengthsBelowMembers | Program.cs:146-160 | a candidate is in the length loop's output exactly when it is a unique window of a length in range that fits in BIT_LENGTH |
| Extraction.TargetCandidatesSound | Program.cs:146-160 | everything one target contributes is a valid candidate owned by that target |
| Extraction.TargetCandidatesComplete | Program.cs:146-160 | every valid candidate is contributed by the target it names |
| Extraction.TargetCandidatesMembers | Program.cs:146-160 | a candidate is contributed by target k exactly when it is valid and owned by k |
| Extraction.TargetsBelowMembers | Program.cs:144-162 | a candidate is in the output for the first k targets exactly when it is a valid candidate of one of them |
| Extraction.CandidatesExactly | Program.cs:144-162 | a tuple is extracted iff its index names a target, its length is in `[lMin, lMax]`, it ends within BIT_LENGTH, its contents are the target's window at start..end, and `IfExist` is false for it |
| Extraction.StartsBelowNoDuplicates | Program.cs:148-159 | one length's windows of a target never share a grouping key |
| Extraction.LengthsBelowNoDuplicates | Program.cs:146-160 | one target's windows never share a grouping key |
| Extraction.TargetsBelowNoDuplicates | Program.cs:144-162 | no target owns two candidates with the same grouping key, for any prefix of targets |
| Extraction.CandidatesNoDuplicates | Program.cs:144-162 | no target owns two extracted candidates with the same grouping key |
| Planner.Count | Program.cs:175-176 | a bound only: a group's size is at most the number of candidates |
| Planner.CountExactly | Program.cs:175-176 | a group's size (`g.Count()`) is the number of candidates whose key is the group's key, and it is non-zero exactly when some candidate carries that key |
| Planner.CoveredExactly | Program.cs:182 | the removed targets are exactly the indices of the chosen group's members |
| Planner.RemoveCovered | Program.cs:189 | a bound only: removal never lengthens the candidate list (what is kept is stated by `RemoveCoveredExactly`) |
| Planner.RemoveCoveredExactly | Program.cs:189 | a candidate survives iff it was present and its target is not removed; the list strictly shrinks when some candidate's target is removed |
| Planner.RemoveCoveredSplits | Program.cs:189 | removal keeps the order of the survivors: it distributes over concatenation |
| Planner.FirstLargestFrom | Program.cs:174-177 | the scan returns an index inside the list |
| Planner.FirstLargestFromIsFirstLargest | Program.cs:174-177 | the scan ends on a candidate whose group is largest, with every earlier candidate in a strictly smaller group |
| Planner.FirstLargestUnique | Program.cs:174-177 | only one position satisfies the pick rule |
| Planner.MostCommon | Program.cs:174-179 | the pick is empty exactly when no candidate is left |
| Planner.MostCommonExactly | Program.cs:174-177 | the key of the first candidate of a largest group is the one picked (ties go to the group seen first) |
| Planner.MostCommonPicksFirstLargest | Program.cs:174-177 | a non-empty list has such a first largest candidate and its key is picked |
| Planner.GroupShrinksCandidates | Program.cs:182-189 | each round strictly shortens the candidate list |
| Planner.PlanStep | Program.cs:169-190 | one round of the planner: the picked key comes first, then the plan of the remaining targets over the remaining candidates |
| Analysis.PlanRound | Program.cs:169-190 | one loop round keeps the account: the groups chosen so far, then the plan of what is left, make up the whole plan, and the unresolved set at the end is unchanged |
| Planner.TargetRangeExactly | Program.cs:164 | the initial unresolved set holds exactly 1..n and has n elements |
| Planner.TotalLengthAppend | Program.cs:183 | choosing a group adds its contents' length to the substring bits |
| Planner.RoundProgress | Program.cs:182-189 | when every candidate's target is unresolved, the removed set is non-empty and unresolved; unresolved loses exactly it and strictly shrinks; no surviving candidate belongs to a removed target; the list strictly shrinks; and every survivor's target is still unresolved |
| Planner.PlanLeftExactly | Program.cs:169-190 | a target ends unresolved iff it started unresolved and owns no candidate |
| Planner.PlanChosenBounded | Program.cs:169-190 | when every candidate's target is unresolved, at most as many groups are chosen as there are unresolved targets |
| Planner.GroupSizeIsTargetsCovered | Program.cs:174-182 | without duplicate windows a group's size equals the number of targets it covers |
| Planner.RemoveCoveredNoDuplicates | Program.cs:189 | removal keeps the list free of duplicate windows |
| Analysis.LimitBounds | Program.cs:119-137 | the result is `None` exactly for modes 0 and 2 (their floating-point bounds are left out); mode 1 and every other mode (the default branch) give the bounds `[1, 32]` |
| Analysis.SelectRounds | Program.cs:164-191 | with ECTS off or nothing unresolved, zero rounds and zero bits; otherwise the round counter is the number of groups `Plan` chooses, plus one when targets stay unresolved, and the substring bits are the chosen groups' total length |
| Analysis.AnalyzeTags | Program.cs:112-194 | ECTS off or n = 0 gives (0, 0); otherwise SELECTs = chosen groups + 1 if the run ends exhausted, and bits = sum of chosen lengths + 45 × SELECTs, for the plan over {1..n} and the extracted candidates |
| Analysis.UnresolvedExactlyUndistinguishable | Program.cs:144-190 | a target stays unresolved (and costs the extra SELECT) iff it is in 1..n and has no window in `[lMin, lMax]` that the background lacks |
| Analysis.ChosenAtMostTargets | Program.cs:164-190 | with at most n targets, at most n groups are chosen |
| Analysis.CloneSharesWindow | Program.cs:57-62 | a background tag equal to a target on its first 32 positions matches every window of the target inside them |
| Analysis.CloneHasNoCandidate | Program.cs:144-162 | a target with such a background clone has no candidate |
| Analysis.FullWindowIsCandidate | Program.cs:125-162 | a target without such a clone has its whole 32-position window as a candidate under `[1, 32]` |
| Analysis.FullRangeLeavesOnlyClones | Program.cs:119-190 | under the bounds of mode 1 and the `default:` branch, a target ends unresolved iff some background tag agrees with it on all 32 positions |
| ConsecutiveRuns.Runs | Program.cs:78-96 | there are no runs exactly when the selection is empty |
| ConsecutiveRuns.FlattenAppend | Program.cs:92-96 | closing a run appends its numbers to what the runs cover |
| ConsecutiveRuns.SplitAppend | Program.cs:84-96 | appending a run keeps a maximal split iff the run is non-empty and consecutive and does not continue the previous run |
| ConsecutiveRuns.ExtendFlatten | Program.cs:86-94 | taking one more number appends it to what the runs cover, and the last run then ends with it |
| ConsecutiveRuns.ExtendSplit | Program.cs:86-94 | taking one more number after a run ending in its predecessor keeps the runs a maximal split |
| ConsecutiveRuns.RunsFlatten | Program.cs:78-96 | the runs put back together give the selection, in order, and the last run ends with the last number |
| ConsecutiveRuns.RunsAreMaximal | Program.cs:84-96 | every run is non-empty and consecutive, and no run continues the one before it |
| ConsecutiveRuns.RunSplitUnique | Program.cs:84-96 | any split into maximal consecutive runs that gives back the selection is `Runs` |
| ConsecutiveRuns.GapSumClosedForm | Program.cs:99 | the gap sum equals n × (number of runs) − (numbers in the runs) |
| ConsecutiveRuns.CountConsecutiveGroups | Program.cs:78-100 | an empty selection gives (0, 0); otherwise the group count is the number of maximal runs, and the sum is the gap sum, equal to n × groups − the selection's size |

## Left out

- Limit modes 0 and 2 compute `L_min`/`L_max` with floating-point
  logarithms. `LimitBounds` returns `None` for them. `AnalyzeTags` takes
  the bounds as parameters instead.
- `GenerateBinaryStrings` draws the background from a random source. The
  background is a parameter of `AnalyzeTags`. Any list of strings may be
  given, not only 32-bit binary ones.
- The random `Guid` shuffle and `Take(n)` in `CountConsecutiveGroups`
  build the selection. The model takes the selection as input. None of the
  proved properties need it to be sorted.
- `Main`, `OnTagsReported` and `Common` are left out. They are the reader
  event handler, console and file (`StreamWriter`) output, and the
  `Stopwatch` clock; the shared `Common` state is changed without any lock.
- ConsecutiveRuns.CountConsecutiveGroups: returns the mathematical sum for
  every input. The code's `Sum` over `int` is checked and throws
  `OverflowException` once n × groups − |selected| exceeds 2^31 − 1; that
  error path is not modelled.
- AnalyzeTags: the wrap-around of the unchecked `int` counters `loopCount`,
  `ectsBit` and the returned bits (Program.cs:171, 183, 193) is not
  modelled. Each successful round removes at least one target and adds at
  most 32 + 45 bits, so they stay below 2^31 for fewer than about 2.8·10^7
  targets; the program's only caller passes 100.
- AnalyzeTags: `n` and the bounds are `nat`. A negative `n` makes
  `Enumerable.Range` throw, and a negative length makes `Substring` throw.
- AnalyzeTags: the caller must pass targets of at least 32 characters
  whenever some length in `[lMin, 32]` is searched (`TargetsLongEnough`).
  Shorter targets make `Substring` throw.
- `n` need not equal the number of targets. A target index above the
  number of targets owns no candidate and stays unresolved, as in the code.
  When `n` is below the number of targets, the candidates of targets above
  `n` are still extracted, and the rounds still choose and charge groups
  made only of them, as in the code. This is why `RoundProgress` and
  `PlanChosenBounded` assume `AllUnresolved` (every candidate's target is
  unresolved), which holds when `n` equals the number of targets.
- IfExist: positions are `nat` with `start <= end`. Every call site passes
  such positions.
- AnalyzeTags: the round loop is `SelectRounds`, a method of its own called
  by `AnalyzeTags`. The loop guard is written as set emptiness, which is
  the same as `Count > 0`.
- The extraction's loops are three methods: `ExtractCandidates` (targets)
  calls `TargetWindows` (lengths), which calls `AppendWindows` (starts).
  Each appends to the same growing list, as the nested loops do.
- Tags are strings compared character by character, as `Substring` and
  `==` do. No encoding is modelled.
