# lcs.js in Dafny

A model of `lib/lcs.js`, a differ that compares two sequences by the longest
common subsequence, with inserts and deletes as its only edits. It has two
public operations:

- `compare(a, b)` measures the common prefix and suffix. It then builds an
  edit-distance matrix over what lies between them. The matrix has
  `rows + 1` rows, one per remaining element of `b` plus one. It has
  `cols + 1` columns, one per remaining element of `a` plus one. Every cell
  holds a cost (`value`) and a move (`type`): `RIGHT`/`REMOVE` (-1),
  `DOWN`/`ADD` (1) or `SKIP`/`EQUAL` (0).
- `reduce(f, r, lcs)` folds the caller's `f` over the edit script in three
  parts: one shared `skip` record per prefix element, then a walk from the
  top-left cell that follows each cell's move, then one shared `skip` per
  suffix element.

The model is in four modules:

- `EditDistance` (`edit_distance.dfy`) defines the reference.
  - `EditDist` is the insert/delete edit distance. `Transforms` says when an
    edit script turns one sequence into another, and `Cost` counts a
    script's edits.
  - It proves that the distance is symmetric and is a lower bound on every
    script's cost.
  - It also proves that stripping a shared prefix and suffix does not change
    the distance.
- `Lcs` (`lcs.dfy`) models the source's own functions.
  - The constants are the `OpType` enumeration, with both names of each
    value.
  - The scans are methods with loops, and the matrix is an `array2<Op>`
    filled in place.
  - `reduce` is a method with the source's three loops. Its result is tied
    to `Trace`, the sequence of calls it makes, folded with `f`.
- `LcsTheorems` (`lcs_theorems.dfy`) proves what the walk does over a
  complete matrix:
  - it reaches the corner;
  - it makes exactly `EditDist(a, b)` edits, so no edit script makes fewer;
  - the moves it takes form an edit script.
- `LcsFindings` (`lcs_findings.dfy`) covers three things:
  - when `compare`'s result can be trusted;
  - the result for a sequence compared with itself, and for the tie-break
    example;
  - the two places where the source's output is not an edit script of `a`
    into `b`.

Elements are compared with Dafny's `==`, which stands for JavaScript's
`===`. Matrix reads that JavaScript answers with `undefined` end a reduction
in `Undefined(row, col)`. The shared `skip` record is `Lcs.SharedSkip`, with
value 1 (lib/lcs.js:20).

## Model

| member | source | states |
|---|---|---|
| Lcs.Code | lib/lcs.js:8-12 | `REMOVE`/`RIGHT` are -1, `SKIP` is 0 and `ADD`/`DOWN` is 1; the sign tells the type. |
| Lcs.FromCode | lib/lcs.js:8-18 | Exactly -1, 0 and 1 name an operation type, and each names the type whose code it is. |
| Lcs.FindPrefix | lib/lcs.js:103-110 | Returns n ≤ min(\|a\|, \|b\|). The first n elements agree, and either n reaches the shorter length or a[n] ≠ b[n]. |
| Lcs.SuffixScanLimit | lib/lcs.js:113-115 | The suffix scan looks at exactly one position fewer than the shorter length, and at none when one sequence is empty. |
| Lcs.FindSuffix | lib/lcs.js:112-123 | Returns s within the scan limit. The last s elements agree, and either s is the limit or the elements just before them differ. |
| Lcs.ScanBack | lib/lcs.js:116-120 | The scan loop counts equal trailing elements. It looks at no more than l positions and stops at the first mismatch. |
| Lcs.FindSuffixWithin | lib/lcs.js:112-123 | Corrected scan: the source's limit of the shorter length less one, lowered where needed to what the prefix leaves. Prefix and suffix are shared and fit side by side. The scan stopped at one of the two limits or at the first mismatch. |
| Lcs.CreateMatrix | lib/lcs.js:136-155 | A fresh matrix of rows+1 by cols+1 cells. Last row `{cols-j, RIGHT}`, last column `{rows-i, DOWN}`, corner `{0, SKIP}`. |
| Lcs.BoundaryCells | lib/lcs.js:139-152 | The values `createMatrix` writes are the edit distances and moves of the boundary cells. |
| Lcs.Backtrack | lib/lcs.js:125-134 | When the three neighbours hold the distances of their suffix pairs, the cell gets its own distance. Its move is `SKIP` on equal elements, otherwise `RIGHT` only when strictly cheaper than `DOWN`. |
| Lcs.FillColumn | lib/lcs.js:47-49 | Filling column j bottom to top leaves that column correct, as well as all cells already filled. |
| Lcs.FillMatrix | lib/lcs.js:46-50 | Filling the columns right to left leaves every cell equal to its specified distance and move. |
| Lcs.TrimmedMatrix | lib/lcs.js:41-50 | The matrix for what prefix and suffix leave has rows+1 by cols+1 cells (no cells when negative). When they do not overlap, it is the complete matrix of the middles. |
| Lcs.Compare | lib/lcs.js:29-57 | `prefix` is the longest common prefix. `suffix` is 0 when the prefix used up either sequence, else the scan's result. The dimensions follow, and the matrix is complete when prefix and suffix do not overlap. |
| Lcs.CompareWithin | lib/lcs.js:29-57 | The corrected `compare` returns the longest common prefix and the bounded suffix. It always describes a and b: shared, non-overlapping prefix and suffix, and the complete matrix of the middles. |
| Lcs.ReduceSkips | lib/lcs.js:70-74 | The prefix loop (and, from the walk's cursor, the suffix loop) continues the fold of `f` from the accumulator it is given over n calls with the shared skip at (i0+t, j0+t). |
| Lcs.ReduceWalk | lib/lcs.js:76-90 | The walk loop continues the fold of `f` from the accumulator it is given over the calls of `WalkFrom`, ending at its cursor, or fails exactly where the walk reads a missing cell. |
| Lcs.Reduce | lib/lcs.js:67-101 | The result is `f` folded over prefix calls, walk calls and suffix calls in that order. The suffix calls start at the cursor the walk left, shifted by the prefix. It is undefined exactly where the walk reads a missing cell. |
| LcsTheorems.CellStep | lib/lcs.js:125-134 | Every non-corner cell's move stays inside the matrix and costs the target's value, plus one for an edit. A `SKIP` sits on equal elements. |
| LcsTheorems.WalkReachesCorner | lib/lcs.js:76-90 | From any cell the walk finishes. It reports the corner last as `{0, SKIP}` at (prefix+rows, prefix+cols) and leaves the cursor at (rows+1, cols+1). |
| LcsTheorems.WalkCountsEdits | lib/lcs.js:76-90 | The walk from a cell reports as many `RIGHT` and `DOWN` moves as that cell's value, which is the edit distance of what remains. |
| LcsTheorems.WalkIsScript | lib/lcs.js:76-90 | The moves before the corner form an edit script from the remaining middle of a to that of b. |
| LcsTheorems.WalkSkipsMatch | lib/lcs.js:82-89 | Every non-corner `SKIP` the walk reports points at equal elements, a[j] = b[i]. |
| LcsTheorems.WalkReplays | lib/lcs.js:76-90 | Applying the calls before the corner to a produces the rest of b's middle. |
| LcsTheorems.TraceShape | lib/lcs.js:67-101 | The calls are the prefix, the walk ending at the corner, and then the suffix starting one past the corner. |
| LcsTheorems.WalkCostIsDist | lib/lcs.js:76-90 | The walk over the whole matrix makes `EditDist(a, b)` edits. |
| LcsTheorems.TraceEditCount | lib/lcs.js:67-101 | `reduce` reports exactly `EditDist(a, b)` removes and adds. |
| LcsTheorems.TraceIsOptimal | lib/lcs.js:67-101 | No edit script from a to b makes fewer edits than `reduce` reports. |
| LcsTheorems.EditCountSymmetric | lib/lcs.js:29-57 | Comparing b with a reports as many edits as comparing a with b. |
| LcsTheorems.IntendedTraceReplays | lib/lcs.js:92-98 | With the corner dropped and the suffix started at the corner, the calls turn a into b. |
| LcsTheorems.IntendedTraceIsScript | lib/lcs.js:92-98 | The corrected calls' types form an edit script from a to b. |
| LcsTheorems.IntendedTraceSameEdits | lib/lcs.js:92-98 | The correction changes no edit: it makes the same number of removes and adds as the source's calls. |
| LcsTheorems.ReduceCountsEdits | lib/lcs.js:67-101 | Reducing with an edit counter from 0 yields `EditDist(a, b)`. |
| LcsFindings.NoOverlapDescribes | lib/lcs.js:33-44 | When prefix and suffix fit side by side, `compare`'s result describes a and b. |
| LcsFindings.EqualLengthsDescribe | lib/lcs.js:33-44 | For sequences of equal length, prefix and suffix never overlap. |
| LcsFindings.CompareSelf | lib/lcs.js:29-101 | A sequence against itself is all prefix with a one-cell matrix. `reduce` reports one skip per element and then the corner. |
| LcsFindings.OneByOneWalk | lib/lcs.js:81-90 | Over the matrix of two different single elements, the walk adds, then removes, then reports the corner. |
| LcsFindings.TieNotMirrored | lib/lcs.js:129-133 | [2] against [5] and [5] against [2] both give add, remove, skip: swapping the sequences does not mirror the edits. |
| LcsFindings.TieGoesToAdd | lib/lcs.js:129-133 | [1,2,3,4] against [1,5,3,4] gives prefix 1 and suffix 2. The calls are skip, add, remove, skip (corner), skip, skip, so on a tie the add comes first. |
| LcsFindings.OverlapHidesEdit | lib/lcs.js:35-44 | As written, [1,1,1,2] against [1,1,2] gives prefix 2 and suffix 2, and `reduce` reports four skips and no edit though the distance is 1. |
| LcsFindings.OverlapFailsToReduce | lib/lcs.js:41-44 | As written, [1,1,1] against [1,1,2,1,1] leaves the matrix rows without cells, and `reduce` fails reading the first one. |
| LcsFindings.WithinKeepsEdit | lib/lcs.js:112-123 | On [1,1,1,2] against [1,1,2], the corrected `compare` finds suffix 1 and reports the one edit. |
| LcsFindings.PrefixLenUnique | lib/lcs.js:103-110 | The longest common prefix has only one length. |
| LcsFindings.WithinAgreesWithScan | lib/lcs.js:112-123 | When the source's suffix does not reach into the prefix, the bounded scan returns the same suffix. |
| LcsFindings.CompareWithinAgrees | lib/lcs.js:29-57 | When `compare`'s prefix and suffix do not overlap, the corrected `compare` gives the same prefix, suffix, dimensions and cells. The correction changes only the overlapping inputs. |
| LcsFindings.TraceOverruns | lib/lcs.js:81-98 | As written, the last call is a skip at (\|b\|, \|a\|), past both sequences, so the calls never turn a into b. |
| LcsFindings.TraceEndsPastBoth | lib/lcs.js:81-98 | As written, the last call is a skip at row \|b\| and column \|a\|. |
| EditDistance.EditDistMinimal | lib/lcs.js:125-134 | The distance the cells hold is at most the edit count of every edit script. |
| EditDistance.TrimKeepsDist | lib/lcs.js:33-43 | Removing a shared prefix and suffix does not change the edit distance. |
| EditDistance.EditDistSym | lib/lcs.js:125-134 | The insert/delete distance is the same in both directions. |

## Left out

- Module exports (lib/lcs.js:5-6, 14-18) are not modelled. The constants are the `OpType` enumeration, with the names bound as Dafny constants.
- JavaScript `===` is modelled as Dafny's `==` on a type with equality. `NaN`, object identity and floating point are out of scope.
- Array-like inputs such as strings and `arguments` are modelled as sequences.
- The caller's `f` is a pure function value. Its side effects are not modelled.
- Lcs.Reduce: when the walk reads a missing cell, the source first calls `f` with `undefined` and then fails on `op.type`. The model returns `Undefined(row, col)` without that last call.
- A move type other than the three cannot occur in the model. So the source's endless loop on a foreign matrix with an unknown `type` is not modelled.
- Lcs.CreateMatrix: with a negative dimension the source writes to negative indices, which no later read sees. The model allocates no rows, or rows with no cells. The matrix is one `array2`, not an array of separately allocated rows.
- LcsTheorems.EditCountSymmetric: only the count of edits is proved equal. Removes and adds do not swap at mirrored positions: a tie goes to the add in both directions (`LcsFindings.TieNotMirrored`).
- For a sequence compared with itself, a natural description expects one skip per element. The code also reports the corner cell, so it makes one call more, and the model follows the code (`LcsFindings.CompareSelf`).
- Memory use and running time are not modelled.

## Findings

| source | as written | input that shows it | evidently intended | confidence | as-written member | corrected member |
|---|---|---|---|---|---|---|
| lib/lcs.js:112-123 | The suffix scan is bounded by the shorter length less one and ignores the prefix, so prefix and suffix can overlap | a = [1,1,1,2], b = [1,1,2]: prefix 2, suffix 2, and `reduce` reports four skips and no edit. a = [1,1,1], b = [1,1,2,1,1] (`LcsFindings.OverlapFailsToReduce`): `reduce` fails on `matrix[0][0]` | The scan also stops where the prefix ends, so the trimmed middles are never negative; inputs without overlap keep their result (`LcsFindings.CompareWithinAgrees`) | high, not executed | LcsFindings.OverlapHidesEdit | Lcs.CompareWithin |
| lib/lcs.js:81-98 | The walk also reports the corner cell, as a skip at (prefix+rows, prefix+cols). The suffix calls then start one past it | a = b = [1]: calls at (0,0) and (1,1), and the second points past both sequences. In general the last call is at (\|b\|, \|a\|) | The walk stops at the corner, and the suffix calls start at (prefix+rows, prefix+cols) | medium, not executed | LcsFindings.TraceOverruns | LcsTheorems.IntendedTraceReplays |
