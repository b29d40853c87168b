# idea-comet: the motion step, the constellation lines and the comet list

idea-comet shows ideas as "comets" floating on a full-screen canvas. This project models
and proves three parts of it in Dafny:

- **The motion step** (`SpaceCanvas`, from `tick` in `src/components/SpaceCanvas.tsx`).
  On every animation frame each moving comet advances by its velocity. It wraps around
  the viewport with a 50-pixel margin: below `-50` it reappears at `w + 50`, and above
  `w + 50` it reappears at `-50`, with the same rule for `y` against `h`. A comet whose
  velocity is zero on both axes is pinned and is returned unchanged.
- **The constellation lines** (`ConstellationLines`, from
  `src/components/ConstellationLines.tsx`). A double loop visits every pair `i < j` of
  comets. A pair closer than the threshold (200 by default) gives a line with key
  `id_i-id_j`, end points comet `i` and comet `j`, and opacity `1 - dist/threshold`. The
  loop is an imperative method, `BuildLines` with its inner loop `PushRow`. It is proved
  equal to a recursive specification, `Lines`. What the specification promises is
  proved as lemmas:
  - exactly the pairs under the threshold are joined, each once, in lexicographic order;
  - the loop visits exactly n(n-1)/2 pairs, so there are at most n(n-1)/2 lines;
  - each line has the right key and end points;
  - each opacity lies in (0, 1], is 1 exactly when the comets coincide, and grows as the
    comets get closer;
  - keys are distinct when ids are unique UUIDs.

  The pair enumeration is stated for an arbitrary test on pairs of indices. The lines are
  stated for an arbitrary map from a joined pair to what is drawn for it. The comets
  instantiate both.
- **The comet list** (`App`, from `src/App.tsx`). A class `App` holds the list of comets.
  Its methods are the four handlers of the application (add, remove, drop after a drag,
  clear all) plus the frame update that the canvas applies to the same list. Each method
  is specified by a function on the list (`NewComet`, `Without`, `Updated`,
  `SpaceCanvas.Tick`), and lemmas about those functions give:
  - uniqueness of ids is preserved;
  - removal is idempotent and keeps order;
  - a dropped comet stays where it was dropped.

The record of a comet, `CometData` of `src/types.ts`, is the datatype `Types.Comet`. Its
optional `createdAt` and `color` are `Option` values.

Values are modelled as follows:

- Numbers are mathematical reals.
- The browser's square root is a parameter `sqrt`. `IsSqrt` states what is assumed of it:
  non-negative, strictly increasing, and inverse to squaring on non-negative reals.
- The viewport size is the pair of parameters `w`, `h`.
- The UUID and the four `Math.random()` draws of `addComet` are parameters.

A few facts about the code shape the model:

- When a drag ends, `src/components/Comet.tsx:18` passes only the new position. `updateComet` then pins the comet there, with velocity zero.
- `src/App.tsx` has no setting that starts or stops the drift.
- A new comet's velocity is `(r - 0.5) * 0.8` on each axis, for a draw `r` in `[0, 1)`. That lies in `[-0.4, 0.4)`.
- A line carries a single string key, `id_i-id_j`.
- The list of comets is not saved or restored anywhere.

## Model

| member | source | states |
|---|---|---|
| Types.Comet.Stationary | src/types.ts:1-10 | the record `CometData` with its eight fields (optional ones as `Option`); a comet is pinned iff its velocity is zero on both axes, the test of src/components/SpaceCanvas.tsx:20 |
| SpaceCanvas.Wrap | src/components/SpaceCanvas.tsx:28-31 | a coordinate inside `[-50, extent+50]` is kept; below `-50` it becomes `extent+50`, and that is not undone by the second test; above `extent+50` it becomes `-50`; for any extent `>= -100` the result is inside the band |
| SpaceCanvas.Step | src/components/SpaceCanvas.tsx:19-34 | only `x` and `y` can change; a pinned comet is returned unchanged; a moving comet gets the wrapped `x+vx` and `y+vy`, and for a non-negative viewport it lands in the band |
| SpaceCanvas.Tick | src/components/SpaceCanvas.tsx:19 | same length; the comet at each position is the step of the comet that was there |
| SpaceCanvas.StepMovesInsideBand | src/components/SpaceCanvas.tsx:22-23 | a moving comet whose new position stays inside the band moves by exactly its velocity |
| SpaceCanvas.TickStationaryFixed | src/components/SpaceCanvas.tsx:20 | a list of pinned comets is a fixed point of the tick |
| SpaceCanvas.TicksStationaryFixed | src/components/SpaceCanvas.tsx:18-38 | it stays fixed over any number of frames |
| SpaceCanvas.TickKeepsIds | src/components/SpaceCanvas.tsx:33 | the tick keeps every id at its position, so unique ids stay unique |
| SpaceCanvas.TickKeepsBand | src/components/SpaceCanvas.tsx:28-31 | once every comet lies in the wrap band, every comet still lies in it after a frame |
| SpaceCanvas.TicksKeepBand | src/components/SpaceCanvas.tsx:18-38 | the band is kept over any number of frames |
| SpaceCanvas.WrapExamples | src/components/SpaceCanvas.tsx:22-31 | on a 1000-wide viewport: 100 moving by 2 gives 102; 1051 moving by 1 wraps to -50; -51 moving by -1 wraps to 1050 |
| ConstellationLines.LineFor | src/components/ConstellationLines.tsx:17-25 | the line of a near pair: a near pair forces a positive threshold, so the division is defined, and its opacity `1 - dist/threshold` lies in (0, 1] |
| ConstellationLines.Lines | src/components/ConstellationLines.tsx:9-28 | the drawing has one line per joined pair, and every line has an opacity in (0, 1] |
| ConstellationLines.RowPairs | src/components/ConstellationLines.tsx:12-16 | every pair the inner loop joins on row `i` is `(i, j')` with `i < j' < j` and passes the test |
| ConstellationLines.PairsBefore | src/components/ConstellationLines.tsx:11-16 | every pair joined before row `i` has first index below `i`, satisfies `i < j < n` and passes the test |
| ConstellationLines.RowPairsOrdered | src/components/ConstellationLines.tsx:12 | a row has at most as many pairs as inner steps, in strictly increasing order of the second index |
| ConstellationLines.PairsBeforeCount | src/components/ConstellationLines.tsx:11-12 | at most `i(2n-i-1)/2` pairs before row `i` |
| ConstellationLines.RowPairsAll | src/components/ConstellationLines.tsx:12 | when every pair passes the test, row `i` up to `j` holds exactly `j-i-1` pairs, one per inner step |
| ConstellationLines.PairsBeforeAll | src/components/ConstellationLines.tsx:11-12 | when every pair passes the test, there are exactly `i(2n-i-1)/2` pairs before row `i` |
| ConstellationLines.PairsVisited | src/components/ConstellationLines.tsx:11-12 | the double loop visits exactly n(n-1)/2 pairs |
| ConstellationLines.PairsBeforeOrdered | src/components/ConstellationLines.tsx:11-12 | the pairs before row `i` are in strictly increasing lexicographic order |
| ConstellationLines.RowPairsComplete | src/components/ConstellationLines.tsx:12-16 | every `j'` below `j` joined with `i` is in the row |
| ConstellationLines.PairsBeforeComplete | src/components/ConstellationLines.tsx:11-16 | every joined pair with first index below `i` is among the pairs before row `i` |
| ConstellationLines.PairsSoundComplete | src/components/ConstellationLines.tsx:11-16 | a pair is visited and kept iff `i < j < n` and it passes the test; pairs are in strictly increasing lexicographic order, hence distinct; there are at most n(n-1)/2 |
| ConstellationLines.NoPairsUnderTwo | src/components/ConstellationLines.tsx:11-12 | fewer than two comets give no pair |
| ConstellationLines.ImagesAppend | src/components/ConstellationLines.tsx:18 | pushing one list of lines after another gives the lines of the two lists of pairs put end to end |
| ConstellationLines.RowLinesMatch | src/components/ConstellationLines.tsx:12-26 | what the inner loop of a row pushes is, element by element, the line of each pair of the row |
| ConstellationLines.LinesBeforeMatch | src/components/ConstellationLines.tsx:11-28 | what the double loop pushes before row `i` is, element by element, the line of each pair joined before row `i` |
| ConstellationLines.BuildLines | src/components/ConstellationLines.tsx:8-28 | the double loop returns exactly the drawing `Lines`; the threshold defaults to `DefaultThreshold`, 200 |
| ConstellationLines.BuildDefaultLines | src/components/SpaceCanvas.tsx:44 | the canvas draws the lines without a threshold, so it gets the drawing `Lines` at the default threshold 200 |
| ConstellationLines.PushRow | src/components/ConstellationLines.tsx:12-27 | the inner loop of row `i` appends exactly the row's lines to what was pushed before |
| ConstellationLines.VisitPair | src/components/ConstellationLines.tsx:13-26 | one step of the inner loop appends the pair's line exactly when the pair is near, and nothing otherwise |
| ConstellationLines.LineAtDefined | src/components/ConstellationLines.tsx:16-25 | the line of every pair that passes the test of line 16 is defined: its precondition holds, so it is `LineFor` of the pair |
| ConstellationLines.RowLinesStep | src/components/ConstellationLines.tsx:12-26 | one more inner step on the comets appends `LineFor(comets[i], comets[j])` exactly when the pair is near |
| ConstellationLines.LoopDistance | src/components/ConstellationLines.tsx:13-16 | `sqrt(dx*dx + dy*dy)` is the non-negative Euclidean distance, and the loop's test `dist < threshold` is `Near` |
| ConstellationLines.LoopLine | src/components/ConstellationLines.tsx:17-25 | the line the loop builds (key `id_i-id_j`, end points, opacity `1 - dist/threshold`) is the pair's `LineFor` |
| ConstellationLines.JoinedSoundComplete | src/components/ConstellationLines.tsx:11-16 | a pair of comets is joined iff `i < j < n` and its distance is strictly below the threshold |
| ConstellationLines.LinesOfPairs | src/components/ConstellationLines.tsx:9-28 | one line per joined pair, in the same order, so at most n(n-1)/2; line `k` of pair `(i, j)` is `LineFor` of the pair: key `id_i-id_j`, from comet `i` to comet `j`, opacity `1 - distance/threshold`, which lies in (0, 1] |
| ConstellationLines.KeyInjective | src/components/ConstellationLines.tsx:19 | a key `a-b` gives back `a` and `b` when the first parts have equal length |
| ConstellationLines.KeysDistinct | src/components/ConstellationLines.tsx:18-19 | with unique ids of one common length, no two lines share a key |
| ConstellationLines.KeyClashExample | src/components/ConstellationLines.tsx:19 | with ids of different lengths two different pairs can produce the same key |
| ConstellationLines.DistanceSign | src/components/ConstellationLines.tsx:15 | the distance is non-negative, and zero iff the comets are at the same place |
| ConstellationLines.NearIffSquared | src/components/ConstellationLines.tsx:15-16 | the threshold test is `dx*dx + dy*dy < t*t` with `t > 0`; a pair exactly at the threshold is not joined |
| ConstellationLines.OpacityRange | src/components/ConstellationLines.tsx:16-17 | for a joined pair the threshold is positive, the opacity is in (0, 1], and it is 1 iff the comets coincide |
| ConstellationLines.OpacityMonotone | src/components/ConstellationLines.tsx:17 | the closer of two joined pairs has the greater or equal opacity, and conversely |
| ConstellationLines.JoinedExample | src/components/ConstellationLines.tsx:8-17 | with the default threshold, comets 150 apart are joined with opacity 0.25 |
| ConstellationLines.ThresholdExcludedExample | src/components/ConstellationLines.tsx:8-16 | with the default threshold, comets exactly 200 apart are not joined |
| App.NewComet | src/App.tsx:11-18 | keeps the given id and text, with no createdAt and no color; for draws in `[0, 1)` it lies within 100 pixels of the viewport's centre on each axis (in `[c-100, c+100)`), with a velocity in `[-0.4, 0.4)` per axis; it is pinned iff both velocity draws are 0.5 |
| App.Without | src/App.tsx:23 | a comet is kept iff it was in the list and its id differs from `id`; `id` no longer occurs; the list does not grow |
| App.Pin | src/App.tsx:27 | the comet is at `(x, y)`, pinned, and keeps its id, text, createdAt and color |
| App.Updated | src/App.tsx:27 | same length; each comet with id `id` is pinned at `(x, y)`; every other comet is unchanged |
| App.UniqueIdsCons | src/App.tsx:23 | helper of `WithoutUnique`: putting a kept comet back in front of what the filter keeps of the rest, when its id is new there, keeps the ids unique |
| App.AddKeepsUnique | src/App.tsx:19 | appending a comet whose id is new keeps the ids unique |
| App.WithoutAbsent | src/App.tsx:23 | removing an id no comet has changes nothing |
| App.WithoutIdempotent | src/App.tsx:23 | removing twice by the same id is removing once |
| App.WithoutAppend | src/App.tsx:23 | removal keeps the order: removing from a concatenation removes from each part |
| App.WithoutUnique | src/App.tsx:23 | removal keeps the ids unique |
| App.WithoutRemovesOne | src/App.tsx:23 | with unique ids, removing an id that occurs removes exactly one comet |
| App.UpdatedKeepsIds | src/App.tsx:27 | a drop keeps every id at its position, so unique ids stay unique |
| App.UpdatedAbsent | src/App.tsx:27 | a drop on an id no comet has changes nothing |
| App.UpdatedStaysPut | src/App.tsx:27 | the dropped comet is at `(x, y)` and the next frame leaves it there |
| App.UpdatedThenRemoved | src/App.tsx:23-27 | dropping a comet and then removing it is the same as removing it |
| App.App.constructor | src/App.tsx:8 | the list starts empty, and so its ids are unique |
| App.App.AddComet | src/App.tsx:10-20 | the new comet is appended at the end; unique ids stay unique when the new id is fresh |
| App.App.RemoveComet | src/App.tsx:22-24 | the list becomes `Without(old list, id)`; unique ids stay unique |
| App.App.UpdateComet | src/App.tsx:26-28 | the list becomes `Updated(old list, id, x, y)`; unique ids stay unique |
| App.App.ClearAll | src/App.tsx:39 | the list becomes empty |
| App.App.Advance | src/components/SpaceCanvas.tsx:19-34 | the list becomes its tick; unique ids stay unique |

## Left out

- The animation loop itself (`requestAnimationFrame` and its cancellation). One frame is `Tick` and `App.App.Advance`; several frames are `Ticks`.
- Reading the viewport size. `w` and `h` are parameters.
- `crypto.randomUUID` and `Math.random`. Their results are parameters of `App.App.AddComet`.
- App.App.AddComet: keeps unique ids only when the given id is new. That UUIDs do not collide is outside the model.
- IEEE-754 doubles: rounding, NaN and infinities are not modelled. Coordinates, velocities, distances and opacities are reals.
- `Math.sqrt` is a parameter, assumed to satisfy `IsSqrt`. Only `RootNonNeg` is needed for the loop and its specification to be well defined.
- The inner loop and its body appear as the separate methods `PushRow` and `VisitPair`. The source writes them inline in one function; the computation is the same.
- The SVG rendering of the lines (`src/components/ConstellationLines.tsx:30-59`): stroke width, the glow filter above opacity 0.6, and the 0.35 factor on the displayed opacity.
- React state semantics. Each `setComets(prev => ...)` update is one method call on `App`; batching and re-rendering are not modelled.
- `src/components/Comet.tsx` (drag gestures, long press, the melt animation), `src/components/ListView.tsx`, `src/components/InputManager.tsx` (including its trimming of the input and its empty-input guard), `src/components/StarField.tsx` and the colour table of `src/types.ts` are not part of this model.
