# ASCII morph engine, modelled in Dafny

`js/ascii-morph.js` animates a header made of ASCII-art frames ("fonts"). Each
frame is centred in a fixed character grid. On every animation tick the engine
either starts a transition to the next frame or continues the current one.
Starting a transition picks the next font in round-robin order, a transition
type by a weighted draw, and a randomised duration. Continuing draws one frame.
A transition ends once the elapsed time exceeds its duration plus a hold.

There are two kinds of transition:

- The **organic** transition keeps two per-cell grids: an *activity* grid and a
  *progress* grid. Activity is 1 where source and target differ. It spreads
  to neighbours and decays. Progress grows every tick, faster where activity
  is high.
- The **field-based** transitions (distance, noise and ripple) compute one
  scalar field per transition. The field is histogram-equalised and
  box-blurred. A front then sweeps the cells in field order.

In both kinds a cell's character moves along a *dynamic ladder*. The ladder is
a density-ordered ramp of exactly the characters present in the two frames.
Each drawn frame then gets a small random *jitter* that swaps characters for
look-alikes. Keyboard controls and a small public API change the
configuration, the transition type and the pause state.

The model has one module per part of the engine:

| module | file | models |
|---|---|---|
| `Util` | util.dfy | `clamp`, `lerp`, `easeInOutCubic`, `Math.round`, and a monotone stand-in for `Math.pow(., 1.8)` |
| `Text` | text.dfy | `trimEnd`, `replace(/\s+$/, '')`, `padEnd`, `split('\n')`, `String(n)` |
| `Grids` | grids.dfy | fonts and grids, font loading, `centerASCII` |
| `Ladder` | ladder.dfy | `buildDynamicLadder` and `estimateDensity` |
| `Tween` | tween.dfy | `createSmartTweener`: the index table, `glyphIndex`, `tweenChar` |
| `Activity` | activity.dfy | `updateActivity` |
| `Fields` | fields.dfy | `buildDistanceField`, `buildNoiseField`, `buildRippleField`, `equalizeAndBlur` |
| `Jitter` | jitter.dfy | `JITTER_MAP`, `applyJitter` |
| `Render` | render.dfy | the frame loops of `organicTransition` and `fieldBasedTransition` |
| `Schedule` | schedule.dfy | the start decisions of `animate`: type draw, duration, font order |
| `Controls` | controls.dfy | `CONFIG`, the keyboard handler's configuration steps, `set` |
| `EngineState` | state.dfy | the invariant tying the engine's state together |
| `Driver` | driver.dfy | the engine itself: class `Engine` with the module state, `animate`, the controls, the API |

The pure parts are functions with lemmas. The loops of the source are methods
with `while`/`for` loops and invariants. Each loop method is proved equal to a
specification function or to stated properties. This covers the ladder
construction, `centerASCII`, the three activity passes, the drawing loops, the
field builders and the blur.

The distance transform works in place on an `array2<real>`, as the source
updates `d[y][x]`. The engine's module-level variables are the fields of the
class `Driver.Engine`. Its methods carry `modifies` clauses, and every one
preserves `Engine.Valid()`. That invariant says:

- every key has a value;
- there is at least one font;
- the grids have the engine's size;
- a running transition has its frames, a next font and a positive duration;
- a cached ladder holds every character of the current frames;
- a cached field lies in [0,1].

Randomness, the clock and the browser become parameters:

- each `Math.random()` draw is a value in [0,1): `rDuration` and `rStrategy`
  for a start, and `roll(y, x)` for the two jitter draws of a cell;
- `time` is the `requestAnimationFrame` timestamp, and `now` is the
  `Date.now()` reading `say` uses;
- Perlin noise, `Math.pow(., 1.8)`, `Math.hypot` and the floating-point `%` are
  fixed functions of the engine. They are constrained only by the properties
  the engine relies on: noise in [-1, 1], the power a monotone map of [0,1]
  onto itself that fixes 0 and 1, a non-negative hypot, and a remainder of a
  non-negative dividend in [0, |wl|).

Details of the code that the model keeps exactly:

- The duration factor is `0.8 + r*0.4` for a draw `r` in [0,1), so it lies in
  [0.8, 1.2) (`Schedule.Duration`).
- The chamfer diagonal weight is the constant 1.414 (`Fields.DIAG`).
- The neighbour maximum of the activity update ranges over the whole 3x3
  block, the cell itself included (`Activity.NeighbourMax`).
- The progress increment divides by the configured base duration
  `TRANSITION_BASE_MS`, not by the randomised duration of the running
  transition (`Activity.Increment`).
- A start always draws the transition type again, so a type chosen by `use`
  or by the keys o, d, r and f is overwritten by the draw. The engine does
  the same (`Driver.Engine.BeginTransition`); the Findings section states
  the corrected choice beside it.

Quirks of the code that the model keeps and states:

- The base ramp lists 'L' twice. The ladder keeps its first place only
  (`Ladder.Backbone`).
- Two ramp characters, '·' and '\'', are missing from the density table and
  score 50 (`Ladder.UnscoredRampCharacters`).
- The default propagation speed 0.015 lies below the [0.05, 0.5] range of the
  w/s keys. So the key meant to lower it raises it to 0.05
  (`Controls.DefaultSpeedBelowRange`).
- A character missing from the ladder starts its tween from the middle of the
  ladder, not from itself (`Tween.TweenCharUnknownSource`).
- The field-based global progress is eased but not clamped
  (`Render.GlobalProgress`).
- The index starts at 1 while `nextFont` is `fonts[1]`, and a start first
  steps the index, so the first transition goes to `fonts[2 % n]`: with two
  fonts it morphs the first font into itself, and with three or more
  `fonts[1]` is skipped until the second round
  (`Driver.Engine.StartFromIndexOne`).

## Model

| member | source | states |
|---|---|---|
| Util.Clamp | js/ascii-morph.js:46 | the result lies in [a, b] when a <= b; it is v inside the range, a below it and b above it |
| Util.Lerp | js/ascii-morph.js:47 | the interpolation gives a at t = 0 and b at t = 1, and stays between a and b for t in [0,1] |
| Util.LerpMonotone | js/ascii-morph.js:47 | a larger t moves the interpolation from a toward b |
| Util.EaseInOutCubic | js/ascii-morph.js:48 | the curve maps [0,1] into [0,1], fixes 0 and 1, and stays at most 1/2 before the midpoint and at least 1/2 after it |
| Util.EaseMonotone | js/ascii-morph.js:48 | the easing curve is monotone on [0,1] |
| Util.EaseOutside | js/ascii-morph.js:48 | outside [0,1] the curve is not clamped: it is at most 0 below 0 and at least 1 above 1 |
| Util.Round | js/ascii-morph.js:195-196 | `Math.round` gives the integer r with r <= x + 1/2 < r + 1 |
| Util.RoundBetween | js/ascii-morph.js:195-196 | rounding a value that lies between two integers stays between them |
| Text.TrimEnd | js/ascii-morph.js:120 | `trimEnd` gives the longest prefix that does not end in white space; everything removed is white space |
| Text.PadEnd | js/ascii-morph.js:75 | `padEnd(w, ' ')` keeps the line as a prefix and fills with spaces up to length w; a line at least w long is kept as it is |
| Text.TrimEndPadEnd | js/ascii-morph.js:75 | padding a line and trimming it again gives the trimmed line back |
| Text.Split | js/ascii-morph.js:75 | `split('\n')` never gives an empty list, no piece holds a newline, and joining the pieces with newlines gives the text back |
| Text.IsSpace | js/ascii-morph.js:75 | on ASCII, the white space of `\s` is exactly the blank and the characters from tab to carriage return |
| Text.NatToString | js/ascii-morph.js:433 | `String(n)` for a non-negative integer is a non-empty string of decimal digits, without a leading zero, whose value is n |
| Grids.FontLines | js/ascii-morph.js:73-76 | a font's lines come from the text with its trailing white space removed, split at newlines; each is padded to the grid width; there is at least one line |
| Grids.FontLinesTrim | js/ascii-morph.js:75 | trimming a loaded line gives back the trimmed piece of the text, whatever the padding width |
| Grids.MaxTrimmedLen | js/ascii-morph.js:120 | the value is the length of the longest trimmed line: no line is longer and some line reaches it |
| Grids.PadX | js/ascii-morph.js:121 | when the widest trimmed line fits, the left padding is half the spare width, rounded down; otherwise it is 0 |
| Grids.PadY | js/ascii-morph.js:122 | when the lines fit, the top padding is half the spare height, rounded down; otherwise it is 0 |
| Grids.CenteredCell | js/ascii-morph.js:123-128 | a cell on a placed line holds that line's character; every other cell, above or left of the padding or below the last line, is blank |
| Grids.CopyLine | js/ascii-morph.js:127 | the inner copy writes the line's characters from column padX on, clipped at the row's end, and leaves every other cell as it was |
| Grids.PlaceLine | js/ascii-morph.js:124-129 | one turn of the outer loop copies line n at the offsets, when its row is inside the grid, and keeps every line copied before |
| Grids.CenterASCII | js/ascii-morph.js:119-131 | the centred frame is h x w; each cell holds the character of the trimmed line that falls on it at offsets padX and padY, clipped right and bottom; every other cell is blank |
| Grids.CenterRoundTrip | js/ascii-morph.js:119-131 | when the frame fits, every trimmed line can be read back from the centred grid at its offsets |
| Ladder.UnscoredRampCharacters | js/ascii-morph.js:96-103 | '·' and '\'' belong to the base ramp but are missing from the density table, so they score 50 |
| Ladder.EstimateDensity | js/ascii-morph.js:101-104 | a density score lies in [0, 67]; it is 0 exactly for the blank and 67 exactly for '░' |
| Ladder.Filter | js/ascii-morph.js:100 | the filter keeps exactly the elements that pass, and never adds a repeat |
| Ladder.SetAdd | js/ascii-morph.js:89-93 | `Set.add` gives the old elements plus the new one, without repeats |
| Ladder.Backbone | js/ascii-morph.js:96-99 | the ramp walk keeps exactly the ramp characters that occur, each once; the blank comes first when it occurs |
| Ladder.BackboneInRampOrder | js/ascii-morph.js:99 | the characters the walk keeps are listed in the order of their first place in the ramp |
| Ladder.FirstBracket | js/ascii-morph.js:107-109 | the search finds the first position from i on that brackets the density, or the end when no position does |
| Ladder.InsertionPoint | js/ascii-morph.js:107-111 | a leftover goes to the first position i >= 1 whose neighbours' scores bracket its density; when there is none it goes to the end |
| Ladder.InsertByDensity | js/ascii-morph.js:109-111 | `splice(i, 0, c)` inserts c at the insertion point and keeps everything else in order; the first character stays first |
| Ladder.NoDupInsert | js/ascii-morph.js:109-111 | inserting a new character keeps the ladder free of repeats |
| Ladder.FilterInsert | js/ascii-morph.js:105-112 | inserting a character outside the ramp leaves the order of the ramp characters unchanged |
| Ladder.InsertAllShape | js/ascii-morph.js:105-112 | the leftover loop adds each leftover exactly once, keeps the first character, and leaves the ramp characters in their order |
| Ladder.InsertSorted | js/ascii-morph.js:100 | inserting into a sorted list keeps it sorted, and strictly sorted when the element is new |
| Ladder.InsertSortedPerm | js/ascii-morph.js:100 | inserting into a sorted list adds exactly that element to the multiset |
| Ladder.SortChars | js/ascii-morph.js:100 | `sort()` gives a sorted permutation of its input, strictly sorted when the input has no repeats |
| Ladder.StrictlySortedUnique | js/ascii-morph.js:100 | two strictly sorted lists with the same elements are equal, so the sorted leftovers are determined by their set |
| Ladder.LadderFromShape | js/ascii-morph.js:88-114 | the ladder holds every character of the set exactly once, starts with the ramp's first character, and lists its ramp characters as the ramp walk does |
| Ladder.LadderShape | js/ascii-morph.js:88-114 | for the base ramp, the ladder starts with the blank, holds each character of the set once, and keeps the base-ramp characters in ramp order |
| Ladder.GridCharsHas | js/ascii-morph.js:89-95 | every cell of either grid is among the collected characters |
| Ladder.CollectChars | js/ascii-morph.js:89-95 | the collecting loops give the blank first, then every character of either grid, each once |
| Ladder.TakeOne | js/ascii-morph.js:99 | one step of the ramp walk pushes a ramp character still in the set and deletes it from the set; any other character is skipped |
| Ladder.TakeRamp | js/ascii-morph.js:97-99 | the ramp walk gives the backbone of the collected characters; the set keeps exactly the characters outside the ramp |
| Ladder.PlaceOne | js/ascii-morph.js:106-111 | the inner loop for one leftover inserts it at its insertion point, or pushes it when nothing brackets its density |
| Ladder.PlaceAll | js/ascii-morph.js:105-112 | the leftover loop inserts the leftovers one after another, in order |
| Ladder.BuildDynamicLadder | js/ascii-morph.js:88-114 | the ladder is the one determined by the characters of both grids: blank first, each character once, exactly the characters that occur, ramp characters in ramp order |
| Tween.Lut | js/ascii-morph.js:186 | the table maps exactly the ladder's characters, each to its last index in the ladder |
| Tween.LutStep | js/ascii-morph.js:186 | the entry for the last character, added to the table of the rest, keeps the table's two properties |
| Tween.LutIndex | js/ascii-morph.js:186 | in a ladder without repeats the table gives every character its own index |
| Tween.GlyphIndex | js/ascii-morph.js:188 | `glyphIndex` is a valid index: 0 for the blank, a position of the character for a ladder character, and floor(MAX_DENS/2) for any other |
| Tween.GlyphIndexRoundTrip | js/ascii-morph.js:188 | every ladder character is found at its glyph index |
| Tween.GlyphIndexOfPosition | js/ascii-morph.js:186-188 | on a valid ladder the glyph index of the character at position k is k |
| Tween.Adjusted | js/ascii-morph.js:192-193 | the adjusted progress lies in [0,1]; it is 0 when the boosted progress is at most 0 and 1 when it is at least 1 |
| Tween.AdjustedMonotone | js/ascii-morph.js:192-193 | more progress never lowers the adjusted progress, for non-negative activity |
| Tween.Weight | js/ascii-morph.js:195-196 | the interpolation weight, plain for neighbouring glyphs and eased otherwise, lies in [0,1] |
| Tween.WeightMonotone | js/ascii-morph.js:195-196 | the weight grows with the progress, plain or eased |
| Tween.RoundLerpMonotone | js/ascii-morph.js:195-196 | the rounded interpolation moves from ia toward ib as the weight grows |
| Tween.TweenIndex | js/ascii-morph.js:191-197 | the tween reads a valid ladder index between the two glyph indices; it is the source's index at no progress and the target's at full progress |
| Tween.TweenIndexMonotone | js/ascii-morph.js:191-197 | with non-negative activity the index moves monotonically from the source glyph toward the target glyph as progress grows |
| Tween.TweenChar | js/ascii-morph.js:189-198 | equal characters stay; otherwise the result is a ladder character whose index lies between the two glyph indices |
| Tween.TweenCharEndpoints | js/ascii-morph.js:189-198 | for characters of a valid ladder the tween shows the source at no progress and the target at full progress |
| Tween.TweenCharUnknownSource | js/ascii-morph.js:188-196 | a source character missing from the ladder starts from the middle of the ladder, not from itself |
| Activity.ZeroField | js/ascii-morph.js:145-148 | a fresh h x w grid of zeros |
| Activity.NeighbourMaxUpToSpec | js/ascii-morph.js:156-164 | after the first k offsets the running maximum is non-negative, bounds every in-grid cell visited, and is 0 or one of those cells |
| Activity.NeighbourMax | js/ascii-morph.js:156-164 | `maxNeighbor` is the largest previous activity in the 3x3 block around the cell, or 0: it bounds every in-grid block cell and is 0 or one of them |
| Activity.MaxNeighbour | js/ascii-morph.js:156-164 | the two neighbour loops compute the block maximum |
| Activity.Instant | js/ascii-morph.js:151 | the first pass's value is 1 exactly where source and target differ and 0 exactly where they agree |
| Activity.ActivityCell | js/ascii-morph.js:165-167 | the new activity is the largest of the instant value, the neighbour influence and the decayed previous value: at least each of them, and equal to one |
| Activity.ActivityCellBounds | js/ascii-morph.js:165-167 | with inputs in [0,1] the new activity stays in [0,1], and it is 1 where the grids differ |
| Activity.Variance | js/ascii-morph.js:173 | noise in [-1,1] and a non-negative LOCAL_VARIANCE give a variance in [0, LOCAL_VARIANCE] |
| Activity.Increment | js/ascii-morph.js:174-175 | with a positive base duration and non-negative variance and activity the increment is at least the base rate (1/60)(1000/TRANSITION_BASE_MS), which is positive |
| Activity.ProgressCell | js/ascii-morph.js:176 | progress never exceeds 1; it never goes down from a value at most 1, and gains at least the base rate per tick until it saturates |
| Activity.InstantPass | js/ascii-morph.js:148-153 | the first pass gives 1 exactly where source and target differ, else 0 |
| Activity.InfluencePass | js/ascii-morph.js:154-169 | the second pass sets each cell from the neighbour maximum of the previous grid and its decayed previous value; cells written earlier in the pass are never read |
| Activity.ProgressPass | js/ascii-morph.js:171-178 | the third pass advances every progress cell by its own increment, saturating at 1 |
| Activity.UpdateActivity | js/ascii-morph.js:147-179 | a whole update: the new activity and progress grids are, cell by cell, the three steps applied to the previous grids |
| Activity.ActivityStaysInUnit | js/ascii-morph.js:147-170 | over a tick, with parameters in [0,1], activity stays in [0,1] and is 1 wherever the frames differ |
| Render.OrganicGrid | js/ascii-morph.js:326-335 | the organic frame keeps every cell that is equal in both grids and shows a ladder character everywhere else |
| Render.OrganicRow | js/ascii-morph.js:328-334 | the inner loop tweens row y cell by cell with the cell's own progress and activity |
| Render.OrganicFrame | js/ascii-morph.js:326-335 | the outer loop builds the organic frame |
| Render.TweenCharStart | js/ascii-morph.js:189-198 | a cell with no progress shows its source, whatever its activity |
| Render.TweenCharComplete | js/ascii-morph.js:189-198 | a cell whose progress has reached 1 shows its target, for non-negative activity |
| Render.BoostReaches | js/ascii-morph.js:192-193 | progress of at least 1 stays at least 1 after the activity boost |
| Render.OrganicStart | js/ascii-morph.js:322-337 | with no progress anywhere the organic frame is the source frame |
| Render.OrganicComplete | js/ascii-morph.js:322-337 | once every cell's progress has reached 1 the organic frame is the target frame |
| Render.LocalProgress | js/ascii-morph.js:354-355 | a cell's progress lies in [0,1]; it is 0 until the global progress reaches the field value and rises linearly to 1 over the ramp width 0.3 |
| Render.LocalProgressMonotone | js/ascii-morph.js:354-355 | the front only moves forward: more global progress never lowers a cell's progress, and a lower field value is reached first |
| Render.FieldCell | js/ascii-morph.js:351-356 | a cell blank in both grids stays blank; equal cells stay; any other cell becomes a ladder character |
| Render.FieldCellFront | js/ascii-morph.js:351-356 | a cell shows its source until the front reaches its field value, and its target from 0.2 beyond it on |
| Render.FieldGrid | js/ascii-morph.js:348-358 | the field-based frame keeps every cell that is equal in both grids and shows a ladder character everywhere else |
| Render.FieldRow | js/ascii-morph.js:349-357 | the inner loop builds row y cell by cell, a cell blank in both grids staying blank |
| Render.FieldFrame | js/ascii-morph.js:348-358 | the outer loop builds the field-based frame |
| Render.FieldGridBehind | js/ascii-morph.js:348-358 | while the global progress is at most every field value the frame is the source frame |
| Render.FieldGridPast | js/ascii-morph.js:348-358 | once the global progress passes every field value by 0.2 the frame is the target frame |
| Render.GlobalProgress | js/ascii-morph.js:347 | the eased global progress is in [0,1] during the duration, at most 0 before it and at least 1 after it |
| Render.DivUnit | js/ascii-morph.js:347 | elapsed / duration is in [0,1] within the duration, at most 0 before it and at least 1 after it |
| Fields.ForwardCell | js/ascii-morph.js:211-214 | the four forward steps at one cell leave it no larger than before and no larger than its left and upper neighbours plus 1 or its upper diagonal neighbours plus 1.414, and equal to one of these, so exactly their minimum; no other cell changes and ink cells stay at 0 |
| Fields.BackwardCell | js/ascii-morph.js:219-222 | the four backward steps at one cell give exactly the minimum of its value and its right and lower neighbours plus 1 and lower diagonal neighbours plus 1.414; no other cell changes and ink cells stay at 0 |
| Fields.ForwardRow | js/ascii-morph.js:210-215 | one row of the forward pass: only that row changes, and each of its cells ends as the minimum of its earlier value and its forward neighbours plus the weights |
| Fields.BackwardRow | js/ascii-morph.js:218-223 | one row of the backward pass: only that row changes, and each of its cells ends as the minimum of its earlier value and its backward neighbours plus the weights |
| Fields.ForwardPass | js/ascii-morph.js:209-216 | after the forward raster pass every cell is exactly the minimum of its value before the pass, its left and upper neighbours' final distances plus 1 and its upper-left and upper-right neighbours' final distances plus 1.414 (the chamfer recurrence); ink cells stay at 0, other cells between 1 and INF, and every cell at INF on a grid without ink |
| Fields.BackwardPass | js/ascii-morph.js:217-224 | after the backward raster pass every cell is exactly the minimum of its value before the pass, its right and lower neighbours' final distances plus 1 and its lower-right and lower-left neighbours' final distances plus 1.414; the same invariant is kept |
| Fields.LargestReached | js/ascii-morph.js:225-226 | the maximum of the distances below INF: it bounds every one of them and is 0 or one of them |
| Fields.Normalise | js/ascii-morph.js:227-228 | a distance of 0, or in [1, INF] and not above the maximum when finite, normalises into [0,1], and to 0 exactly when it is 0 |
| Fields.ToField | js/ascii-morph.js:227-228 | the final map gives values in [0,1], 0 exactly at ink cells, and 1 everywhere on a grid without ink |
| Fields.BuildDistanceField | js/ascii-morph.js:205-229 | the distance field is 0 exactly at the target's ink cells, lies in [0,1], and is 1 everywhere when the target has no ink |
| Fields.NoiseCell | js/ascii-morph.js:236-238 | the octaves' weighted average of noise mapped into [0,1] lies in [0,1] |
| Fields.BuildNoiseField | js/ascii-morph.js:230-242 | the noise field is h x w with every value in [0,1] |
| Fields.RippleRaw | js/ascii-morph.js:250-251 | for a non-negative hypot and a bounded remainder the raw ripple value lies in [0, |wl|) |
| Fields.RippleMax | js/ascii-morph.js:247-254 | the first loop finds the largest raw value, or 0: it bounds every raw value and is 0 or one of them |
| Fields.RippleScaled | js/ascii-morph.js:255-256 | the second loop divides every raw value by the divisor |
| Fields.ScaledUnit | js/ascii-morph.js:255-256 | a value in [0, max] divided by max(1, max) lies in [0,1] and is 0 only when the value is |
| Fields.BuildRippleField | js/ascii-morph.js:243-257 | every value is the raw ripple value divided by the largest raw value, or by 1 when that is smaller (IsRippleField); so the field lies in [0,1], is 0 exactly where the raw value is, and keeps the order of the raw values |
| Fields.Bin | js/ascii-morph.js:261 | a value's histogram bin is below 256, and 255 for every value of at least 1 |
| Fields.BinMonotone | js/ascii-morph.js:261 | a larger value never falls into a lower bin |
| Fields.SumIncrement | js/ascii-morph.js:261 | counting a cell into a bin raises the histogram total by one |
| Fields.HistogramRow | js/ascii-morph.js:261 | counting one row adds to each bin exactly the number of the row's values in that bin, and the row's length to the total |
| Fields.Histogram | js/ascii-morph.js:260-261 | there are 256 counts; count b is the number of cells whose value falls into bin b; they sum to the number of cells, `total` |
| Fields.PrefixSumMonotone | js/ascii-morph.js:263 | prefix sums of the counts are non-negative and grow with the prefix |
| Fields.CumulativeShares | js/ascii-morph.js:263 | entry i of the cumulative table is the sum of the counts of bins 0 to i over the total |
| Fields.CdfShape | js/ascii-morph.js:263 | the shares lie in [0,1], grow with the bin, and reach 1 at the last bin |
| Fields.Equalize | js/ascii-morph.js:260-265 | each cell becomes the share of the field's cells whose bin is at most the cell's bin (`Equalized`); the values lie in [0,1], keep the order of the input, and are 1 wherever the input is at least 1 |
| Fields.BlurValuesBounded | js/ascii-morph.js:272 | the block values visited lie within any bounds the whole grid keeps |
| Fields.BlurCountPositive | js/ascii-morph.js:272-273 | the block of an in-grid cell always holds the cell itself, so `count` is at least 1 |
| Fields.MeanOfBounded | js/ascii-morph.js:273 | the mean of values in [lo, hi] lies in [lo, hi] |
| Fields.BlurCell | js/ascii-morph.js:271-273 | the mean of the in-grid cells of the 3x3 block lies in [0,1] when the grid does |
| Fields.BlurCellBounds | js/ascii-morph.js:271-273 | a blurred cell lies within any bounds that hold for the whole grid |
| Fields.BlurVisit | js/ascii-morph.js:272 | an in-grid neighbour adds its value to the sum and one to the count; any other neighbour changes neither |
| Fields.BlurRow | js/ascii-morph.js:272 | the inner neighbour loop adds the in-grid cells of one block row |
| Fields.BlurOne | js/ascii-morph.js:271-273 | the neighbour loops give the mean of the in-grid cells of the 3x3 block |
| Fields.BlurPass | js/ascii-morph.js:268-276 | one blur pass gives every cell its block mean, reading only the previous pass's grid: the result is `Blurred` of the grid |
| Fields.Blurred | js/ascii-morph.js:268-276 | a whole blur pass keeps a field in [0,1] inside [0,1] |
| Fields.BlurTimes | js/ascii-morph.js:266-277 | n blur passes, each over the grid the previous one produced, keep a field in [0,1] inside [0,1] |
| Fields.Passes | js/ascii-morph.js:266-267 | the loop `pass < FIELD_BLUR` runs the least number of times that is at least FIELD_BLUR, and not at all for FIELD_BLUR <= 0 |
| Fields.EqualizeAndBlur | js/ascii-morph.js:258-280 | the field is returned as it is when equalisation is off or there are no cells; otherwise the result is the equalised field blurred `Passes(FIELD_BLUR)` times, and lies in [0,1]; without a blur it keeps the order of the input |
| Jitter.ScaledIndex | js/ascii-morph.js:303 | a draw in [0,1) times n, truncated, is an index below n |
| Jitter.Alternatives | js/ascii-morph.js:285-297 | exactly the characters . - # / \ _ \| @ * o O have look-alikes, at most five, none of them the blank |
| Jitter.Pick | js/ascii-morph.js:303 | the pick is the alternative at index floor(r * length) |
| Jitter.JitterCell | js/ascii-morph.js:301-305 | a cell changes only when its draw is below the probability and it has alternatives, and then becomes one of them |
| Jitter.ApplyJitter | js/ascii-morph.js:298-307 | the jittered grid has the same shape, and every cell is kept or replaced by one of its alternatives |
| Jitter.JitterIdentity | js/ascii-morph.js:298-307 | a probability of 0 or less, or a grid without jitter characters, leaves the grid unchanged |
| Jitter.JitterOnlyBelow | js/ascii-morph.js:301 | a cell that changed had a draw below the probability and has alternatives |
| Schedule.TypeNamed | js/ascii-morph.js:424 | `TRANSITION_TYPES.includes(name)` finds the type with that name, and finds nothing only when no type has it |
| Schedule.NameRoundTrip | js/ascii-morph.js:374 | every type is found under its own name |
| Schedule.StrategyFor | js/ascii-morph.js:384-386 | the weighted draw selects a type exactly when the draw is at most 1 |
| Schedule.StrategyIntervals | js/ascii-morph.js:384-386 | each type owns an interval of the draw as long as its weight, in table order; a draw above 1 selects nothing |
| Schedule.PickStrategy | js/ascii-morph.js:384-386 | the loop of cumulative weights gives the type the draw selects |
| Schedule.StartStrategyAsWritten | js/ascii-morph.js:384-386 | as written, every draw of at most 1 alone decides the type; the type chosen before is kept only for a draw above 1, which `Math.random` never returns |
| Schedule.ChosenTypeIsDiscarded | js/ascii-morph.js:384-386 | as written, for every draw in [0,1), the type a start gets does not depend on the type chosen before |
| Schedule.UseRippleThenDraw | js/ascii-morph.js:384-386 | as written, choosing the ripple field and then drawing 0.1 starts an organic transition |
| Schedule.StartStrategy | js/ascii-morph.js:384-386 | corrected, a type chosen by name is the type of the start it causes; otherwise the draw decides |
| Schedule.StartStrategyKeepsChoice | js/ascii-morph.js:378-386 | corrected, a type chosen by name is kept for the next start whatever the draw; otherwise the draw's type is used |
| Schedule.ChooseStartStrategy | js/ascii-morph.js:384-386 | the start branch gives the type as written: the draw's pick, and the previous type only for a draw above 1 |
| Schedule.Duration | js/ascii-morph.js:381 | for a positive base and a draw in [0,1) the duration is positive and lies in [0.8 base, 1.2 base) |
| Schedule.NextIndex | js/ascii-morph.js:382 | the next font index is below the number of fonts |
| Schedule.NextIndexStep | js/ascii-morph.js:382 | from an index in range, one start moves to the next index and wraps from the last to the first |
| Schedule.AdvanceFrom | js/ascii-morph.js:382 | k <= n starts from index i reach i + k, wrapped once |
| Schedule.RoundRobinVisitsAll | js/ascii-morph.js:382-383 | from any index in range, the next n starts choose each of the n fonts |
| Schedule.SayThenStart | js/ascii-morph.js:434 | after `say` sets the index to n - 2, the next start chooses the appended font |
| Controls.KeyName | js/ascii-morph.js:4-41 | every configuration key has a name of 6 to 18 characters that starts with an upper-case letter |
| Controls.DefaultValue | js/ascii-morph.js:4-41 | every load-time value lies in [0, 3000]; only LOW_POWER is 0 (false) |
| Controls.KeyAt | js/ascii-morph.js:4-41 | the 31 keys of `CONFIG` are numbered 0 to 30 |
| Controls.KeyIndex | js/ascii-morph.js:4-41 | every key has a number that leads back to it |
| Controls.FindKey | js/ascii-morph.js:427 | the search finds a key with the given name, or reports that no key from position i on has it |
| Controls.KeyNamed | js/ascii-morph.js:427 | the lookup of a name among `CONFIG`'s own keys finds the key with that name, and finds nothing only when no key has it |
| Controls.DefaultConfig | js/ascii-morph.js:4-41 | at load time every key has a value, among them TRANSITION_BASE_MS 3000, HOLD_MS 100, NEIGHBOR_INFLUENCE 0.3 and PROPAGATION_SPEED 0.015 |
| Controls.DefaultConfigSane | js/ascii-morph.js:12-30 | the load-time configuration has a positive base duration, at least one noise octave and a non-zero wavelength |
| Controls.SetConfig | js/ascii-morph.js:427 | `set` writes the key with that name and no other; an unknown name changes nothing; the set of keys never changes |
| Controls.Faster | js/ascii-morph.js:406 | '[' gives at least 800, and never more than the old base unless that was below 800 |
| Controls.Slower | js/ascii-morph.js:407 | ']' gives at most 10000 |
| Controls.BaseStaysInRange | js/ascii-morph.js:406-407 | both keys keep a base duration in [800, 10000] |
| Controls.FasterSlowerInverse | js/ascii-morph.js:406-407 | away from the bounds '[' and ']' undo each other |
| Controls.BaseStaysPositive | js/ascii-morph.js:406-407 | either key keeps a positive base duration positive |
| Controls.InfluenceUp | js/ascii-morph.js:413 | 'q' gives a neighbour influence in [0,1] |
| Controls.InfluenceDown | js/ascii-morph.js:414 | 'a' gives a neighbour influence in [0,1] |
| Controls.InfluenceSteps | js/ascii-morph.js:413-414 | inside [0,1] 'q' and 'a' move by exactly 0.1 and undo each other; they saturate at the ends |
| Controls.SpeedUp | js/ascii-morph.js:415 | 'w' gives a propagation speed in [0.05, 0.5] |
| Controls.SpeedDown | js/ascii-morph.js:416 | 's' gives a propagation speed in [0.05, 0.5] |
| Controls.SpeedSteps | js/ascii-morph.js:415-416 | inside [0.05, 0.5] 'w' and 's' move by exactly 0.05 and undo each other |
| Controls.DefaultSpeedBelowRange | js/ascii-morph.js:17 | the default speed lies below the keys' range, so 's' raises it to 0.05 |
| Controls.CommandOf | js/ascii-morph.js:404-416 | Space toggles the pause; a key other than n, Enter, [, ], o, d, r, f, q, a, w and s does nothing; exactly n, Enter, [, ], o, d, r and f restart |
| Controls.KeyConfig | js/ascii-morph.js:406-416 | a key changes at most the base duration, the neighbour influence or the propagation speed; every other value and the set of keys stay |
| Controls.KeysKeepRanges | js/ascii-morph.js:406-416 | a configuration whose three stepped values lie in their key ranges keeps them there under every key |
| Controls.KeysKeepSane | js/ascii-morph.js:406-416 | a key press keeps the configuration usable |
| Driver.Engine.constructor | js/ascii-morph.js:312-317 | the initial state: default configuration, fonts from their text, the first font current, index 1, organic, not started, not paused, no caches, zero grids |
| Driver.Engine.PrepareTransition | js/ascii-morph.js:365-372 | the centred frames of the current and the next font, zero activity and progress, no tweener and no field |
| Driver.Engine.BeginTransition | js/ascii-morph.js:378-389 | a start: the clock starts at `time`, the next font in round-robin order, the type drawn as written (the previous type only for a draw above 1), the randomised duration, fresh frames and grids |
| Driver.Engine.StartFromIndexOne | js/ascii-morph.js:312 | a start from index 1, the initial index, goes to `fonts[2 % n]`: with two fonts the first transition morphs the first font into itself, with three or more `fonts[1]` is skipped in the first round |
| Driver.Engine.Commit | js/ascii-morph.js:379-387 | the last assignments of a start: running from `time` with the new duration, index, type and frames |
| Driver.Engine.EnsureTweener | js/ascii-morph.js:325 | a tweener is built once per transition, from both frames, and kept afterwards; the engine invariant keeps it equal to the ladder of both frames' characters |
| Driver.Engine.EnsureField | js/ascii-morph.js:339-345 | a field is built once per transition and kept afterwards; a new field satisfies BuiltField: it lies in [0,1], and without equalisation a distance field is 0 exactly at the target's ink and a ripple field is exactly the ripple field of the wavelength (IsRippleField) |
| Driver.Engine.OrganicStep | js/ascii-morph.js:322-335 | the organic tick updates activity and progress from the previous grids, then tweens each cell with them, on the ladder of both frames' characters |
| Driver.Engine.FieldStep | js/ascii-morph.js:338-358 | the field-based tick draws the frame of the cached field at the eased global progress, on the ladder of both frames' characters; a field built in the step is one for the current frames (BuiltField), a cached one is kept |
| Driver.Engine.DrawFrame | js/ascii-morph.js:392-395 | the tick draws the jittered frame of the running type on the ladder of both frames' characters; an organic tick advances activity and progress by one update, any other tick leaves them unchanged; a field-based tick keeps the cached field or builds one for the current frames (BuiltField) |
| Driver.Engine.Animate | js/ascii-morph.js:375-398 | a paused tick changes nothing; otherwise a tick starts a transition if none runs, draws its frame, and ends it, making the next font current, once elapsed time exceeds duration plus hold; an organic tick advances activity and progress by one update from the previous grids, or from zero grids when it starts the transition, and any other tick leaves them as they were or at zero; over a running transition the cached field is kept, and a field-based start builds a field for the new frames (BuiltField) |
| Driver.Engine.StartTick | js/ascii-morph.js:377-396 | a tick with no transition running starts one, with the type drawn as written, draws its first frame at elapsed 0, and applies the end test; an organic start advances activity and progress by one update from zero grids, any other start leaves them zero; a field-based start builds a field for the new frames (BuiltField), an organic start leaves none |
| Driver.Engine.DrawStarted | js/ascii-morph.js:390-396 | the first frame of a new transition keeps the start's choices; an organic frame advances activity and progress by one update, any other leaves them unchanged; the cached field is kept, or built for the current frames (BuiltField) by a field-based frame |
| Driver.Engine.ContinueTick | js/ascii-morph.js:377 | a running transition starts its clock if it had not, draws the frame at the elapsed time, and applies the end test; an organic tick advances activity and progress by one update, any other leaves them unchanged; the cached field is kept, or built for the current frames (BuiltField) by a field-based tick |
| Driver.Engine.DrawContinued | js/ascii-morph.js:390-396 | the frame of a running transition keeps its font, type, frames and timing; an organic frame advances activity and progress by one update, any other leaves them unchanged; the cached field is kept, or built for the current frames (BuiltField) by a field-based frame |
| Driver.Engine.DrawAndEnd | js/ascii-morph.js:390-396 | the frame is drawn, then the transition ends exactly when elapsed time exceeds duration plus hold; an organic frame advances activity and progress by one update, any other leaves them unchanged; the cached field is kept, or built for the current frames (BuiltField) by a field-based frame |
| Driver.Engine.EndIfDone | js/ascii-morph.js:396 | the transition ends, and the next font becomes current, exactly when elapsed time exceeds duration plus hold |
| Driver.Engine.KeyDown | js/ascii-morph.js:403-417 | a key press applies its command |
| Driver.Engine.Apply | js/ascii-morph.js:403-417 | a command toggles the pause, steps the configuration, or chooses a type; the keys that restart end the running transition |
| Driver.Engine.ChooseType | js/ascii-morph.js:408-411 | a type chosen by name becomes the type and ends the running transition; the next start draws the type again |
| Driver.Engine.Configure | js/ascii-morph.js:405-407 | a configuration key steps its value; n, Enter, '[' and ']' also restart the transition |
| Driver.Engine.Use | js/ascii-morph.js:424 | `use` with a known name chooses that type and restarts; an unknown name changes nothing |
| Driver.Engine.Next | js/ascii-morph.js:425 | `next` ends the running transition so the next tick starts one |
| Driver.Engine.Set | js/ascii-morph.js:427 | `set` writes the configuration value of an existing key and changes nothing for an unknown one |
| Driver.Engine.AddFont | js/ascii-morph.js:428-431 | `addFont` appends one font, its lines built from the text as at load time |
| Driver.LiveNameDigits | js/ascii-morph.js:433 | the name of a said font is `live_` followed by the decimal digits of the clock reading modulo one million, without a leading zero |
| Driver.Engine.Say | js/ascii-morph.js:432-436 | `say` appends a font named after the clock and makes it the next font shown |
| Driver.Engine.Pause | js/ascii-morph.js:437 | `pause` toggles the pause |

## Left out

- Perlin noise (js/ascii-morph.js:53-68): its permutation table is shuffled by `Math.random`; the model takes noise as a fixed function with values in [-1, 1].
- `Math.pow(., 1.8)`, `Math.hypot` and the floating-point `%` are abstract functions; only the properties listed above are assumed of them.
- Fields.BuildDistanceField: states the range and the zero set of the normalised field; the chamfer recurrence is stated for each pass (Fields.ForwardPass, Fields.BackwardPass) but is not carried through to the normalised values.
- Fields.BuildNoiseField: states only that values lie in [0,1], because the noise itself is abstract.
- Floating point: all arithmetic is on exact reals, so rounding (in `Math.round`, in `| 0`, in the sums) and NaN or Infinity are not modelled.
- Driver.Engine.Animate: requires a positive TRANSITION_BASE_MS, a positive NOISE_OCTAVES and a non-zero RIPPLE_WAVELEN. A zero base, non-positive octaves or a zero wavelength make the source compute NaN or Infinity, which exact reals cannot represent; a negative base gives finite but negative durations and increments, which the engine invariant's positive duration excludes. `set` can write all of these values, so they are outside the model.
- Controls.SetConfig: values are numbers only; `set` with a string or an object is not modelled.
- The grid size is fixed when the engine is made; a later `set("GRID_W", ...)` or `set("GRID_H", ...)` changes the configuration value but not the model's grid size. A grid with no rows is excluded.
- Grids.CenterASCII, Text.PadEnd, Ladder.BuildDynamicLadder and Tween.Lut: a cell, a line length and a ladder position count Unicode scalar values, while the source's `t[x]`, `.length`, `padEnd`, `ladder.length` and `ladder[idx]` count UTF-16 code units (and `[...ladder]` counts code points); a character above U+FFFF fills one cell here and two in the source, so centring, the ladder and its table differ for such characters.
- Controls.KeyNamed: `key in CONFIG` is also true for names the object inherits, such as "toString"; `set` then writes an own property of that name. The model looks up only the 31 configuration keys and treats every other name as unknown (Controls.SetConfig, Driver.Engine.Set).
- Driver.Engine.EnsureField: with equalisation on, only the range [0,1] of the cached field is stated, not which builder produced it; with it off, the ripple field's values are stated, the distance field is tied to the target only by its zero set, and the noise field's values are not tied to the noise.
- Controls.KeyName: states the length and the first letter of the names, not that they are written in upper case with underscores; Controls.KeyNamed ties each name to its key.
- Ladder.SortChars: compares characters by code point, while JavaScript's `sort` compares UTF-16 code units; the orders differ only above the Basic Multilingual Plane.
- Drawing: `drawGrid`, `fillRect`, the canvas set-up and the font size (js/ascii-morph.js:78-83, 132-140, 391) are left out; a frame is returned instead of being drawn.
- The info text (js/ascii-morph.js:388, 448), the 'i' key that toggles it (412), `getInfo` (438-441), the `config()` copy (426) and the console banner (450-466) only report state; they are left out.
- `requestAnimationFrame` scheduling is left out; each call of `Driver.Engine.Animate` is one tick.
- The global progress computed and discarded at the top of `organicTransition` (js/ascii-morph.js:323) has no effect and is left out.
- The `transitions` copy of the type list (js/ascii-morph.js:423) is not modelled.
- `smoothstep` and `PI` (js/ascii-morph.js:49-50) are never used and are left out.
- js/app.js is not part of this model.

## Findings

| source | as written | input that shows it | evidently intended | confidence | as-written member | corrected member |
|---|---|---|---|---|---|---|
| js/ascii-morph.js:386 | `use(name)` and the keys o, d, r and f set `transitionType` and end the running transition. The start branch then re-draws the type: weights 0.4, 0.2, 0.2 and 0.2 add up to 1.0, so every draw in [0,1) selects a type, and the chosen one is always overwritten | `use("ripple_field")`, then a start with the draw 0.1 (`Schedule.UseRippleThenDraw`) starts an organic transition; for every draw the chosen type makes no difference (`Schedule.ChosenTypeIsDiscarded`) | a type chosen by name is used for the transition its restart begins; later starts draw again | not executed | Schedule.StartStrategyAsWritten | Schedule.StartStrategy |
