# Code-block effect: a verified model

This project models the two ways the code.wales site turns a picture into
"code": coloured rectangles laid out like lines of source text.

- `ImageCodeBlocks` (src/lib/image-code-blocks.ts) reads a bitmap cell by
  cell. A cell is `accuracy` pixels wide and `blockHeight` pixels high, and
  it counts as filled when the middle pixel row of the cell holds a pixel
  that is neither white nor fully transparent. Each row merges runs of
  adjacent filled cells into one wide block and drops everything but the
  run heads. It then cuts every block into random widths drawn from a pool
  of widths between `codeBlockMinWidth` and `codeBlockMaxWidth`. The cut
  need not cover the block exactly. A leftover of at most
  `codeBlockMinWidth` is dropped, and a block at most that wide vanishes.
  A last remainder between one and two minimum widths is kept whole, even
  when it is wider than `codeBlockMaxWidth`. And because the pool is built
  from the whole block, the widths can add up to more than the block, and
  the overshooting blocks can then run into the blocks of the next run. In
  monotype mode the widths are multiples of the minimum and stay within
  both bounds, and the constructor forces `accuracy = codeBlockMinWidth`.
  Finally it emits one `rect` per block.
  Each rect gets a CSS class from a width-dependent pool, and a class is
  never repeated between consecutive rects.
- `CodeEffectSVG` (src/lib/code-effect-svg.ts) does the same for a
  rasterised SVG without the random cutting. A cell is filled when any
  pixel of the whole cell is coloured. A row's scan stops early once a
  filled cell reaches the right edge, and the scan of rows stops once a row
  reaches the bottom edge. Every merged block is drawn as one `rect`.

Both pipelines share these modules:
- `Pixels`: the bitmap and the colour test.
- `LoopBounds`: how often a JavaScript `for` loop with a fractional bound runs.
- `Columns`: the cell record, the in-place merge and the filter.
- `Partition`: the random widths.
- `Styles`: the class pools.
- `Rects`: the emitted rectangles.

The two classes are in `CodeBlocks` and `CodeEffect`.

Each random choice is modelled as a nondeterministic choice. A method that
draws is therefore proved for every sequence of draws the source could
make. Its result is tied to a reference predicate: `IsSplit` for the width
split, and `ClassPool` with `ClassesAlternate` for the class names. Lemmas
then state the properties of that predicate.

The merge and the filter are proved equal, row by row, to `RunHeads`, the
list of one wide block per run of filled cells. The lemmas about
`RunHeads` give the layout of the result: blocks are filled, inside the
row, non-overlapping and separated by a gap, and their widths add up to
the filled area.

## Model

| member | source | states |
|---|---|---|
| LoopBounds.LoopCount | src/lib/image-code-blocks.ts:136 | a loop `for (i = 0; i < bound; i++)` with a real bound runs the least natural number of times not below the bound |
| LoopBounds.LoopCountIsCeilDiv | src/lib/image-code-blocks.ts:69-70 | with bound `size / cell` the loop runs ceil(size / cell) times: the count whose multiple of the cell first reaches the size |
| LoopBounds.BelowLoopCount | src/lib/image-code-blocks.ts:136 | the guard `i < bound` holds exactly while i is below the iteration count |
| LoopBounds.CeilDivUnique | src/lib/image-code-blocks.ts:69-70 | ceil(a / b) is the only k with (k - 1) * b < a <= k * b |
| LoopBounds.StopAtEdge | src/lib/code-effect-svg.ts:113-116 | a `break` taken once the n-th cell reaches the edge ends the loop at exactly the iteration count its guard would give |
| Pixels.GetImageData | src/lib/image-code-blocks.ts:269-274 | defines the canvas read for a positive width and height (the canvas throws for a zero one): w * h pixels in row-major order, pixel k at (sx + k mod w, sy + k div w), transparent black outside the bitmap |
| Columns.MergeRow | src/lib/image-code-blocks.ts:186-215 | after the in-place pass over one row, each column equals `MergedRow`: a run head carries the width of its whole run and is unmerged, the other cells of a run are marked merged, and empty cells are unchanged; the same member also models the identical pass at src/lib/code-effect-svg.ts:148-177, with `blockWidth` in place of `accuracy` |
| Columns.MergeColumns | src/lib/image-code-blocks.ts:185-216 | every row of the grid is merged as `MergeRow` states and the number of rows is unchanged; it also models `mergeColumns` at src/lib/code-effect-svg.ts:147-178, with `blockWidth` in place of `accuracy` |
| Columns.StageStep | src/lib/image-code-blocks.ts:190-214 | one iteration of the inner merge loop moves every column from its state before cell x to its state after cell x |
| Columns.MergedSuffix | src/lib/image-code-blocks.ts:190-214 | merging a row that is cut at a run boundary is merging each part separately |
| Columns.FilterGrid | src/lib/image-code-blocks.ts:163-169 | each filtered row keeps, in order, exactly the columns that are filled and not merged |
| Columns.SurvivorsMembers | src/lib/image-code-blocks.ts:165-167 | a column survives the filter if and only if it is in the row, filled and not merged |
| Columns.SurvivorsAppend | src/lib/image-code-blocks.ts:164-168 | filtering a concatenation is concatenating the filtered parts |
| Columns.RunHeads | src/lib/image-code-blocks.ts:161-169 | every block of the reference result is filled and unmerged |
| Columns.MergeThenFilter | src/lib/image-code-blocks.ts:161-169 | merge followed by the filter gives exactly `RunHeads`: one block per run of filled cells, at the run's start, as wide as the run |
| Columns.RunLenBounds | src/lib/image-code-blocks.ts:190-210 | a run stays inside the row, consists of filled cells and ends at the row's end or at an empty cell |
| Columns.HeadOf | src/lib/image-code-blocks.ts:196 | the column a filled cell is merged into is a run head at or before it, with only filled cells between them |
| Columns.HeadsLayout | src/lib/image-code-blocks.ts:136-169 | for a row of cells laid side by side, the blocks lie inside the row and each ends strictly before the next begins |
| Columns.HeadsWidthSum | src/lib/image-code-blocks.ts:185-216 | the widths of the blocks add up to the cell width times the number of filled cells |
| Columns.HeadsAtLeastOneCell | src/lib/image-code-blocks.ts:197 | every block is at least one cell wide |
| Columns.HeadsWholeCells | src/lib/image-code-blocks.ts:185-216 | every block of a row of one-cell columns is a whole number of cells wide |
| Columns.NoFillNoHeads | src/lib/image-code-blocks.ts:163-169 | a row with no filled cell yields no block |
| Partition.AvailableWidthsMembers | src/lib/image-code-blocks.ts:384-392 | the pool holds exactly the multiples m * min with m < floor(sum / min) in monotype mode, and the numbers 0 .. sum - 1 otherwise |
| Partition.MinAvailable | src/lib/image-code-blocks.ts:384-401 | whenever the loop draws (the sum is at least 2 * min), the minimum width is in the pool, so a draw is always possible |
| Partition.GenerateRandomNumber | src/lib/image-code-blocks.ts:418-432 | the result is a pool element between min and max inclusive |
| Partition.RandomNumbersWithSum | src/lib/image-code-blocks.ts:378-416 | every outcome is a split in the sense of `IsSplit`: admissible draws while at least 2 * min remains, then the remainder when it is above min |
| Partition.DrawPrefixThenSplit | src/lib/image-code-blocks.ts:394-415 | a prefix of admissible draws followed by a split of what remains is a split of the whole |
| Partition.SplitCoverage | src/lib/image-code-blocks.ts:394-415 | there are no widths if and only if the sum is at most min; at most min is left uncovered; and the widths either add up to the sum or overshoot it by at most max - 2 * min |
| Partition.SplitWidths | src/lib/image-code-blocks.ts:401-413 | every width is a pool element in [min, max], or else the last width, which is the remainder, strictly between min and 2 * min |
| Partition.SplitStartsInside | src/lib/image-code-blocks.ts:396-413 | every new block starts more than min before the end of the original block |
| Partition.NarrowStretchVanishes | src/lib/image-code-blocks.ts:396 | a block at most min wide is split into no widths and so disappears |
| Partition.MonotypeMultiples | src/lib/image-code-blocks.ts:384-415 | in monotype mode a width that is a whole number of min cells is split only by draws: every piece is a multiple of min, from the pool and within [min, max], and the remainder push at 401-402 never happens |
| Partition.DroppedLeftoverExample | src/lib/image-code-blocks.ts:384-415 | in monotype mode with min 10 and max 30, the sum 30 can be split as [20], leaving the last 10 uncovered |
| Partition.OvershootExample | src/lib/image-code-blocks.ts:384-415 | with min 10, max 30 and sum 50, the split [30, 30] is possible, and it extends 10 beyond the original block |
| Partition.OverlapExample | src/lib/image-code-blocks.ts:229-253 | with min 10, max 40 and sum 60, the split [40, 40] is possible; the laid blocks of a run at x = 0 then end at 80, past 70, where a run after one empty 10-wide cell begins |
| Partition.Lay | src/lib/image-code-blocks.ts:238-253 | the laid blocks are filled, merged and on the source row, one per width |
| Partition.LayPositions | src/lib/image-code-blocks.ts:238-253 | block k starts at the start plus the sum of the first k widths and is `widths[k]` wide |
| Partition.LayContiguous | src/lib/image-code-blocks.ts:238-253 | each laid block starts where the previous one ends |
| Partition.LayRowBlocks | src/lib/image-code-blocks.ts:229-254 | every block of a split row is filled and marked merged |
| Partition.LayRowWidths | src/lib/image-code-blocks.ts:229-253 | every block of a split row is exactly as wide as one of the split widths |
| Partition.SplitsFitSnoc | src/lib/image-code-blocks.ts:229-237 | adding the split of the next block keeps every split of the row admissible |
| Styles.ClassPool | src/lib/image-code-blocks.ts:348-365 | every pool holds at least two different class names |
| Styles.PoolOffersAlternative | src/lib/image-code-blocks.ts:347-368 | whatever the previous class, the pool holds a different one, so the redraw loop can end |
| Styles.ChooseRandomString | src/lib/image-code-blocks.ts:373-376 | the result is an element of the non-empty list |
| Rects.FilledInRowMembers | src/lib/image-code-blocks.ts:299-301 | a column gives a rect if and only if it is in the row and filled |
| Rects.FilledCellsAll | src/lib/image-code-blocks.ts:296-315 | when every cell is filled, one rect is emitted per cell in row-major order |
| Rects.FilledCellsEmpty | src/lib/image-code-blocks.ts:296-315 | a grid of empty rows gives no rect |
| CodeBlocks.AlternateAppend | src/lib/image-code-blocks.ts:368-369 | adding a block whose class differs from the last one keeps consecutive classes distinct |
| CodeBlocks.EmittedAppend | src/lib/image-code-blocks.ts:302-310 | adding the rect for one more cell keeps rects and cells matched one to one |
| CodeBlocks.EmitStep | src/lib/image-code-blocks.ts:299-311 | emitting a filled cell keeps the rects matched with the filled cells scanned so far and keeps classes alternating |
| CodeBlocks.SkipStep | src/lib/image-code-blocks.ts:300-301 | an empty cell adds no rect |
| CodeBlocks.ImageCodeBlocks.constructor | src/lib/image-code-blocks.ts:7-18 | the settings are stored, `accuracy` becomes the minimum width in monotype mode, and there is no previous class |
| CodeBlocks.ImageCodeBlocks.AreaContainsColour | src/lib/image-code-blocks.ts:262-294 | true if and only if the pixel row at `startY + floor(blockHeight / 2)`, from `startX` over `blockWidth` pixels, holds a pixel that is not fully transparent and not pure white |
| CodeBlocks.ImageCodeBlocks.BuildRow | src/lib/image-code-blocks.ts:137-156 | row y holds one unmerged cell per loop iteration, at x * accuracy and y * blockHeight, `accuracy` wide, filled as the colour test says |
| CodeBlocks.ImageCodeBlocks.SplitIntoGrid | src/lib/image-code-blocks.ts:126-180 | one output row per loop iteration over rows; each row is a random-length split, in the sense of `IsRandomLengthRow`, of the run heads of its scanned cells |
| CodeBlocks.ImageCodeBlocks.SplitIntoRandomLengthBlocks | src/lib/image-code-blocks.ts:218-260 | each output row is a random-length split of the matching input row |
| CodeBlocks.ImageCodeBlocks.SplitRow | src/lib/image-code-blocks.ts:229-254 | the row is the concatenation of each block's split widths laid from the block's start, and each split is admissible for its block's width |
| CodeBlocks.ImageCodeBlocks.LayBlocks | src/lib/image-code-blocks.ts:238-253 | the loop produces exactly the contiguous layout `Lay` of the widths |
| CodeBlocks.ImageCodeBlocks.CalculateRectClassName | src/lib/image-code-blocks.ts:341-371 | the class comes from the pool for the width (min, max or other) and differs from the previous class, which it replaces |
| CodeBlocks.ImageCodeBlocks.CreateRectangle | src/lib/image-code-blocks.ts:317-339 | the rect sits at the block, is inset by `spacing` on width and height, and gets a new class that differs from the previous one |
| CodeBlocks.ImageCodeBlocks.GenerateRow | src/lib/image-code-blocks.ts:299-312 | the rects already emitted are kept unchanged as a prefix, and the rects for one row are appended after them in order, one per filled cell, with classes that keep alternating |
| CodeBlocks.ImageCodeBlocks.GenerateCodeBlocks | src/lib/image-code-blocks.ts:296-315 | one rect per filled cell in row-major order, each placed and classed as `CreateRectangle` states; no two consecutive rects share a class, and the stored previous class is the last one emitted |
| CodeBlocks.ImageCodeBlocks.CreateFromImage | src/lib/image-code-blocks.ts:63-92 | the grid has ceil(height / blockHeight) rows of split run heads over ceil(width / accuracy) cells; every final block gives one rect; classes alternate; a blank image gives no rect; in monotype mode every final block is a multiple of the minimum width and within [min, max] |
| CodeBlocks.ImageCodeBlocks.FilteredRowShape | src/lib/image-code-blocks.ts:136-169 | after merge and filter, the blocks of a row are filled and unmerged, inside the row, separated by gaps, and their widths add up to accuracy times the number of filled cells |
| CodeBlocks.ImageCodeBlocks.MonotypeBlocks | src/lib/image-code-blocks.ts:172-177 | in monotype mode, where the constructor makes cells `codeBlockMinWidth` wide, every final block is a whole number of minimum-width cells wide and between the minimum and maximum widths |
| CodeBlocks.ImageCodeBlocks.BlocksFilled | src/lib/image-code-blocks.ts:243-252 | every block of the final grid is filled, so every block is drawn |
| CodeBlocks.ImageCodeBlocks.BlankHasNoBlocks | src/lib/image-code-blocks.ts:136-169 | an image with no coloured pixel gives empty rows |
| CodeEffect.Drawn | src/lib/code-effect-svg.ts:214-234 | one rect per cell |
| CodeEffect.DrawnConcat | src/lib/code-effect-svg.ts:216-233 | drawing two lists of cells is drawing one after the other |
| CodeEffect.CodeEffectSVG.constructor | src/lib/code-effect-svg.ts:8-20 | the sizes and spacing are stored and nothing is drawn yet |
| CodeEffect.CodeEffectSVG.AreaContainsColour | src/lib/code-effect-svg.ts:180-212 | true if and only if the whole cell rectangle holds a pixel that is not fully transparent and not pure white |
| CodeEffect.CodeEffectSVG.RowScan | src/lib/code-effect-svg.ts:82-117 | the scan of a row stops after the first filled cell that reaches the width, and never after the loop bound |
| CodeEffect.CodeEffectSVG.RowsScan | src/lib/code-effect-svg.ts:75-125 | the scan of rows stops after the first row that reaches the height, and never after the loop bound |
| CodeEffect.CodeEffectSVG.BuildRow | src/lib/code-effect-svg.ts:80-117 | the row holds exactly the cells scanned before the early `break`, each at x * blockWidth and unmerged, filled as the colour test says |
| CodeEffect.CodeEffectSVG.SplitIntoGrid | src/lib/code-effect-svg.ts:63-142 | one output row per scanned row; each row is exactly the run heads of its scanned cells |
| CodeEffect.CodeEffectSVG.ScansReachEdges | src/lib/code-effect-svg.ts:30-31 | with the bounds `size / cell`, the early breaks change nothing: ceil(height / blockHeight) rows and ceil(width / blockWidth) cells are scanned |
| CodeEffect.CodeEffectSVG.DrawRow | src/lib/code-effect-svg.ts:217-232 | one rect is appended per filled cell of the row, in order |
| CodeEffect.CodeEffectSVG.DrawBlocks | src/lib/code-effect-svg.ts:214-234 | one rect is appended per filled cell of the grid, in row-major order, and nothing else changes |
| CodeEffect.CodeEffectSVG.CreateRectangle | src/lib/code-effect-svg.ts:236-247 | the rect sits at the block, with width `blockWidth - spacing` and height `blockHeight - spacing` |
| CodeEffect.CodeEffectSVG.CreateCodeEffect | src/lib/code-effect-svg.ts:22-47 | the grid has ceil(height / blockHeight) rows of run heads over ceil(width / blockWidth) cells; one rect is drawn per block; a blank picture draws nothing |
| CodeEffect.CodeEffectSVG.FilteredRowShape | src/lib/code-effect-svg.ts:127-141 | the blocks of a row are filled and unmerged, lie inside the row, are separated by gaps and add up to the filled width |
| CodeEffect.CodeEffectSVG.BlankHasNoHeads | src/lib/code-effect-svg.ts:75-141 | a picture with no coloured pixel gives empty rows |

## Left out

- The DOM, canvas and SVG plumbing is left out because it is browser I/O. This covers `createFromImgTag`, `createFromImageSrc`, `getOutputElement`, `getImageFromSrc`, `getImageFromImgElement`, `createdOutputSVGElement`, `createContext`, `drawImage`, the `getElementById` lookups and the appends to the page. Rects are returned or collected in `output` instead. The rasterised picture is a parameter (`Bitmap`).
- src/lib/image-svg.ts and src/lib/image-async.ts (`createImageFromSvg`, `imageOnLoadAsync`) are not part of this model. The `await` steps are not modelled.
- `Math.random` is modelled as a nondeterministic choice. Each `do … while` redraw becomes a first draw followed by a choice among the admissible values. Its distribution, and the fact that it terminates with probability 1, are not modelled.
- Partition.GenerateRandomNumber: requires that the pool holds an admissible width. Without one, the source loops forever, or returns `undefined` from an empty pool. `MinAvailable` shows that its only caller always meets this.
- The `Column` records are values. The source mutates shared objects inside the grid arrays, and that aliasing is not modelled. The merge returns the new rows instead.
- A pixel is a record of four bytes. The flat `Uint8ClampedArray` stepped by 4 is not modelled.
- JavaScript numbers are only partly modelled. Coordinates and widths are integers, `spacing` is a real, and loop bounds are exact reals. Fractional canvas or viewBox sizes are not modelled. The viewBox of the SVG is taken to be the bitmap's size.
- CodeBlocks.ImageCodeBlocks.constructor: requires `blockHeight >= 1`, `1 <= codeBlockMinWidth <= codeBlockMaxWidth`, and `accuracy >= 1` unless monotype. The source checks none of these. The excluded cases behave differently in the source:
  - on a bitmap with at least one pixel, a zero `accuracy` (a zero `codeBlockMinWidth` in monotype mode) makes the first cell's `getImageData` call throw an IndexSizeError, because the read is zero pixels wide;
  - on a bitmap of positive height, a zero `blockHeight` makes the row bound infinite, and each row's one-pixel-high read succeeds, so the row loop runs forever;
  - a negative cell size gives a negative loop bound, so no cell is built;
  - `codeBlockMinWidth > codeBlockMaxWidth` makes `generateRandomNumber` loop forever once a draw happens.
- CodeEffect.CodeEffectSVG.constructor: requires positive block sizes, which the source does not check. On a bitmap with at least one pixel, a zero size makes the first cell's `getImageData` call throw an IndexSizeError, because the read covers zero pixels. With a negative size the loop bound is negative, so no cell is built.
- The bodies of some loops are separate methods: `BuildRow`, `SplitRow`, `LayBlocks`, `GenerateRow` and `DrawRow`. They do exactly what the inline loops do.
- `calculateRectClassName`'s width comparisons use `===` on numbers. The model compares integers.
- A run of filled cells at most `codeBlockMinWidth` wide gives no block at all. For example, outside monotype mode with `accuracy` 5 and `codeBlockMinWidth` 10, a one-cell run 5 wide vanishes. And in monotype mode, two one-cell runs separated by an empty cell produce nothing, not two blocks. This is because `randomNumbersWithSum` returns no widths when the sum is not above the minimum (`NarrowStretchVanishes`). The model follows the code.
