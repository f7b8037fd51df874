/** ImageCodeBlocks: turns a bitmap into "code blocks", styled rectangles
    laid over the coloured parts of each band of the image. */
module CodeBlocks {
  import opened Pixels
  import opened LoopBounds
  import opened Columns
  import opened Partition
  import opened Styles
  import opened Rects

  /** An emitted rectangle with its style class. */
  datatype CodeBlock = CodeBlock(rect: Rect, className: string)

  /** No block repeats the class of the block before it, and the first one
      does not repeat `previous`, the class handed out before them. */
  predicate ClassesAlternate(blocks: seq<CodeBlock>, previous: Option<string>) {
    && (blocks != [] ==> Some(blocks[0].className) != previous)
    && forall k | 0 < k < |blocks| :: blocks[k].className != blocks[k - 1].className
  }

  /** The class last handed out once `blocks` have been styled. */
  function LastClass(blocks: seq<CodeBlock>, previous: Option<string>): (last: Option<string>) {
    if blocks == [] then previous else Some(blocks[|blocks| - 1].className)
  }

  lemma AlternateAppend(blocks: seq<CodeBlock>, previous: Option<string>, b: CodeBlock)
    requires ClassesAlternate(blocks, previous) && Some(b.className) != LastClass(blocks, previous)
    ensures ClassesAlternate(blocks + [b], previous)
  {
    var all := blocks + [b];
    forall k | 0 < k < |all| ensures all[k].className != all[k - 1].className {
      if k < |blocks| {
        assert all[k] == blocks[k] && all[k - 1] == blocks[k - 1];
      } else {
        assert all[k] == b && all[k - 1] == blocks[k - 1];
      }
    }
    if blocks == [] {
      assert all[0] == b;
    } else {
      assert all[0] == blocks[0];
    }
  }

  /** `blocks` are the rectangles of `cells`, one each and in order, each
      styled from the pool for its width. */
  ghost predicate Emitted(blocks: seq<CodeBlock>, cells: seq<Column>, blockHeight: int, spacing: real,
                          codeBlockMinWidth: int, codeBlockMaxWidth: int)
  {
    && |blocks| == |cells|
    && forall k | 0 <= k < |blocks| ::
      && blocks[k].rect == RectOf(cells[k], blockHeight, spacing)
      && blocks[k].className in ClassPool(cells[k].blockWidth, codeBlockMinWidth, codeBlockMaxWidth)
  }

  lemma EmittedAppend(blocks: seq<CodeBlock>, cells: seq<Column>, blockHeight: int, spacing: real,
                      codeBlockMinWidth: int, codeBlockMaxWidth: int, b: CodeBlock, c: Column)
    requires Emitted(blocks, cells, blockHeight, spacing, codeBlockMinWidth, codeBlockMaxWidth)
    requires b.rect == RectOf(c, blockHeight, spacing)
    requires b.className in ClassPool(c.blockWidth, codeBlockMinWidth, codeBlockMaxWidth)
    ensures Emitted(blocks + [b], cells + [c], blockHeight, spacing, codeBlockMinWidth, codeBlockMaxWidth)
  {
    var all, allCells := blocks + [b], cells + [c];
    forall k | 0 <= k < |blocks| ensures all[k] == blocks[k] && allCells[k] == cells[k] { }
  }

  /** One filled column of a row turned into a block keeps both the
      emission and the alternation. */
  lemma EmitStep(blocks: seq<CodeBlock>, cells: seq<Column>, row: seq<Column>, x: nat, previous: Option<string>,
                 b: CodeBlock, blockHeight: int, spacing: real, codeBlockMinWidth: int, codeBlockMaxWidth: int)
    requires x < |row| && row[x].fill
    requires Emitted(blocks, cells + FilledInRow(row[..x]), blockHeight, spacing, codeBlockMinWidth, codeBlockMaxWidth)
    requires ClassesAlternate(blocks, previous)
    requires b.rect == RectOf(row[x], blockHeight, spacing)
    requires b.className in ClassPool(row[x].blockWidth, codeBlockMinWidth, codeBlockMaxWidth)
    requires Some(b.className) != LastClass(blocks, previous)
    ensures Emitted(blocks + [b], cells + FilledInRow(row[..x + 1]), blockHeight, spacing, codeBlockMinWidth, codeBlockMaxWidth)
    ensures ClassesAlternate(blocks + [b], previous)
  {
    FilledInRowSnoc(row, x);
    var done := cells + FilledInRow(row[..x]);
    EmittedAppend(blocks, done, blockHeight, spacing, codeBlockMinWidth, codeBlockMaxWidth, b, row[x]);
    AlternateAppend(blocks, previous, b);
    assert cells + FilledInRow(row[..x + 1]) == done + [row[x]];
  }

  /** An unfilled column adds nothing. */
  lemma SkipStep(cells: seq<Column>, row: seq<Column>, x: nat)
    requires x < |row| && !row[x].fill
    ensures cells + FilledInRow(row[..x + 1]) == cells + FilledInRow(row[..x])
  {
    FilledInRowSnoc(row, x);
  }

  class ImageCodeBlocks {
    const accuracy: int
    const blockHeight: int
    const codeBlockMinWidth: int
    const codeBlockMaxWidth: int
    const spacing: real
    const monotype: bool
    var previousClassName: Option<string>

    /** The settings every step relies on: positive cell sizes,
        1 <= min <= max block widths, and in monotype mode cells exactly
        `min` wide. */
    predicate Valid() {
      && accuracy >= 1 && blockHeight >= 1 && 1 <= codeBlockMinWidth <= codeBlockMaxWidth
      && (monotype ==> accuracy == codeBlockMinWidth)
    }

    /** In monotype mode the cell width is the minimum block width, whatever
        accuracy was asked for. */
    constructor(accuracy: int, blockHeight: int, codeBlockMinWidth: int, codeBlockMaxWidth: int,
                spacing: real, monotype: bool)
      requires monotype || accuracy >= 1
      requires blockHeight >= 1 && 1 <= codeBlockMinWidth <= codeBlockMaxWidth
      ensures Valid()
      ensures this.accuracy == if monotype then codeBlockMinWidth else accuracy
      ensures this.blockHeight == blockHeight && this.spacing == spacing && this.monotype == monotype
      ensures this.codeBlockMinWidth == codeBlockMinWidth && this.codeBlockMaxWidth == codeBlockMaxWidth
      ensures previousClassName == None
    {
      this.accuracy := if monotype then codeBlockMinWidth else accuracy;
      this.blockHeight := blockHeight;
      this.codeBlockMinWidth := codeBlockMinWidth;
      this.codeBlockMaxWidth := codeBlockMaxWidth;
      this.spacing := spacing;
      this.monotype := monotype;
      previousClassName := None;
    }

    /** The cell in row y, column x of the raw grid: one cell wide, placed on
        the cell lattice, filled when the middle pixel row of the cell holds
        colour. */
    ghost function Cell(bmp: Bitmap, x: nat, y: nat): (c: Column) {
      var startX := x * accuracy;
      var startY := y * blockHeight;
      Column(startX, startY, StripHasColour(bmp, startX, startY + blockHeight / 2, accuracy), accuracy, false)
    }

    ghost function RawRow(bmp: Bitmap, y: nat, columnsCount: nat): (row: seq<Column>)
      ensures |row| == columnsCount
    {
      seq(columnsCount, x requires 0 <= x < columnsCount => Cell(bmp, x, y))
    }

    /** `areaContainsColour`: scans the pixel row halfway down the cell and
        reports whether one of its pixels is coloured. */
    method AreaContainsColour(bmp: Bitmap, startX: int, startY: int, blockWidth: nat, blockHeight: int)
      returns (notWhiteOrTransparent: bool)
      requires blockWidth >= 1
      ensures notWhiteOrTransparent <==> StripHasColour(bmp, startX, startY + blockHeight / 2, blockWidth)
    {
      var sy := startY + blockHeight / 2;
      var pixelData := GetImageData(bmp, startX, sy, blockWidth, 1);
      StripData(bmp, startX, sy, blockWidth);
      notWhiteOrTransparent := false;
      var i := 0;
      while i < |pixelData|
        invariant 0 <= i <= |pixelData|
        invariant forall k | 0 <= k < i :: !IsColoured(pixelData[k])
      {
        var pixel := pixelData[i];
        if pixel.alpha == 0 {
          i := i + 1;
          continue;
        }
        if pixel.red < 255 || pixel.green < 255 || pixel.blue < 255 {
          notWhiteOrTransparent := true;
          assert IsColoured(PixelAt(bmp, startX + i, sy));
          break;
        }
        i := i + 1;
      }
      if !notWhiteOrTransparent {
        forall px | startX <= px < startX + blockWidth
          ensures !IsColoured(PixelAt(bmp, px, sy))
        {
          assert pixelData[px - startX] == PixelAt(bmp, px, sy);
        }
      }
    }

    /** `splitIntoGrid`: builds the raw grid of ceil(rows) x ceil(columns)
        cells, merges and filters each row down to the heads of its
        stretches of filled cells, and splits every stretch into random
        widths laid end to end. */
    method SplitIntoGrid(bmp: Bitmap, rowsCount: real, columnsCount: real,
                         codeBlockMinWidth: int, codeBlockMaxWidth: int, monotype: bool)
      returns (finalBlocks: seq<seq<Column>>, ghost splits: seq<seq<seq<int>>>)
      requires Valid() && 1 <= codeBlockMinWidth <= codeBlockMaxWidth
      ensures |finalBlocks| == LoopCount(rowsCount) && |splits| == |finalBlocks|
      ensures forall y | 0 <= y < |finalBlocks| ::
        IsRandomLengthRow(finalBlocks[y], RunHeads(RawRow(bmp, y, LoopCount(columnsCount)), accuracy), splits[y],
                          codeBlockMinWidth, codeBlockMaxWidth, monotype)
    {
      ghost var cols := LoopCount(columnsCount);
      var startY := 0;
      var grid: seq<seq<Column>> := [];
      var y := 0;
      while (y as real) < rowsCount
        invariant y <= LoopCount(rowsCount)
        invariant |grid| == y && startY == y * blockHeight
        invariant forall yy | 0 <= yy < y :: grid[yy] == RawRow(bmp, yy, cols)
        decreases LoopCount(rowsCount) - y
      {
        BelowLoopCount(y, rowsCount);
        var row := BuildRow(bmp, y, startY, columnsCount);
        startY := startY + blockHeight;
        grid := grid + [row];
        y := y + 1;
      }
      BelowLoopCount(y, rowsCount);

      var merged := MergeColumns(grid, accuracy);
      var filteredGrid := FilterGrid(merged);
      forall yy | 0 <= yy < |grid|
        ensures filteredGrid[yy] == RunHeads(grid[yy], accuracy)
        ensures forall c: Column | c in filteredGrid[yy] :: c.blockWidth >= 0
      {
        MergeThenFilter(grid[yy], accuracy);
        HeadsAtLeastOneCell(grid[yy], accuracy);
      }
      finalBlocks, splits := SplitIntoRandomLengthBlocks(filteredGrid, codeBlockMinWidth, codeBlockMaxWidth, monotype);
    }

    /** The inner loop of `splitIntoGrid`: one row of raw cells. */
    method BuildRow(bmp: Bitmap, y: nat, startY: int, columnsCount: real) returns (columns: seq<Column>)
      requires Valid() && startY == y * blockHeight
      ensures columns == RawRow(bmp, y, LoopCount(columnsCount))
    {
      var startX := 0;
      columns := [];
      var x := 0;
      while (x as real) < columnsCount
        invariant x <= LoopCount(columnsCount)
        invariant |columns| == x && startX == x * accuracy
        invariant forall xx | 0 <= xx < x :: columns[xx] == Cell(bmp, xx, y)
        decreases LoopCount(columnsCount) - x
      {
        BelowLoopCount(x, columnsCount);
        var pixelsContainColor := AreaContainsColour(bmp, startX, startY, accuracy, blockHeight);
        columns := columns + [Column(startX, startY, pixelsContainColor, accuracy, false)];
        startX := startX + accuracy;
        x := x + 1;
      }
      BelowLoopCount(x, columnsCount);
    }

    /** `splitIntoRandomLengthBlocks`: replaces every stretch by the blocks
        of one random split of its width, laid end to end from its start. */
    method SplitIntoRandomLengthBlocks(grid: seq<seq<Column>>, codeBlockMinWidth: int, codeBlockMaxWidth: int, monotype: bool)
      returns (rows: seq<seq<Column>>, ghost splits: seq<seq<seq<int>>>)
      requires 1 <= codeBlockMinWidth <= codeBlockMaxWidth
      requires forall y | 0 <= y < |grid| :: forall c | c in grid[y] :: c.blockWidth >= 0
      ensures |rows| == |grid| && |splits| == |grid|
      ensures forall y | 0 <= y < |grid| ::
        IsRandomLengthRow(rows[y], grid[y], splits[y], codeBlockMinWidth, codeBlockMaxWidth, monotype)
    {
      rows := [];
      splits := [];
      for y := 0 to |grid|
        invariant |rows| == y && |splits| == y
        invariant forall yy | 0 <= yy < y ::
          IsRandomLengthRow(rows[yy], grid[yy], splits[yy], codeBlockMinWidth, codeBlockMaxWidth, monotype)
      {
        var columns, rowSplits := SplitRow(grid[y], codeBlockMinWidth, codeBlockMaxWidth, monotype);
        rows := rows + [columns];
        splits := splits + [rowSplits];
      }
    }

    /** One row of `splitIntoRandomLengthBlocks`. */
    method SplitRow(heads: seq<Column>, codeBlockMinWidth: int, codeBlockMaxWidth: int, monotype: bool)
      returns (columns: seq<Column>, ghost rowSplits: seq<seq<int>>)
      requires 1 <= codeBlockMinWidth <= codeBlockMaxWidth
      requires forall c | c in heads :: c.blockWidth >= 0
      ensures IsRandomLengthRow(columns, heads, rowSplits, codeBlockMinWidth, codeBlockMaxWidth, monotype)
    {
      columns := [];
      rowSplits := [];
      for x := 0 to |heads|
        invariant SplitsFit(heads[..x], rowSplits, codeBlockMinWidth, codeBlockMaxWidth, monotype)
        invariant columns == LayRow(heads[..x], rowSplits)
      {
        var blockWidth := heads[x].blockWidth;
        assert heads[x] in heads;
        var newBlockWidths := RandomNumbersWithSum(blockWidth, codeBlockMinWidth, codeBlockMaxWidth, monotype);
        var blocks := LayBlocks(heads[x].startX, heads[x].startY, newBlockWidths);
        LayRowSnoc(heads, rowSplits, x, newBlockWidths);
        SplitsFitSnoc(heads, rowSplits, x, newBlockWidths, codeBlockMinWidth, codeBlockMaxWidth, monotype);
        columns := columns + blocks;
        rowSplits := rowSplits + [newBlockWidths];
      }
      assert heads[..|heads|] == heads;
    }

    /** The innermost loop of `splitIntoRandomLengthBlocks`: one block per
        width, each starting where the previous one ends. */
    method LayBlocks(startX: int, startY: int, widths: seq<int>) returns (blocks: seq<Column>)
      ensures blocks == Lay(startX, startY, widths)
    {
      blocks := [];
      var newStartX := startX;
      for w := 0 to |widths|
        invariant newStartX == startX + Sum(widths[..w])
        invariant blocks == Lay(startX, startY, widths[..w])
      {
        var width := widths[w];
        var newColumn := Column(newStartX, startY, true, width, true);
        assert widths[..w + 1] == widths[..w] + [width];
        LayAppend(startX, startY, widths[..w], width);
        SumAppend(widths[..w], width);
        newStartX := newStartX + width;
        blocks := blocks + [newColumn];
      }
      assert widths[..|widths|] == widths;
    }

    /** `calculateRectClassName`: draws from the pool for this width until
        the draw differs from the previous class, and records it. */
    method CalculateRectClassName(blockWidth: int, codeBlockMinWidth: int, codeBlockMaxWidth: int)
      returns (className: string)
      modifies this
      ensures className in ClassPool(blockWidth, codeBlockMinWidth, codeBlockMaxWidth)
      ensures Some(className) != old(previousClassName)
      ensures previousClassName == Some(className)
    {
      var pool := ClassPool(blockWidth, codeBlockMinWidth, codeBlockMaxWidth);
      className := ChooseRandomString(pool);
      if previousClassName == Some(className) {
        PoolOffersAlternative(blockWidth, codeBlockMinWidth, codeBlockMaxWidth, previousClassName);
        className :| className in pool && Some(className) != previousClassName;
      }
      previousClassName := Some(className);
    }

    /** `createRectangle`: the block's rectangle, inset by `spacing`, with a
        fresh class. */
    method CreateRectangle(startX: int, startY: int, codeBlockWidth: int, codeBlockHeight: int,
                           codeBlockMinWidth: int, codeBlockMaxWidth: int)
      returns (block: CodeBlock)
      modifies this
      ensures block.rect == Rect(startX, startY, codeBlockWidth as real - spacing, codeBlockHeight as real - spacing)
      ensures block.className in ClassPool(codeBlockWidth, codeBlockMinWidth, codeBlockMaxWidth)
      ensures Some(block.className) != old(previousClassName)
      ensures previousClassName == Some(block.className)
    {
      var rect := Rect(startX, startY, codeBlockWidth as real - spacing, codeBlockHeight as real - spacing);
      var className := CalculateRectClassName(codeBlockWidth, codeBlockMinWidth, codeBlockMaxWidth);
      block := CodeBlock(rect, className);
    }

    /** `generateCodeBlocks`: one rectangle per filled block, row by row,
        with classes that never repeat the one before. */
    method GenerateCodeBlocks(grid: seq<seq<Column>>) returns (rectangles: seq<CodeBlock>)
      modifies this
      ensures Emitted(rectangles, FilledCells(grid), blockHeight, spacing, codeBlockMinWidth, codeBlockMaxWidth)
      ensures ClassesAlternate(rectangles, old(previousClassName))
      ensures previousClassName == LastClass(rectangles, old(previousClassName))
    {
      rectangles := [];
      for y := 0 to |grid|
        invariant Emitted(rectangles, FilledCells(grid[..y]), blockHeight, spacing, codeBlockMinWidth, codeBlockMaxWidth)
        invariant ClassesAlternate(rectangles, old(previousClassName))
        invariant previousClassName == LastClass(rectangles, old(previousClassName))
      {
        rectangles := GenerateRow(grid[y], rectangles, FilledCells(grid[..y]), old(previousClassName));
        FilledCellsSnoc(grid, y);
      }
      assert grid[..|grid|] == grid;
    }

    /** The inner loop of `generateCodeBlocks`: appends to `rectangles` one
        block per filled column of `row`, carrying the alternation on from
        the blocks already emitted for `cells`. */
    method GenerateRow(row: seq<Column>, rectangles: seq<CodeBlock>, ghost cells: seq<Column>, ghost previous: Option<string>)
      returns (extended: seq<CodeBlock>)
      requires Emitted(rectangles, cells, blockHeight, spacing, codeBlockMinWidth, codeBlockMaxWidth)
      requires ClassesAlternate(rectangles, previous)
      requires previousClassName == LastClass(rectangles, previous)
      modifies this
      ensures Emitted(extended, cells + FilledInRow(row), blockHeight, spacing, codeBlockMinWidth, codeBlockMaxWidth)
      ensures ClassesAlternate(extended, previous)
      ensures previousClassName == LastClass(extended, previous)
      ensures rectangles <= extended
    {
      extended := rectangles;
      for x := 0 to |row|
        invariant rectangles <= extended
        invariant Emitted(extended, cells + FilledInRow(row[..x]), blockHeight, spacing, codeBlockMinWidth, codeBlockMaxWidth)
        invariant ClassesAlternate(extended, previous)
        invariant previousClassName == LastClass(extended, previous)
      {
        var c := row[x];
        if c.fill {
          var rect := CreateRectangle(c.startX, c.startY, c.blockWidth, blockHeight, codeBlockMinWidth, codeBlockMaxWidth);
          EmitStep(extended, cells, row, x, previous, rect, blockHeight, spacing, codeBlockMinWidth, codeBlockMaxWidth);
          extended := extended + [rect];
        } else {
          SkipStep(cells, row, x);
        }
      }
      assert row[..|row|] == row;
    }

    /** `createFromImage` without the canvas and SVG plumbing: the cell
        counts are the image size divided by the cell size; the result is the
        rectangles of the blocks of `splitIntoGrid`, in row-major order. */
    method CreateFromImage(bmp: Bitmap)
      returns (codeBlocks: seq<CodeBlock>, ghost finalBlocks: seq<seq<Column>>, ghost splits: seq<seq<seq<int>>>)
      requires Valid()
      modifies this
      ensures |finalBlocks| == CeilDiv(bmp.height, blockHeight) && |splits| == |finalBlocks|
      ensures forall y | 0 <= y < |finalBlocks| ::
        IsRandomLengthRow(finalBlocks[y], RunHeads(RawRow(bmp, y, CeilDiv(bmp.width, accuracy)), accuracy), splits[y],
                          codeBlockMinWidth, codeBlockMaxWidth, monotype)
      ensures Emitted(codeBlocks, Flatten(finalBlocks), blockHeight, spacing, codeBlockMinWidth, codeBlockMaxWidth)
      ensures ClassesAlternate(codeBlocks, old(previousClassName))
      ensures previousClassName == LastClass(codeBlocks, old(previousClassName))
      ensures IsBlank(bmp) ==> codeBlocks == []
      ensures monotype ==> forall y, x | 0 <= y < |finalBlocks| && 0 <= x < |finalBlocks[y]| ::
        && MultipleOf(finalBlocks[y][x].blockWidth, codeBlockMinWidth)
        && codeBlockMinWidth <= finalBlocks[y][x].blockWidth <= codeBlockMaxWidth
    {
      var rowsCount := (bmp.height as real) / (blockHeight as real);
      var columnsCount := (bmp.width as real) / (accuracy as real);
      LoopCountIsCeilDiv(bmp.height, blockHeight);
      LoopCountIsCeilDiv(bmp.width, accuracy);
      var grid;
      grid, splits := SplitIntoGrid(bmp, rowsCount, columnsCount, codeBlockMinWidth, codeBlockMaxWidth, monotype);
      finalBlocks := grid;
      BlocksFilled(bmp, CeilDiv(bmp.width, accuracy), grid, splits);
      if IsBlank(bmp) {
        BlankHasNoBlocks(bmp, CeilDiv(bmp.width, accuracy), grid, splits);
        FilledCellsEmpty(grid);
      }
      if monotype {
        MonotypeBlocks(bmp, CeilDiv(bmp.width, accuracy), grid, splits);
      }
      codeBlocks := GenerateCodeBlocks(grid);
    }

    /** After merge and filter a row holds only filled, unmerged heads,
        inside the row, left to right and not touching, and their widths add
        up to one cell per filled cell of the raw row. */
    lemma FilteredRowShape(bmp: Bitmap, y: nat, columnsCount: nat)
      requires Valid()
      ensures var heads := RunHeads(RawRow(bmp, y, columnsCount), accuracy);
        && (forall c | c in heads :: c.fill && !c.merged)
        && Within(heads, 0, columnsCount * accuracy)
        && Apart(heads)
        && SumWidths(heads) == accuracy * CountFilled(RawRow(bmp, y, columnsCount))
    {
      var row := RawRow(bmp, y, columnsCount);
      assert Laid(row, 0, accuracy);
      HeadsLayout(row, 0, accuracy);
      HeadsWidthSum(row, accuracy);
    }

    /** In monotype mode every final block is a whole number of `min`-wide
        cells, between the minimum and the maximum width: no remainder piece
        is ever pushed. */
    lemma MonotypeBlocks(bmp: Bitmap, cols: nat, grid: seq<seq<Column>>, splits: seq<seq<seq<int>>>)
      requires Valid() && monotype && |splits| == |grid|
      requires forall y | 0 <= y < |grid| ::
        IsRandomLengthRow(grid[y], RunHeads(RawRow(bmp, y, cols), accuracy), splits[y],
                          codeBlockMinWidth, codeBlockMaxWidth, monotype)
      ensures forall y, x | 0 <= y < |grid| && 0 <= x < |grid[y]| ::
        && MultipleOf(grid[y][x].blockWidth, codeBlockMinWidth)
        && codeBlockMinWidth <= grid[y][x].blockWidth <= codeBlockMaxWidth
    {
      forall y, x | 0 <= y < |grid| && 0 <= x < |grid[y]|
        ensures MultipleOf(grid[y][x].blockWidth, codeBlockMinWidth)
        ensures codeBlockMinWidth <= grid[y][x].blockWidth <= codeBlockMaxWidth
      {
        var row := RawRow(bmp, y, cols);
        var heads := RunHeads(row, accuracy);
        HeadsWholeCells(row, accuracy);
        LayRowWidths(heads, splits[y]);
        assert grid[y][x] in LayRow(heads, splits[y]);
        var i, k :| 0 <= i < |splits[y]| && 0 <= k < |splits[y][i]| && grid[y][x].blockWidth == splits[y][i][k];
        assert heads[i] in heads;
        MonotypeMultiples(splits[y][i], heads[i].blockWidth, codeBlockMinWidth, codeBlockMaxWidth, heads[i].blockWidth);
      }
    }

    /** An all white or transparent image has no stretch of coloured cells,
        so every row of the final grid is empty. */
    lemma BlankHasNoBlocks(bmp: Bitmap, cols: nat, grid: seq<seq<Column>>, splits: seq<seq<seq<int>>>)
      requires Valid() && |splits| == |grid| && IsBlank(bmp)
      requires forall y | 0 <= y < |grid| ::
        IsRandomLengthRow(grid[y], RunHeads(RawRow(bmp, y, cols), accuracy), splits[y],
                          codeBlockMinWidth, codeBlockMaxWidth, monotype)
      ensures forall y | 0 <= y < |grid| :: grid[y] == []
    {
      forall y | 0 <= y < |grid| ensures grid[y] == [] {
        NoFillNoHeads(RawRow(bmp, y, cols), accuracy);
      }
    }

    /** Every block the split produces is filled, so every block is drawn. */
    lemma BlocksFilled(bmp: Bitmap, cols: nat, grid: seq<seq<Column>>, splits: seq<seq<seq<int>>>)
      requires Valid() && |splits| == |grid|
      requires forall y | 0 <= y < |grid| ::
        IsRandomLengthRow(grid[y], RunHeads(RawRow(bmp, y, cols), accuracy), splits[y],
                          codeBlockMinWidth, codeBlockMaxWidth, monotype)
      ensures FilledCells(grid) == Flatten(grid)
    {
      forall y | 0 <= y < |grid|
        ensures forall x | 0 <= x < |grid[y]| :: grid[y][x].fill
      {
        LayRowBlocks(RunHeads(RawRow(bmp, y, cols), accuracy), splits[y]);
      }
      FilledCellsAll(grid);
    }
  }
}
