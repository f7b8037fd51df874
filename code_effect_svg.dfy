/** CodeEffectSVG: the older pipeline. It rasterises an SVG, cuts it into a
    grid of fixed-size cells, merges each stretch of coloured cells into one
    block and draws one rectangle per block. */
module CodeEffect {
  import opened Pixels
  import opened LoopBounds
  import opened Columns
  import opened Rects

  /** The rectangles drawn for `cells`, one each and in order. */
  function Drawn(cells: seq<Column>, blockHeight: int, spacing: real): (rects: seq<Rect>)
    ensures |rects| == |cells|
  {
    seq(|cells|, k requires 0 <= k < |cells| => RectOf(cells[k], blockHeight, spacing))
  }

  lemma DrawnConcat(cells: seq<Column>, more: seq<Column>, blockHeight: int, spacing: real)
    ensures Drawn(cells + more, blockHeight, spacing) == Drawn(cells, blockHeight, spacing) + Drawn(more, blockHeight, spacing)
  {
    var left := Drawn(cells + more, blockHeight, spacing);
    var right := Drawn(cells, blockHeight, spacing) + Drawn(more, blockHeight, spacing);
    forall k | 0 <= k < |left| ensures left[k] == right[k] {
      if k < |cells| {
        assert (cells + more)[k] == cells[k];
      } else {
        assert (cells + more)[k] == more[k - |cells|];
      }
    }
  }

  class CodeEffectSVG {
    const blockWidth: int
    const blockHeight: int
    const spacing: real
    /** The rectangles appended to the output element so far. */
    var output: seq<Rect>

    predicate Valid() {
      blockWidth >= 1 && blockHeight >= 1
    }

    constructor(blockWidth: int, blockHeight: int, spacing: real)
      requires blockWidth >= 1 && blockHeight >= 1
      ensures Valid()
      ensures this.blockWidth == blockWidth && this.blockHeight == blockHeight && this.spacing == spacing
      ensures output == []
    {
      this.blockWidth := blockWidth;
      this.blockHeight := blockHeight;
      this.spacing := spacing;
      output := [];
    }

    /** The cell in row y, column x of the raw grid: filled when some pixel
        of its whole rectangle holds colour. */
    ghost function Cell(bmp: Bitmap, x: nat, y: nat): (c: Column) {
      var startX := x * blockWidth;
      var startY := y * blockHeight;
      Column(startX, startY, RectHasColour(bmp, startX, startY, blockWidth, blockHeight), blockWidth, false)
    }

    ghost function RawRow(bmp: Bitmap, y: nat, columnsCount: nat): (row: seq<Column>)
      ensures |row| == columnsCount
    {
      seq(columnsCount, x requires 0 <= x < columnsCount => Cell(bmp, x, y))
    }

    /** `areaContainsColour`: scans every pixel of the cell's rectangle, row
        by row, and reports whether one is coloured. Fully transparent pixels
        never count. */
    method AreaContainsColour(bmp: Bitmap, startX: int, startY: int, blockWidth: nat, blockHeight: nat)
      returns (notWhiteOrTransparent: bool)
      requires blockWidth >= 1 && blockHeight >= 1
      ensures notWhiteOrTransparent <==> RectHasColour(bmp, startX, startY, blockWidth, blockHeight)
    {
      var pixelData := GetImageData(bmp, startX, startY, blockWidth, blockHeight);
      notWhiteOrTransparent := false;
      var i := 0;
      while i < |pixelData|
        invariant 0 <= i <= |pixelData|
        invariant forall k | 0 <= k < i :: !IsColoured(pixelData[k])
      {
        var pixel := pixelData[i];
        if pixel.alpha == 0 {
          i := i + 1;
          continue;
        }
        if pixel.red < 255 || pixel.green < 255 || pixel.blue < 255 {
          notWhiteOrTransparent := true;
          RowMajorIndex(i, blockWidth, blockHeight);
          assert IsColoured(PixelAt(bmp, startX + i % blockWidth, startY + i / blockWidth));
          break;
        }
        i := i + 1;
      }
      if !notWhiteOrTransparent {
        forall px, py | startX <= px < startX + blockWidth && startY <= py < startY + blockHeight
          ensures !IsColoured(PixelAt(bmp, px, py))
        {
          RowMajorPosition(px - startX, py - startY, blockWidth, blockHeight);
          assert pixelData[(py - startY) * blockWidth + (px - startX)] == PixelAt(bmp, px, py);
        }
      }
    }

    /** How many cells the inner loop of `splitIntoGrid` pushes for row y,
        scanning from cell x with loop count `count`: it stops after the
        first filled cell that reaches the right edge `width`, and otherwise
        after `count` cells. */
    ghost function RowScan(bmp: Bitmap, y: nat, x: nat, count: nat, width: int): (n: nat)
      ensures x < count ==> x < n <= count
      ensures x >= count ==> n == count
      decreases count - x
    {
      if x >= count then count
      else if Cell(bmp, x, y).fill && (x + 1) * blockWidth >= width then x + 1
      else RowScan(bmp, y, x + 1, count, width)
    }

    /** How many rows the outer loop of `splitIntoGrid` builds, scanning from
        row y with loop count `count`: it stops after the first row that
        reaches the bottom edge `height`, and otherwise after `count` rows. */
    function RowsScan(y: nat, count: nat, height: int): (n: nat)
      ensures y < count ==> y < n <= count
      ensures y >= count ==> n == count
      decreases count - y
    {
      if y >= count then count
      else if (y + 1) * blockHeight >= height then y + 1
      else RowsScan(y + 1, count, height)
    }

    /** `splitIntoGrid`: builds the rows of cells, stopping early at the
        image's bottom edge and, after a filled cell, at its right edge;
        merges every row; and keeps the heads of its stretches of filled
        cells. */
    method SplitIntoGrid(bmp: Bitmap, width: int, height: int, rowsCount: real, columnsCount: real)
      returns (filteredGrid: seq<seq<Column>>)
      requires Valid()
      ensures |filteredGrid| == RowsScan(0, LoopCount(rowsCount), height)
      ensures forall y | 0 <= y < |filteredGrid| ::
        filteredGrid[y] == RunHeads(RawRow(bmp, y, RowScan(bmp, y, 0, LoopCount(columnsCount), width)), blockWidth)
    {
      var startY := 0;
      var grid: seq<seq<Column>> := [];
      var y := 0;
      while (y as real) < rowsCount
        invariant y <= LoopCount(rowsCount)
        invariant startY == y * blockHeight
        invariant RowsScan(y, LoopCount(rowsCount), height) == RowsScan(0, LoopCount(rowsCount), height)
        invariant |grid| == y
        invariant forall yy | 0 <= yy < y ::
          grid[yy] == RawRow(bmp, yy, RowScan(bmp, yy, 0, LoopCount(columnsCount), width))
        decreases LoopCount(rowsCount) - y
      {
        BelowLoopCount(y, rowsCount);
        var columns := BuildRow(bmp, width, y, startY, columnsCount);
        NextMultiple(y, blockHeight);
        grid := grid + [columns];
        startY := startY + blockHeight;
        y := y + 1;
        if startY >= height {
          break;
        }
      }
      BelowLoopCount(y, rowsCount);

      var merged := MergeColumns(grid, blockWidth);
      filteredGrid := FilterGrid(merged);
      forall yy | 0 <= yy < |grid| ensures filteredGrid[yy] == RunHeads(grid[yy], blockWidth) {
        MergeThenFilter(grid[yy], blockWidth);
      }
    }

    /** The inner loop of `splitIntoGrid`: one row of cells, which stops
        after a filled cell that reaches the right edge. */
    method BuildRow(bmp: Bitmap, width: int, y: nat, startY: int, columnsCount: real) returns (columns: seq<Column>)
      requires Valid() && startY == y * blockHeight
      ensures columns == RawRow(bmp, y, RowScan(bmp, y, 0, LoopCount(columnsCount), width))
    {
      var startX := 0;
      columns := [];
      var x := 0;
      while (x as real) < columnsCount
        invariant x <= LoopCount(columnsCount)
        invariant startX == x * blockWidth
        invariant RowScan(bmp, y, x, LoopCount(columnsCount), width) == RowScan(bmp, y, 0, LoopCount(columnsCount), width)
        invariant columns == RawRow(bmp, y, x)
        decreases LoopCount(columnsCount) - x
      {
        BelowLoopCount(x, columnsCount);
        var pixelsContainColor := AreaContainsColour(bmp, startX, startY, blockWidth, blockHeight);
        RawRowSnoc(bmp, y, x);
        NextMultiple(x, blockWidth);
        assert Column(startX, startY, pixelsContainColor, blockWidth, false) == Cell(bmp, x, y);
        if !pixelsContainColor {
          columns := columns + [Column(startX, startY, false, blockWidth, false)];
          startX := startX + blockWidth;
          x := x + 1;
          continue;
        }
        columns := columns + [Column(startX, startY, true, blockWidth, false)];
        startX := startX + blockWidth;
        x := x + 1;
        if startX >= width {
          break;
        }
      }
      BelowLoopCount(x, columnsCount);
    }

    /** With the counts `createCodeEffect` passes, the width and height
        divided by the cell size, neither early `break` drops a cell: there
        are ceil(height / blockHeight) rows of ceil(width / blockWidth) cells. */
    lemma {:induction false} ScansReachEdges(bmp: Bitmap, y: nat, width: nat, height: nat)
      requires Valid()
      ensures RowsScan(0, LoopCount((height as real) / (blockHeight as real)), height) == CeilDiv(height, blockHeight)
      ensures RowScan(bmp, y, 0, LoopCount((width as real) / (blockWidth as real)), width) == CeilDiv(width, blockWidth)
    {
      LoopCountIsCeilDiv(height, blockHeight);
      LoopCountIsCeilDiv(width, blockWidth);
      RowsScanToEdge(0, height);
      RowScanToEdge(bmp, y, 0, width);
    }

    lemma {:induction false} RowsScanToEdge(y: nat, height: nat)
      requires Valid()
      requires y <= LoopCount((height as real) / (blockHeight as real))
      ensures RowsScan(y, LoopCount((height as real) / (blockHeight as real)), height) == LoopCount((height as real) / (blockHeight as real))
      decreases LoopCount((height as real) / (blockHeight as real)) - y
    {
      var count := LoopCount((height as real) / (blockHeight as real));
      if y < count {
        if (y + 1) * blockHeight >= height {
          StopAtEdge(y + 1, height, blockHeight, (height as real) / (blockHeight as real));
        } else {
          RowsScanToEdge(y + 1, height);
        }
      }
    }

    lemma {:induction false} RowScanToEdge(bmp: Bitmap, y: nat, x: nat, width: nat)
      requires Valid()
      requires x <= LoopCount((width as real) / (blockWidth as real))
      ensures RowScan(bmp, y, x, LoopCount((width as real) / (blockWidth as real)), width) == LoopCount((width as real) / (blockWidth as real))
      decreases LoopCount((width as real) / (blockWidth as real)) - x
    {
      var count := LoopCount((width as real) / (blockWidth as real));
      if x < count {
        if Cell(bmp, x, y).fill && (x + 1) * blockWidth >= width {
          StopAtEdge(x + 1, width, blockWidth, (width as real) / (blockWidth as real));
        } else {
          RowScanToEdge(bmp, y, x + 1, width);
        }
      }
    }

    lemma NextMultiple(k: int, step: int)
      ensures (k + 1) * step == k * step + step
    {
    }

    lemma RawRowSnoc(bmp: Bitmap, y: nat, n: nat)
      ensures RawRow(bmp, y, n + 1) == RawRow(bmp, y, n) + [Cell(bmp, n, y)]
    {
    }

    /** `drawBlocks`: appends one rectangle per filled cell, row by row. */
    method DrawBlocks(grid: seq<seq<Column>>)
      modifies this
      ensures output == old(output) + Drawn(FilledCells(grid), blockHeight, spacing)
    {
      for y := 0 to |grid|
        invariant output == old(output) + Drawn(FilledCells(grid[..y]), blockHeight, spacing)
      {
        DrawRow(grid[y]);
        FilledCellsSnoc(grid, y);
        DrawnConcat(FilledCells(grid[..y]), FilledInRow(grid[y]), blockHeight, spacing);
      }
      assert grid[..|grid|] == grid;
    }

    /** The inner loop of `drawBlocks`: one rectangle per filled cell of a
        row; the check for merged cells does nothing. */
    method DrawRow(row: seq<Column>)
      modifies this
      ensures output == old(output) + Drawn(FilledInRow(row), blockHeight, spacing)
    {
      for x := 0 to |row|
        invariant output == old(output) + Drawn(FilledInRow(row[..x]), blockHeight, spacing)
      {
        FilledInRowSnoc(row, x);
        var c := row[x];
        if c.fill {
          var rect := CreateRectangle(c.startX, c.startY, c.blockWidth);
          DrawnConcat(FilledInRow(row[..x]), [c], blockHeight, spacing);
          output := output + [rect];
        }
      }
      assert row[..|row|] == row;
    }

    /** `createRectangle`: the block's rectangle, inset by `spacing` on its
        right and bottom edges. */
    method CreateRectangle(startX: int, startY: int, blockWidth: int) returns (rect: Rect)
      ensures rect == RectOf(Column(startX, startY, true, blockWidth, false), this.blockHeight, spacing)
    {
      rect := Rect(startX, startY, blockWidth as real - spacing, this.blockHeight as real - spacing);
    }

    /** `createCodeEffect` without the SVG lookup, rasterisation and loading:
        the counts are the image size divided by the cell size, and one
        rectangle is drawn per merged stretch of filled cells. */
    method CreateCodeEffect(bmp: Bitmap)
      returns (ghost grid: seq<seq<Column>>)
      requires Valid()
      modifies this
      ensures |grid| == CeilDiv(bmp.height, blockHeight)
      ensures forall y | 0 <= y < |grid| ::
        grid[y] == RunHeads(RawRow(bmp, y, CeilDiv(bmp.width, blockWidth)), blockWidth)
      ensures output == old(output) + Drawn(Flatten(grid), blockHeight, spacing)
      ensures IsBlank(bmp) ==> output == old(output)
    {
      var svgWidth := bmp.width;
      var svgHeight := bmp.height;
      var rowsCount := (svgHeight as real) / (blockHeight as real);
      var columnsCount := (svgWidth as real) / (blockWidth as real);
      var filtered := SplitIntoGrid(bmp, svgWidth, svgHeight, rowsCount, columnsCount);
      grid := filtered;
      ScansReachEdges(bmp, 0, svgWidth, svgHeight);
      forall y: nat ensures RowScan(bmp, y, 0, LoopCount(columnsCount), svgWidth) == CeilDiv(svgWidth, blockWidth) {
        ScansReachEdges(bmp, y, svgWidth, svgHeight);
      }
      HeadsFilled(filtered);
      FilledCellsAll(filtered);
      if IsBlank(bmp) {
        BlankHasNoHeads(bmp, CeilDiv(bmp.width, blockWidth), |filtered|);
        FilledCellsEmpty(filtered);
      }
      DrawBlocks(filtered);
    }

    lemma HeadsFilled(grid: seq<seq<Column>>)
      requires forall y | 0 <= y < |grid| :: forall c | c in grid[y] :: c.fill
      ensures forall y, x | 0 <= y < |grid| && 0 <= x < |grid[y]| :: grid[y][x].fill
    {
      forall y, x | 0 <= y < |grid| && 0 <= x < |grid[y]| ensures grid[y][x].fill {
        assert grid[y][x] in grid[y];
      }
    }

    /** After merge and filter a row holds only filled, unmerged heads,
        inside the row, left to right and not touching, and their widths add
        up to one cell per filled cell of the raw row. */
    lemma FilteredRowShape(bmp: Bitmap, y: nat, columnsCount: nat)
      requires Valid()
      ensures var heads := RunHeads(RawRow(bmp, y, columnsCount), blockWidth);
        && (forall c | c in heads :: c.fill && !c.merged)
        && Within(heads, 0, columnsCount * blockWidth)
        && Apart(heads)
        && SumWidths(heads) == blockWidth * CountFilled(RawRow(bmp, y, columnsCount))
    {
      var row := RawRow(bmp, y, columnsCount);
      assert Laid(row, 0, blockWidth);
      HeadsLayout(row, 0, blockWidth);
      HeadsWidthSum(row, blockWidth);
    }

    /** An all white or transparent image leaves every row empty. */
    lemma BlankHasNoHeads(bmp: Bitmap, columnsCount: nat, rowsCount: nat)
      requires IsBlank(bmp)
      ensures forall y | 0 <= y < rowsCount :: RunHeads(RawRow(bmp, y, columnsCount), blockWidth) == []
    {
      forall y | 0 <= y < rowsCount ensures RunHeads(RawRow(bmp, y, columnsCount), blockWidth) == [] {
        NoFillNoHeads(RawRow(bmp, y, columnsCount), blockWidth);
      }
    }
  }
}
