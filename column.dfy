/** The grid of columns both pipelines build, merge and filter. A `Column`
    is the record `{startX, startY, fill, blockWidth, merged}`; a row is a
    sequence of columns and a grid a sequence of rows. */
module Columns {

  datatype Column = Column(startX: int, startY: int, fill: bool, blockWidth: int, merged: bool)

  // ---------------------------------------------------------------------
  // Stretches of filled columns

  ghost predicate AllFilled(row: seq<Column>, lo: int, hi: int)
    requires 0 <= lo && hi <= |row|
  {
    forall j | lo <= j < hi :: row[j].fill
  }

  /** The number of consecutive filled columns starting at index i. */
  function RunLen(row: seq<Column>, i: nat): (n: nat)
    ensures n == 0 || i + n <= |row|
    decreases |row| - i
  {
    if i < |row| && row[i].fill then 1 + RunLen(row, i + 1) else 0
  }

  /** Column i is filled and starts a maximal stretch of filled columns. */
  predicate IsHead(row: seq<Column>, i: nat)
    requires i < |row|
  {
    row[i].fill && (i == 0 || !row[i - 1].fill)
  }

  /** A run starting at i covers only filled columns and stops at an unfilled one or the end. */
  lemma {:induction false} RunLenBounds(row: seq<Column>, i: nat)
    requires i <= |row|
    ensures i + RunLen(row, i) <= |row|
    ensures AllFilled(row, i, i + RunLen(row, i))
    ensures i + RunLen(row, i) == |row| || !row[i + RunLen(row, i)].fill
    decreases |row| - i
  {
    if i < |row| && row[i].fill {
      RunLenBounds(row, i + 1);
    }
  }

  /** Measured inside the first n columns, a run is cut off at n. */
  lemma {:induction false} RunLenPrefix(row: seq<Column>, n: nat, i: nat)
    requires i <= n <= |row|
    ensures RunLen(row[..n], i) == if AllFilled(row, i, n) then n - i else RunLen(row, i)
    decreases n - i
  {
    if i < n && row[i].fill {
      RunLenPrefix(row, n, i + 1);
    }
  }

  /** A run measured from index i does not depend on the columns before index k <= i. */
  lemma {:induction false} RunLenSuffix(row: seq<Column>, k: nat, i: nat)
    requires k <= i <= |row|
    ensures RunLen(row, i) == RunLen(row[k..], i - k)
    decreases |row| - i
  {
    if i < |row| && row[i].fill {
      RunLenSuffix(row, k, i + 1);
    }
  }

  /** The head of the stretch of filled columns that column x belongs to. */
  function HeadOf(row: seq<Column>, x: nat): (h: nat)
    requires x < |row| && row[x].fill
    ensures h <= x && IsHead(row, h) && AllFilled(row, h, x + 1)
  {
    if x == 0 || !row[x - 1].fill then x else HeadOf(row, x - 1)
  }

  // ---------------------------------------------------------------------
  // Merging

  /** Column i once its row is merged: the head of a stretch keeps
      `merged = false` and grows by `cellWidth` for every further column of
      the stretch; the other filled columns are marked merged; unfilled
      columns are left alone. */
  function MergedColumn(row: seq<Column>, i: nat, cellWidth: int): (c: Column)
    requires i < |row|
  {
    if !row[i].fill then row[i]
    else if IsHead(row, i) then
      row[i].(merged := false, blockWidth := row[i].blockWidth + (RunLen(row, i) - 1) * cellWidth)
    else row[i].(merged := true)
  }

  function MergedRow(row: seq<Column>, cellWidth: int): (merged: seq<Column>)
    ensures |merged| == |row|
  {
    seq(|row|, i requires 0 <= i < |row| => MergedColumn(row, i, cellWidth))
  }

  /** Merging the first x + 1 columns differs from merging the first x only
      at column x and, when column x continues the last stretch, at that
      stretch's head. */
  lemma MergedColumnExtend(row: seq<Column>, x: nat, i: nat, cellWidth: int)
    requires i < x < |row|
    ensures MergedColumn(row[..x + 1], i, cellWidth) ==
      if row[x].fill && IsHead(row, i) && AllFilled(row, i, x)
      then MergedColumn(row[..x], i, cellWidth).(blockWidth := MergedColumn(row[..x], i, cellWidth).blockWidth + cellWidth)
      else MergedColumn(row[..x], i, cellWidth)
  {
    RunLenPrefix(row, x, i);
    RunLenPrefix(row, x + 1, i);
    if !AllFilled(row, i, x + 1) && AllFilled(row, i, x) {
      RunLenBounds(row, i);
    }
  }

  /** Column i of the row as the merge loop leaves it after visiting the
      first x columns: those are merged among themselves, the rest untouched. */
  ghost function Stage(row: seq<Column>, x: nat, i: nat, cellWidth: int): (c: Column)
    requires x <= |row| && i < |row|
  {
    if i < x then MergedColumn(row[..x], i, cellWidth) else row[i]
  }

  /** One visit of the merge loop, column by column: visiting column x
      settles it (left alone when unfilled, unmerged when it heads a stretch,
      merged when it continues the stretch headed at h) and, in the last
      case, widens h by one cell; every other column stays as it was. */
  lemma StageStep(row: seq<Column>, x: nat, h: int, i: nat, cellWidth: int)
    requires x < |row| && i < |row|
    requires row[x].fill && !IsHead(row, x) ==> 0 <= h < x && IsHead(row, h) && AllFilled(row, h, x)
    ensures Stage(row, x + 1, i, cellWidth) ==
      if i == x then
        (if !row[x].fill then row[x]
         else if IsHead(row, x) then row[x].(merged := false)
         else row[x].(merged := true))
      else if i == h && row[x].fill && !IsHead(row, x) then
        Stage(row, x, i, cellWidth).(blockWidth := Stage(row, x, i, cellWidth).blockWidth + cellWidth)
      else Stage(row, x, i, cellWidth)
  {
    if i == x {
      RunLenPrefix(row, x + 1, x);
    } else if i < x {
      MergedColumnExtend(row, x, i, cellWidth);
      if row[x].fill && IsHead(row, i) && AllFilled(row, i, x) && !IsHead(row, x) && i != h {
        assert false;
      }
    }
  }

  /** Merging a row and then dropping its first k columns is merging the
      last |row| - k columns, provided the cut does not split a stretch. */
  lemma MergedSuffix(row: seq<Column>, k: nat, cellWidth: int)
    requires 0 < k <= |row|
    requires k == |row| || !row[k - 1].fill || !row[k].fill
    ensures MergedRow(row, cellWidth)[k..] == MergedRow(row[k..], cellWidth)
  {
    forall i | k <= i < |row|
      ensures MergedColumn(row, i, cellWidth) == MergedColumn(row[k..], i - k, cellWidth)
    {
      RunLenSuffix(row, k, i);
    }
  }

  /** The inner loop of mergeColumns: one left-to-right pass over a row that
      merges every stretch of filled columns into its first column. */
  method MergeRow(row: seq<Column>, cellWidth: int) returns (columns: seq<Column>)
    ensures columns == MergedRow(row, cellWidth)
  {
    columns := row;
    var previousFill := false;
    var currentBlockWidth := 0;
    var blockToMergeWithIndex := -1;
    for x := 0 to |columns|
      invariant |columns| == |row|
      invariant forall i | 0 <= i < |row| :: columns[i] == Stage(row, x, i, cellWidth)
      invariant previousFill == (x > 0 && row[x - 1].fill)
      invariant previousFill ==>
        && blockToMergeWithIndex == HeadOf(row, x - 1)
        && currentBlockWidth == columns[blockToMergeWithIndex].blockWidth
    {
      var fill := columns[x].fill;
      ghost var h := blockToMergeWithIndex;
      if fill && previousFill {
        columns := columns[x := columns[x].(merged := true)];
        var previousColumn := columns[blockToMergeWithIndex];
        columns := columns[blockToMergeWithIndex := previousColumn.(blockWidth := currentBlockWidth + cellWidth)];
        currentBlockWidth := columns[blockToMergeWithIndex].blockWidth;
        previousFill := true;
      } else if fill {
        blockToMergeWithIndex := x;
        currentBlockWidth := columns[x].blockWidth;
        previousFill := true;
        columns := columns[x := columns[x].(merged := false)];
      } else {
        currentBlockWidth := 0;
        previousFill := false;
        blockToMergeWithIndex := -1;
      }
      forall i | 0 <= i < |row| ensures columns[i] == Stage(row, x + 1, i, cellWidth) {
        StageStep(row, x, h, i, cellWidth);
      }
    }
    assert row[..|row|] == row;
  }

  /** mergeColumns: merges every row of the grid. */
  method MergeColumns(grid: seq<seq<Column>>, cellWidth: int) returns (merged: seq<seq<Column>>)
    ensures |merged| == |grid|
    ensures forall y | 0 <= y < |grid| :: merged[y] == MergedRow(grid[y], cellWidth)
  {
    merged := grid;
    for y := 0 to |grid|
      invariant |merged| == |grid|
      invariant forall yy | 0 <= yy < y :: merged[yy] == MergedRow(grid[yy], cellWidth)
      invariant forall yy | y <= yy < |grid| :: merged[yy] == grid[yy]
    {
      var row := MergeRow(merged[y], cellWidth);
      merged := merged[y := row];
    }
  }

  // ---------------------------------------------------------------------
  // Filtering

  /** `row.filter((column) => !column.merged && column.fill)`. */
  function Survivors(row: seq<Column>): (kept: seq<Column>) {
    if row == [] then []
    else (if !row[0].merged && row[0].fill then [row[0]] else []) + Survivors(row[1..])
  }

  /** The filter keeps exactly the unmerged filled columns. */
  lemma {:induction false} SurvivorsMembers(row: seq<Column>)
    ensures forall c :: c in Survivors(row) <==> c in row && !c.merged && c.fill
  {
    if row != [] {
      SurvivorsMembers(row[1..]);
      assert row == [row[0]] + row[1..];
    }
  }

  lemma {:induction false} SurvivorsAppend(a: seq<Column>, b: seq<Column>)
    ensures Survivors(a + b) == Survivors(a) + Survivors(b)
  {
    if a == [] {
      assert a + b == b;
    } else {
      assert (a + b)[0] == a[0];
      assert (a + b)[1..] == a[1..] + b;
      SurvivorsAppend(a[1..], b);
    }
  }

  lemma {:induction false} NoneSurvive(row: seq<Column>)
    requires forall i | 0 <= i < |row| :: row[i].merged
    ensures Survivors(row) == []
  {
    if row != [] {
      NoneSurvive(row[1..]);
    }
  }

  /** The filter loop of splitIntoGrid: one filtered row per row of the grid. */
  method FilterGrid(grid: seq<seq<Column>>) returns (filtered: seq<seq<Column>>)
    ensures |filtered| == |grid|
    ensures forall y | 0 <= y < |grid| :: filtered[y] == Survivors(grid[y])
  {
    filtered := [];
    for y := 0 to |grid|
      invariant |filtered| == y
      invariant forall yy | 0 <= yy < y :: filtered[yy] == Survivors(grid[yy])
    {
      filtered := filtered + [Survivors(grid[y])];
    }
  }

  // ---------------------------------------------------------------------
  // What merge-then-filter leaves: one column per stretch

  /** Reference definition: walking the row stretch by stretch, each maximal
      stretch of n filled columns yields its first column, unmerged and
      widened by n - 1 cells; unfilled columns yield nothing. */
  function RunHeads(row: seq<Column>, cellWidth: int): (heads: seq<Column>)
    ensures forall c | c in heads :: c.fill && !c.merged
    decreases |row|
  {
    if row == [] then []
    else if !row[0].fill then RunHeads(row[1..], cellWidth)
    else
      var n := RunLen(row, 0);
      [row[0].(merged := false, blockWidth := row[0].blockWidth + (n - 1) * cellWidth)] + RunHeads(row[n..], cellWidth)
  }

  /** Merging a row and then filtering it leaves exactly one column per
      maximal stretch of filled columns, in order: its head, widened. */
  lemma {:induction false} MergeThenFilter(row: seq<Column>, cellWidth: int)
    ensures Survivors(MergedRow(row, cellWidth)) == RunHeads(row, cellWidth)
    decreases |row|, 1
  {
    if row == [] {
    } else if row[0].fill {
      MergeThenFilterRun(row, cellWidth);
    } else {
      var m := MergedRow(row, cellWidth);
      MergedSuffix(row, 1, cellWidth);
      MergeThenFilter(row[1..], cellWidth);
      assert m[0] == row[0];
    }
  }

  /** MergeThenFilter for a row that starts with a stretch of filled columns. */
  lemma {:induction false} MergeThenFilterRun(row: seq<Column>, cellWidth: int)
    requires row != [] && row[0].fill
    ensures Survivors(MergedRow(row, cellWidth)) == RunHeads(row, cellWidth)
    decreases |row|, 0
  {
    var m := MergedRow(row, cellWidth);
    var k := RunLen(row, 0);
    RunLenBounds(row, 0);
    assert Survivors(m[k..]) == RunHeads(row[k..], cellWidth) by {
      MergedSuffix(row, k, cellWidth);
      MergeThenFilter(row[k..], cellWidth);
    }
    assert Survivors(m) == [m[0]] + Survivors(m[k..]) by {
      MergedRunTail(row, k, cellWidth);
      SurvivorsSplit(m, k);
      assert !m[0].merged && m[0].fill;
    }
    assert RunHeads(row, cellWidth) == [m[0]] + RunHeads(row[k..], cellWidth);
  }

  /** Inside the first stretch, every column after the head is merged away. */
  lemma MergedRunTail(row: seq<Column>, k: nat, cellWidth: int)
    requires 0 < k <= |row|
    requires k == 1 || (row[0].fill && k <= RunLen(row, 0))
    ensures Survivors(MergedRow(row, cellWidth)[1..k]) == []
  {
    var m := MergedRow(row, cellWidth);
    if k > 1 {
      RunLenBounds(row, 0);
      forall i | 0 <= i < k - 1 ensures m[1..k][i].merged {
        assert row[i].fill && row[i + 1].fill;
      }
    }
    NoneSurvive(m[1..k]);
  }

  lemma SurvivorsSplit(m: seq<Column>, k: nat)
    requires 0 < k <= |m|
    ensures Survivors(m) == (if !m[0].merged && m[0].fill then [m[0]] else []) + Survivors(m[1..k]) + Survivors(m[k..])
  {
    SliceSplit(m, 1, k);
    SurvivorsAppend(m[1..k], m[k..]);
  }

  lemma SliceSplit<T>(s: seq<T>, i: nat, k: nat)
    requires i <= k <= |s|
    ensures s[i..] == s[i..k] + s[k..]
  {
  }

  /** A row as the grid step lays it out: column i starts i cells after x0
      and is one cell wide. */
  ghost predicate Laid(row: seq<Column>, x0: int, cellWidth: int) {
    forall i | 0 <= i < |row| :: row[i].startX == x0 + i * cellWidth && row[i].blockWidth == cellWidth
  }

  lemma LaidSuffix(row: seq<Column>, x0: int, cellWidth: int, k: nat)
    requires Laid(row, x0, cellWidth) && k <= |row|
    ensures Laid(row[k..], x0 + k * cellWidth, cellWidth)
  {
    forall i | 0 <= i < |row| - k
      ensures row[k..][i].startX == x0 + k * cellWidth + i * cellWidth
    {
      assert (k + i) * cellWidth == k * cellWidth + i * cellWidth;
    }
  }

  /** Every column of `columns` lies inside [lo, hi). */
  ghost predicate Within(columns: seq<Column>, lo: int, hi: int) {
    forall k | 0 <= k < |columns| :: lo <= columns[k].startX && columns[k].startX + columns[k].blockWidth <= hi
  }

  /** The columns run left to right with a gap between neighbours. */
  ghost predicate Apart(columns: seq<Column>) {
    forall k | 0 <= k < |columns| - 1 :: columns[k].startX + columns[k].blockWidth < columns[k + 1].startX
  }

  lemma PrependApart(head: Column, rest: seq<Column>, lo: int, mid: int, hi: int)
    requires lo <= head.startX && lo <= mid && head.startX + head.blockWidth < mid <= hi
    requires Within(rest, mid, hi) && Apart(rest)
    ensures Within([head] + rest, lo, hi) && Apart([head] + rest)
  {
    var all := [head] + rest;
    forall k | 0 <= k < |all| ensures lo <= all[k].startX && all[k].startX + all[k].blockWidth <= hi {
      if k > 0 { assert all[k] == rest[k - 1]; }
    }
    forall k | 0 <= k < |all| - 1 ensures all[k].startX + all[k].blockWidth < all[k + 1].startX {
      assert all[k + 1] == rest[k];
      if k > 0 { assert all[k] == rest[k - 1]; }
    }
  }

  lemma WidenWithin(columns: seq<Column>, lo: int, lo': int, hi: int)
    requires lo <= lo' && Within(columns, lo', hi)
    ensures Within(columns, lo, hi)
  {
  }

  /** The heads left of a laid-out row lie inside it, in increasing order,
      and no head touches the next. */
  lemma {:induction false} HeadsLayout(row: seq<Column>, x0: int, cellWidth: int)
    requires cellWidth > 0 && Laid(row, x0, cellWidth)
    ensures Within(RunHeads(row, cellWidth), x0, x0 + |row| * cellWidth)
    ensures Apart(RunHeads(row, cellWidth))
    decreases |row|, 2
  {
    if row == [] {
    } else if !row[0].fill {
      LaidSuffix(row, x0, cellWidth, 1);
      HeadsLayout(row[1..], x0 + cellWidth, cellWidth);
      assert x0 + cellWidth + (|row| - 1) * cellWidth == x0 + |row| * cellWidth;
      WidenWithin(RunHeads(row[1..], cellWidth), x0, x0 + cellWidth, x0 + |row| * cellWidth);
    } else {
      HeadsLayoutRun(row, x0, cellWidth);
    }
  }

  /** HeadsLayout for a row that starts with a stretch of filled columns. */
  lemma {:induction false} HeadsLayoutRun(row: seq<Column>, x0: int, cellWidth: int)
    requires cellWidth > 0 && Laid(row, x0, cellWidth) && row != [] && row[0].fill
    ensures Within(RunHeads(row, cellWidth), x0, x0 + |row| * cellWidth)
    ensures Apart(RunHeads(row, cellWidth))
    decreases |row|, 1
  {
    var n := RunLen(row, 0);
    RunLenBounds(row, 0);
    assert row[0].startX == x0 && row[0].blockWidth == cellWidth;
    if n < |row| {
      LaidSuffix(row, x0, cellWidth, n + 1);
      HeadsLayoutGap(row, x0, cellWidth);
    } else {
      RunArith(n, |row|, cellWidth);
      var head := FirstHead(row, x0, cellWidth);
      assert row[n..] == [];
    }
  }

  /** HeadsLayout for a row whose first stretch ends before the row does:
      the first head ends at the gap, the others lie beyond it. */
  lemma {:induction false} HeadsLayoutGap(row: seq<Column>, x0: int, cellWidth: int)
    requires cellWidth > 0 && row != [] && row[0].fill && row[0].startX == x0 && row[0].blockWidth == cellWidth
    requires RunLen(row, 0) < |row|
    requires Laid(row[RunLen(row, 0) + 1..], x0 + (RunLen(row, 0) + 1) * cellWidth, cellWidth)
    ensures Within(RunHeads(row, cellWidth), x0, x0 + |row| * cellWidth)
    ensures Apart(RunHeads(row, cellWidth))
    decreases |row|, 0
  {
    var hi := x0 + |row| * cellWidth;
    var n := RunLen(row, 0);
    RunLenBounds(row, 0);
    RunArith(n, |row|, cellWidth);
    var mid := x0 + (n + 1) * cellWidth;
    var tail := row[n + 1..];
    var head := FirstHead(row, x0, cellWidth);
    RunHeadsAfterGap(row, n, cellWidth);
    var rest := RunHeads(tail, cellWidth);
    CellsAdd(n + 1, |tail|, |row|, cellWidth);
    HeadsLayout(tail, mid, cellWidth);
    PrependApart(head, rest, x0, mid, hi);
  }

  /** The first head of a row that starts with a stretch of n filled
      cells spans exactly those n cells. */
  lemma FirstHead(row: seq<Column>, x0: int, cellWidth: int) returns (head: Column)
    requires row != [] && row[0].fill && row[0].startX == x0 && row[0].blockWidth == cellWidth
    ensures RunHeads(row, cellWidth) == [head] + RunHeads(row[RunLen(row, 0)..], cellWidth)
    ensures head.startX == x0 && head.blockWidth == cellWidth + (RunLen(row, 0) - 1) * cellWidth
  {
    head := RunHeads(row, cellWidth)[0];
  }

  /** An unfilled column at n contributes no head. */
  lemma RunHeadsAfterGap(row: seq<Column>, n: nat, cellWidth: int)
    requires n < |row| && !row[n].fill
    ensures RunHeads(row[n..], cellWidth) == RunHeads(row[n + 1..], cellWidth)
  {
    assert row[n..][1..] == row[n + 1..];
  }

  /** Widths of a cells and of b cells add up to the width of a + b cells. */
  lemma CellsAdd(a: int, b: int, c: int, cellWidth: int)
    requires cellWidth > 0 && 0 <= b && a + b == c
    ensures a * cellWidth + b * cellWidth == c * cellWidth && 0 <= b * cellWidth
  {
  }

  /** The arithmetic of one stretch of `n` cells within a row of `len`. */
  lemma RunArith(n: int, len: int, cellWidth: int)
    requires cellWidth > 0 && 1 <= n <= len
    ensures cellWidth + (n - 1) * cellWidth == n * cellWidth
    ensures n * cellWidth < (n + 1) * cellWidth && 0 < (n + 1) * cellWidth
    ensures n * cellWidth <= len * cellWidth
    ensures n < len ==> (n + 1) * cellWidth + (len - (n + 1)) * cellWidth == len * cellWidth
  {
    assert (n - 1) * cellWidth == n * cellWidth - cellWidth;
    assert (n + 1) * cellWidth == n * cellWidth + cellWidth;
    assert (len - n) * cellWidth >= 0;
    assert (len - (n + 1)) * cellWidth == len * cellWidth - (n + 1) * cellWidth;
  }

  function SumWidths(columns: seq<Column>): (total: int) {
    if columns == [] then 0 else columns[0].blockWidth + SumWidths(columns[1..])
  }

  function CountFilled(row: seq<Column>): (n: nat) {
    if row == [] then 0 else (if row[0].fill then 1 else 0) + CountFilled(row[1..])
  }

  lemma {:induction false} CountFilledPrefix(row: seq<Column>, k: nat)
    requires k <= |row| && AllFilled(row, 0, k)
    ensures CountFilled(row) == k + CountFilled(row[k..])
  {
    if k > 0 {
      CountFilledPrefix(row[1..], k - 1);
      assert row[1..][k - 1..] == row[k..];
    }
  }

  /** When every column is one cell wide, the heads' widths add up to one
      cell per filled column. */
  lemma {:induction false} HeadsWidthSum(row: seq<Column>, cellWidth: int)
    requires forall i | 0 <= i < |row| :: row[i].blockWidth == cellWidth
    ensures SumWidths(RunHeads(row, cellWidth)) == cellWidth * CountFilled(row)
    decreases |row|
  {
    if row == [] {
    } else if !row[0].fill {
      HeadsWidthSum(row[1..], cellWidth);
    } else {
      var n := RunLen(row, 0);
      RunLenBounds(row, 0);
      CountFilledPrefix(row, n);
      HeadsWidthSum(row[n..], cellWidth);
      assert cellWidth + (n - 1) * cellWidth == n * cellWidth;
      assert cellWidth * (n + CountFilled(row[n..])) == n * cellWidth + cellWidth * CountFilled(row[n..]);
    }
  }

  /** Every head of a row of one-cell-wide columns is at least one cell wide. */
  lemma {:induction false} HeadsAtLeastOneCell(row: seq<Column>, cellWidth: int)
    requires cellWidth > 0
    requires forall i | 0 <= i < |row| :: row[i].blockWidth == cellWidth
    ensures forall c | c in RunHeads(row, cellWidth) :: c.blockWidth >= cellWidth
    decreases |row|
  {
    if row == [] {
    } else if !row[0].fill {
      HeadsAtLeastOneCell(row[1..], cellWidth);
    } else {
      var n := RunLen(row, 0);
      RunLenBounds(row, 0);
      HeadsAtLeastOneCell(row[n..], cellWidth);
      assert (n - 1) * cellWidth >= 0;
    }
  }

  /** `w` is a whole number of `d`-wide cells. */
  ghost predicate MultipleOf(w: int, d: int) {
    exists m: int :: w == m * d
  }

  /** In a row of one-cell-wide columns every head spans a whole number of
      cells. */
  lemma {:induction false} HeadsWholeCells(row: seq<Column>, cellWidth: int)
    requires forall i | 0 <= i < |row| :: row[i].blockWidth == cellWidth
    ensures forall c | c in RunHeads(row, cellWidth) :: MultipleOf(c.blockWidth, cellWidth)
    decreases |row|
  {
    if row == [] {
    } else if !row[0].fill {
      HeadsWholeCells(row[1..], cellWidth);
    } else {
      var n := RunLen(row, 0);
      RunLenBounds(row, 0);
      HeadsWholeCells(row[n..], cellWidth);
      var head := row[0].(merged := false, blockWidth := row[0].blockWidth + (n - 1) * cellWidth);
      assert head.blockWidth == n * cellWidth;
      assert RunHeads(row, cellWidth) == [head] + RunHeads(row[n..], cellWidth);
    }
  }

  /** A row without a filled column has no heads. */
  lemma {:induction false} NoFillNoHeads(row: seq<Column>, cellWidth: int)
    requires forall i | 0 <= i < |row| :: !row[i].fill
    ensures RunHeads(row, cellWidth) == []
    decreases |row|
  {
    if row != [] {
      NoFillNoHeads(row[1..], cellWidth);
    }
  }
}
