/** Splitting the width of one merged stretch into random widths
    (`randomNumbersWithSum` and `generateRandomNumber`, two private methods of
    ImageCodeBlocks that read no field), and laying the resulting blocks end
    to end (the innermost loop of `splitIntoRandomLengthBlocks`). */
module Partition {
  import opened Columns

  function Sum(xs: seq<int>): (total: int) {
    if xs == [] then 0 else xs[0] + Sum(xs[1..])
  }

  lemma {:induction false} SumAppend(xs: seq<int>, x: int)
    ensures Sum(xs + [x]) == Sum(xs) + x
  {
    if xs == [] {
      assert xs + [x] == [x];
    } else {
      assert (xs + [x])[1..] == xs[1..] + [x];
      SumAppend(xs[1..], x);
    }
  }

  /** The widths a draw picks from: the multiples m * min with
      m < floor(sum / min) in monotype mode, every number below `sum` otherwise. */
  function AvailableWidths(sum: nat, codeBlockMinWidth: int, monotype: bool): (pool: seq<int>)
    requires codeBlockMinWidth >= 1
  {
    if monotype then seq(sum / codeBlockMinWidth, m => m * codeBlockMinWidth)
    else seq(sum, r => r)
  }

  lemma AvailableWidthsMembers(sum: nat, codeBlockMinWidth: int, monotype: bool, r: int)
    requires codeBlockMinWidth >= 1
    ensures r in AvailableWidths(sum, codeBlockMinWidth, monotype) <==>
      if monotype then exists m | 0 <= m < sum / codeBlockMinWidth :: r == m * codeBlockMinWidth
      else 0 <= r < sum
  {
    var pool := AvailableWidths(sum, codeBlockMinWidth, monotype);
    if monotype {
      if exists m | 0 <= m < sum / codeBlockMinWidth :: r == m * codeBlockMinWidth {
        var m :| 0 <= m < sum / codeBlockMinWidth && r == m * codeBlockMinWidth;
        assert pool[m] == r;
      }
    } else if 0 <= r < sum {
      assert pool[r] == r;
    }
  }

  /** Whenever the split loop draws, some width in the pool is admissible:
      the remaining width is at least 2 * min and never above `sum`, so `min`
      itself is in the pool. */
  lemma MinAvailable(sum: nat, codeBlockMinWidth: int, monotype: bool)
    requires codeBlockMinWidth >= 1 && sum >= 2 * codeBlockMinWidth
    ensures codeBlockMinWidth in AvailableWidths(sum, codeBlockMinWidth, monotype)
  {
    var pool := AvailableWidths(sum, codeBlockMinWidth, monotype);
    if monotype {
      var q := sum / codeBlockMinWidth;
      assert sum == q * codeBlockMinWidth + sum % codeBlockMinWidth;
      assert q > 1;
      assert pool[1] == codeBlockMinWidth;
    } else {
      assert pool[codeBlockMinWidth] == codeBlockMinWidth;
    }
  }

  /** `generateRandomNumber`: draws from the pool until the draw lies in
      [min, max]. The first draw is any element; when it is rejected, the
      loop ends on some admissible element, which is what the second choice
      picks. The loop ends only if such an element exists. */
  method GenerateRandomNumber(availableWidths: seq<int>, codeBlockMinWidth: int, codeBlockMaxWidth: int)
    returns (randomNumber: int)
    requires exists r | r in availableWidths :: codeBlockMinWidth <= r <= codeBlockMaxWidth
    ensures randomNumber in availableWidths
    ensures codeBlockMinWidth <= randomNumber <= codeBlockMaxWidth
  {
    var randomIndex :| 0 <= randomIndex < |availableWidths|;
    randomNumber := availableWidths[randomIndex];
    if randomNumber < codeBlockMinWidth || randomNumber > codeBlockMaxWidth {
      randomNumber :| randomNumber in availableWidths && codeBlockMinWidth <= randomNumber <= codeBlockMaxWidth;
    }
  }

  /** Every sequence of widths the split can return for a remaining width:
      nothing once the remainder is at most `min`; the remainder itself when
      it is below 2 * min; otherwise an admissible draw from the pool followed
      by a split of what is left. */
  ghost predicate IsSplit(numbers: seq<int>, remaining: int, min: int, max: int, pool: seq<int>)
    decreases |numbers|
  {
    if remaining <= min then numbers == []
    else if remaining < 2 * min then numbers == [remaining]
    else
      && numbers != []
      && numbers[0] in pool && min <= numbers[0] <= max
      && IsSplit(numbers[1..], remaining - numbers[0], min, max, pool)
  }

  /** The draws made so far: each was admissible and taken while at least
      2 * min remained. */
  ghost predicate IsDrawPrefix(numbers: seq<int>, remaining: int, min: int, max: int, pool: seq<int>)
    decreases |numbers|
  {
    numbers != [] ==>
      && remaining >= 2 * min
      && numbers[0] in pool && min <= numbers[0] <= max
      && IsDrawPrefix(numbers[1..], remaining - numbers[0], min, max, pool)
  }

  lemma {:induction false} DrawPrefixExtend(numbers: seq<int>, remaining: int, d: int, min: int, max: int, pool: seq<int>)
    requires IsDrawPrefix(numbers, remaining, min, max, pool)
    requires remaining - Sum(numbers) >= 2 * min && d in pool && min <= d <= max
    ensures IsDrawPrefix(numbers + [d], remaining, min, max, pool)
  {
    if numbers == [] {
      assert numbers + [d] == [d];
    } else {
      assert (numbers + [d])[1..] == numbers[1..] + [d];
      DrawPrefixExtend(numbers[1..], remaining - numbers[0], d, min, max, pool);
    }
  }

  lemma {:induction false} DrawPrefixThenSplit(numbers: seq<int>, rest: seq<int>, remaining: int, min: int, max: int, pool: seq<int>)
    requires min >= 1
    requires IsDrawPrefix(numbers, remaining, min, max, pool)
    requires IsSplit(rest, remaining - Sum(numbers), min, max, pool)
    ensures IsSplit(numbers + rest, remaining, min, max, pool)
  {
    if numbers == [] {
      assert numbers + rest == rest;
    } else {
      assert (numbers + rest)[1..] == numbers[1..] + rest;
      DrawPrefixThenSplit(numbers[1..], rest, remaining - numbers[0], min, max, pool);
    }
  }

  /** `randomNumbersWithSum`: the loop keeps `Sum(numbers) + remainingSum == sum`
      and returns one of the splits of `sum`. */
  method RandomNumbersWithSum(sum: nat, codeBlockMinWidth: int, codeBlockMaxWidth: int, monotype: bool)
    returns (numbers: seq<int>)
    requires 1 <= codeBlockMinWidth <= codeBlockMaxWidth
    ensures IsSplit(numbers, sum, codeBlockMinWidth, codeBlockMaxWidth, AvailableWidths(sum, codeBlockMinWidth, monotype))
  {
    var availableWidths := AvailableWidths(sum, codeBlockMinWidth, monotype);
    numbers := [];
    var remainingSum: int := sum;
    while remainingSum > codeBlockMinWidth
      invariant remainingSum == sum - Sum(numbers) <= sum
      invariant IsDrawPrefix(numbers, sum, codeBlockMinWidth, codeBlockMaxWidth, availableWidths)
      decreases remainingSum
    {
      if remainingSum < codeBlockMinWidth * 2 {
        DrawPrefixThenSplit(numbers, [remainingSum], sum, codeBlockMinWidth, codeBlockMaxWidth, availableWidths);
        numbers := numbers + [remainingSum];
        return;
      }
      MinAvailable(sum, codeBlockMinWidth, monotype);
      var randomNumber := GenerateRandomNumber(availableWidths, codeBlockMinWidth, codeBlockMaxWidth);
      DrawPrefixExtend(numbers, sum, randomNumber, codeBlockMinWidth, codeBlockMaxWidth, availableWidths);
      SumAppend(numbers, randomNumber);
      numbers := numbers + [randomNumber];
      remainingSum := remainingSum - randomNumber;
    }
    DrawPrefixThenSplit(numbers, [], sum, codeBlockMinWidth, codeBlockMaxWidth, availableWidths);
    assert numbers + [] == numbers;
  }

  // ---------------------------------------------------------------------
  // What a split promises

  /** A split is empty exactly when the width is at most `min`; what it
      leaves uncovered is at most `min`, and, once something was drawn, at
      least 2 * min - max (an overshoot of at most max - 2 * min). */
  lemma {:induction false} SplitCoverage(numbers: seq<int>, remaining: int, min: int, max: int, pool: seq<int>)
    requires min >= 1 && IsSplit(numbers, remaining, min, max, pool)
    ensures numbers == [] <==> remaining <= min
    ensures remaining - Sum(numbers) <= min
    ensures numbers != [] ==> Sum(numbers) == remaining || 2 * min - max <= remaining - Sum(numbers)
    decreases |numbers|
  {
    if remaining > min && remaining >= 2 * min {
      SplitCoverage(numbers[1..], remaining - numbers[0], min, max, pool);
    }
  }

  /** Every width of a split is an admissible draw from the pool, except
      possibly the last, which may instead be the remainder pushed before the
      loop breaks: strictly between min and 2 * min, and completing the sum. */
  lemma {:induction false} SplitWidths(numbers: seq<int>, remaining: int, min: int, max: int, pool: seq<int>)
    requires min >= 1 && IsSplit(numbers, remaining, min, max, pool)
    ensures forall k | 0 <= k < |numbers| ::
      || (numbers[k] in pool && min <= numbers[k] <= max)
      || (k == |numbers| - 1 && min < numbers[k] < 2 * min && Sum(numbers) == remaining)
    decreases |numbers|
  {
    if remaining > min && remaining >= 2 * min {
      var rest := numbers[1..];
      SplitWidths(rest, remaining - numbers[0], min, max, pool);
      forall k | 1 <= k < |numbers|
        ensures
          || (numbers[k] in pool && min <= numbers[k] <= max)
          || (k == |numbers| - 1 && min < numbers[k] < 2 * min && Sum(numbers) == remaining)
      {
        assert numbers[k] == rest[k - 1];
      }
    }
  }

  /** Every width of a split starts more than `min` before the end of the
      stretch: the loop only draws or pushes while more than `min` remains. */
  lemma {:induction false} SplitStartsInside(numbers: seq<int>, remaining: int, min: int, max: int, pool: seq<int>)
    requires min >= 1 && IsSplit(numbers, remaining, min, max, pool)
    ensures forall k | 0 <= k < |numbers| :: Sum(numbers[..k]) + min < remaining
    decreases |numbers|
  {
    if remaining > min && remaining >= 2 * min {
      var rest := numbers[1..];
      SplitStartsInside(rest, remaining - numbers[0], min, max, pool);
      forall k | 1 <= k < |numbers| ensures Sum(numbers[..k]) + min < remaining {
        assert numbers[..k][1..] == rest[..k - 1];
      }
    } else if remaining > min {
      assert numbers[..0] == [];
    }
  }

  /** A stretch no wider than `min` (for instance a single cell in monotype
      mode, where the cell width is `min`) yields no block at all. */
  lemma NarrowStretchVanishes(numbers: seq<int>, width: int, min: int, max: int, pool: seq<int>)
    requires min >= 1 && width <= min
    requires IsSplit(numbers, width, min, max, pool)
    ensures numbers == []
  {
  }

  /** In monotype mode a stretch a whole number of `min` cells wide is cut
      only by draws: every width is a multiple of `min` taken from the pool
      within [min, max], and the remainder branch never fires, because what
      is left is always a whole number of cells too. */
  lemma {:induction false} MonotypeMultiples(numbers: seq<int>, remaining: int, min: int, max: int, sum: nat)
    requires min >= 1 && MultipleOf(remaining, min)
    requires IsSplit(numbers, remaining, min, max, AvailableWidths(sum, min, true))
    ensures forall k | 0 <= k < |numbers| ::
      && MultipleOf(numbers[k], min)
      && numbers[k] in AvailableWidths(sum, min, true) && min <= numbers[k] <= max
    decreases |numbers|
  {
    var pool := AvailableWidths(sum, min, true);
    var j :| remaining == j * min;
    if remaining <= min {
    } else if remaining < 2 * min {
      assert false;
    } else {
      AvailableWidthsMembers(sum, min, true, numbers[0]);
      var m :| 0 <= m < sum / min && numbers[0] == m * min;
      assert remaining - numbers[0] == (j - m) * min;
      MonotypeMultiples(numbers[1..], remaining - numbers[0], min, max, sum);
      forall k | 0 <= k < |numbers|
        ensures MultipleOf(numbers[k], min) && numbers[k] in pool && min <= numbers[k] <= max
      {
        if k > 0 {
          assert numbers[k] == numbers[1..][k - 1];
        }
      }
    }
  }

  /** In monotype mode a 30-wide stretch with widths 10..30 may come out as a
      single 20-wide block, leaving the last 10 uncovered. */
  lemma DroppedLeftoverExample()
    ensures IsSplit([20], 30, 10, 30, AvailableWidths(30, 10, true))
  {
    var pool := AvailableWidths(30, 10, true);
    assert pool[2] == 20;
  }

  /** Without monotype a 50-wide stretch with widths 10..30 may come out as
      two 30-wide blocks: the pool is built from the whole width, not from
      what remains, so the blocks overshoot the stretch by 10. */
  lemma OvershootExample()
    ensures IsSplit([30, 30], 50, 10, 30, AvailableWidths(50, 10, false))
  {
    var pool := AvailableWidths(50, 10, false);
    assert pool[30] == 30;
    assert [30, 30][1..] == [30];
  }

  /** The overshoot can reach into the next stretch. A 60-wide stretch at
      x = 0 with widths 10..40 may be cut into [40, 40]; its blocks then end
      at 80, while a stretch that begins after one empty 10-wide cell starts
      at 70, so the two overlap. */
  lemma OverlapExample()
    ensures IsSplit([40, 40], 60, 10, 40, AvailableWidths(60, 10, false))
    ensures var blocks := Lay(0, 0, [40, 40]);
      blocks[0].startX == 0 && blocks[1].startX + blocks[1].blockWidth == 80 > 60 + 10
  {
    var pool := AvailableWidths(60, 10, false);
    assert pool[40] == 40;
    assert [40, 40][1..] == [40];
  }

  // ---------------------------------------------------------------------
  // Laying the blocks of one stretch end to end

  /** The blocks of one stretch: the first starts at `startX`, each next one
      where the previous ends; all on row `startY`, filled and merged. */
  function Lay(startX: int, startY: int, widths: seq<int>): (blocks: seq<Column>)
    ensures |blocks| == |widths|
    ensures forall k | 0 <= k < |blocks| :: blocks[k].fill && blocks[k].merged && blocks[k].startY == startY
    decreases |widths|
  {
    if widths == [] then []
    else [Column(startX, startY, true, widths[0], true)] + Lay(startX + widths[0], startY, widths[1..])
  }

  lemma {:induction false} LayAppend(startX: int, startY: int, widths: seq<int>, w: int)
    ensures Lay(startX, startY, widths + [w]) == Lay(startX, startY, widths) + [Column(startX + Sum(widths), startY, true, w, true)]
    decreases |widths|
  {
    if widths == [] {
      assert widths + [w] == [w];
    } else {
      assert (widths + [w])[1..] == widths[1..] + [w];
      LayAppend(startX + widths[0], startY, widths[1..], w);
    }
  }

  /** Block k starts at `startX` plus the widths before it. */
  lemma {:induction false} LayPositions(startX: int, startY: int, widths: seq<int>)
    ensures var blocks := Lay(startX, startY, widths);
      forall k | 0 <= k < |blocks| :: blocks[k] == Column(startX + Sum(widths[..k]), startY, true, widths[k], true)
    decreases |widths|
  {
    var blocks := Lay(startX, startY, widths);
    if widths != [] {
      var rest := widths[1..];
      LayPositions(startX + widths[0], startY, rest);
      forall k | 0 <= k < |blocks|
        ensures blocks[k] == Column(startX + Sum(widths[..k]), startY, true, widths[k], true)
      {
        if k > 0 {
          assert widths[..k][1..] == rest[..k - 1];
        }
      }
    }
  }

  /** Block k starts at `startX` plus the widths before it, so each block
      starts where the previous one ends. */
  lemma LayContiguous(startX: int, startY: int, widths: seq<int>)
    ensures var blocks := Lay(startX, startY, widths);
      forall k | 0 <= k < |blocks| ::
        && blocks[k] == Column(startX + Sum(widths[..k]), startY, true, widths[k], true)
        && (k + 1 < |blocks| ==> blocks[k + 1].startX == blocks[k].startX + blocks[k].blockWidth)
  {
    var blocks := Lay(startX, startY, widths);
    LayPositions(startX, startY, widths);
    forall k | 0 <= k < |blocks| - 1
      ensures blocks[k + 1].startX == blocks[k].startX + blocks[k].blockWidth
    {
      assert widths[..k + 1] == widths[..k] + [widths[k]];
      SumAppend(widths[..k], widths[k]);
    }
  }

  /** The blocks of a row: the blocks of each of its stretches in turn, the
      stretch at index x split into `splits[x]`. */
  function LayRow(heads: seq<Column>, splits: seq<seq<int>>): (blocks: seq<Column>)
    requires |splits| == |heads|
  {
    if heads == [] then []
    else
      var n := |heads| - 1;
      LayRow(heads[..n], splits[..n]) + Lay(heads[n].startX, heads[n].startY, splits[n])
  }

  /** `blocks` is the row `splitIntoRandomLengthBlocks` may build from
      `heads`: each stretch split by some outcome of the random split, and
      the pieces laid end to end from the stretch's start. */
  ghost predicate IsRandomLengthRow(blocks: seq<Column>, heads: seq<Column>, splits: seq<seq<int>>,
                                    codeBlockMinWidth: int, codeBlockMaxWidth: int, monotype: bool)
    requires codeBlockMinWidth >= 1
  {
    && SplitsFit(heads, splits, codeBlockMinWidth, codeBlockMaxWidth, monotype)
    && blocks == LayRow(heads, splits)
  }

  /** `splits[x]` is a split of the width of stretch `x`, for every stretch. */
  ghost predicate SplitsFit(heads: seq<Column>, splits: seq<seq<int>>,
                            codeBlockMinWidth: int, codeBlockMaxWidth: int, monotype: bool)
    requires codeBlockMinWidth >= 1
  {
    && |splits| == |heads|
    && forall x | 0 <= x < |heads| ::
      && heads[x].blockWidth >= 0
      && IsSplit(splits[x], heads[x].blockWidth, codeBlockMinWidth, codeBlockMaxWidth,
                 AvailableWidths(heads[x].blockWidth, codeBlockMinWidth, monotype))
  }

  lemma SplitsFitSnoc(heads: seq<Column>, splits: seq<seq<int>>, x: nat, widths: seq<int>,
                      codeBlockMinWidth: int, codeBlockMaxWidth: int, monotype: bool)
    requires codeBlockMinWidth >= 1 && x < |heads| && heads[x].blockWidth >= 0
    requires SplitsFit(heads[..x], splits, codeBlockMinWidth, codeBlockMaxWidth, monotype)
    requires IsSplit(widths, heads[x].blockWidth, codeBlockMinWidth, codeBlockMaxWidth,
                     AvailableWidths(heads[x].blockWidth, codeBlockMinWidth, monotype))
    ensures SplitsFit(heads[..x + 1], splits + [widths], codeBlockMinWidth, codeBlockMaxWidth, monotype)
  {
    var all := splits + [widths];
    forall k | 0 <= k < x ensures all[k] == splits[k] && heads[..x + 1][k] == heads[..x][k] { }
  }

  /** Laying out one more stretch appends its blocks to the row. */
  lemma LayRowSnoc(heads: seq<Column>, splits: seq<seq<int>>, x: nat, widths: seq<int>)
    requires x < |heads| && |splits| == x
    ensures LayRow(heads[..x + 1], splits + [widths]) ==
      LayRow(heads[..x], splits) + Lay(heads[x].startX, heads[x].startY, widths)
  {
    assert heads[..x + 1][..x] == heads[..x];
    assert (splits + [widths])[..x] == splits;
  }

  /** Every block of a row is filled and merged. */
  lemma {:induction false} LayRowBlocks(heads: seq<Column>, splits: seq<seq<int>>)
    requires |splits| == |heads|
    ensures forall k | 0 <= k < |LayRow(heads, splits)| ::
      LayRow(heads, splits)[k].fill && LayRow(heads, splits)[k].merged
  {
    if heads != [] {
      var n := |heads| - 1;
      LayRowBlocks(heads[..n], splits[..n]);
      var front := LayRow(heads[..n], splits[..n]);
      var last := Lay(heads[n].startX, heads[n].startY, splits[n]);
      forall k | |front| <= k < |front| + |last|
        ensures (front + last)[k] == last[k - |front|]
      {
      }
    }
  }

  /** Every block of a row has one of the split widths. */
  lemma {:induction false} LayRowWidths(heads: seq<Column>, splits: seq<seq<int>>)
    requires |splits| == |heads|
    ensures forall b | b in LayRow(heads, splits) ::
      exists x, k | 0 <= x < |splits| && 0 <= k < |splits[x]| :: b.blockWidth == splits[x][k]
  {
    if heads != [] {
      var n := |heads| - 1;
      LayRowWidths(heads[..n], splits[..n]);
      var front := LayRow(heads[..n], splits[..n]);
      var last := Lay(heads[n].startX, heads[n].startY, splits[n]);
      LayPositions(heads[n].startX, heads[n].startY, splits[n]);
      forall b: Column | b in front + last
        ensures exists x, k | 0 <= x < |splits| && 0 <= k < |splits[x]| :: b.blockWidth == splits[x][k]
      {
        if b in front {
          var x, k :| 0 <= x < n && 0 <= k < |splits[..n][x]| && b.blockWidth == splits[..n][x][k];
          assert splits[..n][x] == splits[x];
        } else {
          var k :| 0 <= k < |last| && last[k] == b;
          assert b.blockWidth == splits[n][k];
        }
      }
    }
  }
}
