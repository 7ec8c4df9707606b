/**
 * The flow layout of `reposition_thumbnails`: thumbnails of a fixed width are
 * laid out left to right in `cols` columns, a new row starting after `cols`
 * items, each row below the tallest thumbnail of the row above plus a margin.
 */
module Layout {
  import opened Geometry

  /** `max(1, canvas_width // (thumbnail_width + margin))` (floor division; the divisor is positive). */
  function Columns(canvasWidth: int, thumbWidth: int, margin: int): (cols: int)
    requires thumbWidth + margin > 0
    ensures cols >= 1
    ensures cols == 1 || cols * (thumbWidth + margin) <= canvasWidth
    ensures canvasWidth < (cols + 1) * (thumbWidth + margin)
  {
    var q := canvasWidth / (thumbWidth + margin);
    if q < 1 then 1 else q
  }

  /** `x = current_col * (thumbnail_width + margin) + margin` for item `k`. */
  function ColumnX(k: nat, cols: int, thumbWidth: int, margin: int): int
    requires cols >= 1
  {
    (k % cols) * (thumbWidth + margin) + margin
  }

  /** The height of item `k`; positions past the last item count as height 0. */
  function HeightAt(hs: seq<nat>, k: int): nat
  {
    if 0 <= k < |hs| then hs[k] else 0
  }

  /** The tallest of the items `lo .. hi - 1`, 0 for an empty range (`max_height_in_row`). */
  function RowMax(hs: seq<nat>, lo: int, hi: int): (r: nat)
    ensures forall k :: lo <= k < hi ==> HeightAt(hs, k) <= r
    ensures hi <= lo ==> r == 0
    ensures lo < hi ==> exists k :: lo <= k < hi && HeightAt(hs, k) == r
    decreases hi - lo
  {
    if hi <= lo then 0
    else
      var before := RowMax(hs, lo, hi - 1);
      if before < HeightAt(hs, hi - 1) then HeightAt(hs, hi - 1) else before
  }

  /** `current_row_y` of row `r`: the margin, then each earlier row's tallest height plus the margin. */
  function RowY(hs: seq<nat>, cols: int, margin: int, r: nat): int
  {
    if r == 0 then margin
    else RowY(hs, cols, margin, r - 1) + RowMax(hs, (r - 1) * cols, r * cols) + margin
  }

  // Arithmetic facts about rows and columns, each kept to a few terms.

  lemma ZeroMultiple(d: int, c: int)
    requires c >= 1 && -c < d * c < c
    ensures d == 0
  {
  }

  lemma DivModOfRowCol(k: int, cols: int, row: int, col: int)
    requires cols >= 1 && 0 <= col < cols && k == row * cols + col
    ensures k / cols == row && k % cols == col
  {
    var q, m := k / cols, k % cols;
    assert k == q * cols + m;
    assert (row - q) * cols == m - col;
    ZeroMultiple(row - q, cols);
  }

  lemma RowOfItem(k: nat, cols: int)
    requires cols >= 1
    ensures k == (k / cols) * cols + k % cols && 0 <= k % cols < cols
    ensures (k / cols) * cols <= k < (k / cols + 1) * cols
  {
  }

  lemma MulCancelLess(a: int, b: int, c: int)
    requires c >= 1 && a * c < b * c
    ensures a < b
  {
  }

  lemma MulSucc(r: int, c: int)
    ensures (r + 1) * c == r * c + c
  {
  }

  lemma MulAtLeast(d: int, s: int)
    requires d >= 1 && s >= 0
    ensures d * s >= s
  {
  }

  lemma MulSpread(c1: int, c2: int, s: int)
    requires c1 < c2 && s >= 0
    ensures c1 * s + s <= c2 * s
  {
    var d := c2 - c1;
    MulAtLeast(d, s);
    assert c2 * s == c1 * s + d * s;
  }

  /** `y` of item `k`: the `current_row_y` of its row `k // cols`. */
  function ThumbY(hs: seq<nat>, cols: int, margin: int, k: nat): int
    requires cols >= 1
  {
    RowY(hs, cols, margin, k / cols)
  }

  /**
   * The row rules: the first row is at `y = margin`, items of one row share
   * their `y`, and the next row starts the tallest item of the row plus the
   * margin lower.
   */
  lemma RowPositions(hs: seq<nat>, cols: int, margin: int, k1: nat, k2: nat)
    requires cols >= 1
    ensures k1 < cols ==> ThumbY(hs, cols, margin, k1) == margin
    ensures k1 / cols == k2 / cols ==> ThumbY(hs, cols, margin, k1) == ThumbY(hs, cols, margin, k2)
    ensures k2 / cols == k1 / cols + 1 ==>
              ThumbY(hs, cols, margin, k2) ==
                ThumbY(hs, cols, margin, k1) + RowMax(hs, (k1 / cols) * cols, (k1 / cols + 1) * cols) + margin
  {
    if k1 < cols {
      DivModOfRowCol(k1, cols, 0, k1);
    }
  }

  /**
   * The loop state of `reposition_thumbnails` before item `k`: it sits in
   * column `col` of row `row`, `rowY` is that row's `current_row_y` and
   * `rowMax` the tallest item placed in the row so far.
   */
  ghost predicate Cursor(hs: seq<nat>, cols: int, margin: int, k: int, row: nat, col: int, rowY: int, rowMax: int)
  {
    cols >= 1 && 0 <= col <= cols && k == row * cols + col &&
    rowY == RowY(hs, cols, margin, row) && rowMax == RowMax(hs, row * cols, k)
  }

  lemma CursorStart(hs: seq<nat>, cols: int, margin: int)
    requires cols >= 1
    ensures Cursor(hs, cols, margin, 0, 0, 0, margin, 0)
  {
  }

  /** After a full row the cursor moves to the first column of the next row, one row height lower. */
  lemma CursorNextRow(hs: seq<nat>, cols: int, margin: int, k: int, row: nat, rowY: int, rowMax: int)
    requires Cursor(hs, cols, margin, k, row, cols, rowY, rowMax)
    ensures Cursor(hs, cols, margin, k, row + 1, 0, rowY + rowMax + margin, 0)
  {
    MulSucc(row, cols);
  }

  /** Item `k` goes to the cursor's column and row, and can raise the row's height. */
  lemma CursorPlace(hs: seq<nat>, cols: int, thumbWidth: int, margin: int, k: nat, row: nat, col: int,
                    rowY: int, rowMax: int, h: nat)
    requires Cursor(hs, cols, margin, k, row, col, rowY, rowMax) && col < cols && h == HeightAt(hs, k)
    ensures ColumnX(k, cols, thumbWidth, margin) == col * (thumbWidth + margin) + margin
    ensures ThumbY(hs, cols, margin, k) == rowY
    ensures Cursor(hs, cols, margin, k + 1, row, col + 1, rowY, if rowMax < h then h else rowMax)
  {
    DivModOfRowCol(k, cols, row, col);
  }

  /** The rectangle `(x, y, x + thumbnail_width, y + height)` of item `k`. */
  function ThumbRect(hs: seq<nat>, cols: int, thumbWidth: int, margin: int, k: nat): Rect
    requires cols >= 1 && k < |hs|
  {
    Rect(ColumnX(k, cols, thumbWidth, margin), ThumbY(hs, cols, margin, k), thumbWidth, hs[k])
  }

  /** A later row starts below every thumbnail of an earlier row, with at least the margin between. */
  lemma {:induction false} RowYBelow(hs: seq<nat>, cols: int, margin: int, r1: nat, r2: nat)
    requires margin >= 0 && r1 < r2
    ensures RowY(hs, cols, margin, r2) >= RowY(hs, cols, margin, r1) + RowMax(hs, r1 * cols, (r1 + 1) * cols) + margin
  {
    if r2 > r1 + 1 {
      RowYBelow(hs, cols, margin, r1, r2 - 1);
    }
  }

  /** Two thumbnails in the same row sit in different columns, at least a thumbnail width plus the margin apart, and neighbours exactly that far. */
  lemma SameRowApart(k1: nat, k2: nat, cols: int, thumbWidth: int, margin: int)
    requires cols >= 1 && thumbWidth >= 0 && margin >= 0
    requires k1 < k2 && k1 / cols == k2 / cols
    ensures ColumnX(k1, cols, thumbWidth, margin) + thumbWidth + margin <= ColumnX(k2, cols, thumbWidth, margin)
    ensures k2 == k1 + 1 ==> ColumnX(k2, cols, thumbWidth, margin) == ColumnX(k1, cols, thumbWidth, margin) + thumbWidth + margin
  {
    RowOfItem(k1, cols);
    RowOfItem(k2, cols);
    MulSpread(k1 % cols, k2 % cols, thumbWidth + margin);
  }

  lemma ItemsInOrderApart(hs: seq<nat>, cols: int, thumbWidth: int, margin: int, k1: nat, k2: nat)
    requires cols >= 1 && thumbWidth >= 0 && margin > 0 && k1 < k2 < |hs|
    ensures !Overlaps(ThumbRect(hs, cols, thumbWidth, margin, k1), ThumbRect(hs, cols, thumbWidth, margin, k2))
  {
    var r1, r2 := k1 / cols, k2 / cols;
    RowOfItem(k1, cols);
    RowOfItem(k2, cols);
    MulCancelLess(r1, r2 + 1, cols);
    if r1 == r2 {
      SameRowApart(k1, k2, cols, thumbWidth, margin);
    } else {
      RowYBelow(hs, cols, margin, r1, r2);
      assert HeightAt(hs, k1) <= RowMax(hs, r1 * cols, (r1 + 1) * cols);
    }
  }

  /** With a positive margin no two thumbnail rectangles of the layout overlap. */
  lemma LayoutDisjoint(hs: seq<nat>, cols: int, thumbWidth: int, margin: int)
    requires cols >= 1 && thumbWidth >= 0 && margin > 0
    ensures forall k1, k2 :: 0 <= k1 < |hs| && 0 <= k2 < |hs| && k1 != k2 ==>
              !Overlaps(ThumbRect(hs, cols, thumbWidth, margin, k1), ThumbRect(hs, cols, thumbWidth, margin, k2))
  {
    forall k1, k2 | 0 <= k1 < |hs| && 0 <= k2 < |hs| && k1 != k2
      ensures !Overlaps(ThumbRect(hs, cols, thumbWidth, margin, k1), ThumbRect(hs, cols, thumbWidth, margin, k2))
    {
      if k1 < k2 {
        ItemsInOrderApart(hs, cols, thumbWidth, margin, k1, k2);
      } else {
        ItemsInOrderApart(hs, cols, thumbWidth, margin, k2, k1);
        OverlapsSymmetric(ThumbRect(hs, cols, thumbWidth, margin, k1), ThumbRect(hs, cols, thumbWidth, margin, k2));
      }
    }
  }

  /** When at least one column fits, every thumbnail lies within the canvas width. */
  lemma LayoutFitsWidth(canvasWidth: int, thumbWidth: int, margin: int, k: nat)
    requires thumbWidth >= 0 && margin >= 0 && thumbWidth + margin > 0
    requires canvasWidth >= thumbWidth + margin
    ensures var cols := Columns(canvasWidth, thumbWidth, margin);
            0 <= ColumnX(k, cols, thumbWidth, margin) &&
            ColumnX(k, cols, thumbWidth, margin) + thumbWidth <= canvasWidth
  {
    var cols := Columns(canvasWidth, thumbWidth, margin);
    var s := thumbWidth + margin;
    var c := k % cols;
    assert cols * s <= canvasWidth;
    assert c * s >= 0;
    MulSpread(c, cols, s);
  }
}
