/**
 * The pure side of gil/mat.hpp: a rows x cols grid stored in a linear buffer
 * with `stride` elements per row, element (i, j) lying `stride * i + j`
 * elements past the first one, and the row-major bookkeeping used to prove
 * the nested loops that scan such grids.
 */
module Grids {

  /** The abstract value of a matrix: a sequence of rows. */
  type Grid<T> = seq<seq<T>>

  ghost predicate IsGrid<T>(g: Grid<T>, rows: nat, cols: nat)
  {
    |g| == rows && forall i :: 0 <= i < rows ==> |g[i]| == cols
  }

  /** The grid of the given extent holding `value` everywhere. */
  ghost function Constant<T>(rows: nat, cols: nat, value: T): (g: Grid<T>)
    ensures IsGrid(g, rows, cols)
  {
    seq(rows, _ => seq(cols, _ => value))
  }

  /** Two grids of one extent that agree at every cell are equal. */
  lemma GridExt<T>(x: Grid<T>, y: Grid<T>, rows: nat, cols: nat)
    requires IsGrid(x, rows, cols) && IsGrid(y, rows, cols)
    requires forall a, c :: 0 <= a < rows && 0 <= c < cols ==> x[a][c] == y[a][c]
    ensures x == y
  {
    forall a | 0 <= a < rows ensures x[a] == y[a] {
      assert forall c :: 0 <= c < cols ==> x[a][c] == y[a][c];
    }
  }

  /** Every cell x of a rows x cols grid replaced by fcn(x). */
  ghost function MapGrid<T>(g: Grid<T>, rows: nat, cols: nat, fcn: T -> T): (r: Grid<T>)
    requires IsGrid(g, rows, cols)
    ensures IsGrid(r, rows, cols)
    ensures forall a, c :: 0 <= a < rows && 0 <= c < cols ==> r[a][c] == fcn(g[a][c])
  {
    seq(rows, a requires 0 <= a < rows => seq(cols, c requires 0 <= c < cols => fcn(g[a][c])))
  }

  /** Every cell x of g combined with the cell y of h at the same position into fcn(x, y). */
  ghost function ZipGrid<T>(g: Grid<T>, h: Grid<T>, rows: nat, cols: nat, fcn: (T, T) -> T): (r: Grid<T>)
    requires IsGrid(g, rows, cols) && IsGrid(h, rows, cols)
    ensures IsGrid(r, rows, cols)
    ensures forall a, c :: 0 <= a < rows && 0 <= c < cols ==> r[a][c] == fcn(g[a][c], h[a][c])
  {
    seq(rows, a requires 0 <= a < rows => seq(cols, c requires 0 <= c < cols => fcn(g[a][c], h[a][c])))
  }

  /** row_begin(i) + j - data(): the linear offset of element (i, j). */
  function Offset(stride: nat, i: nat, j: nat): nat
  {
    stride * i + j
  }

  /** A view of extent rows x cols starting at `start` lies inside a buffer of length len. */
  predicate Fits(len: nat, start: nat, stride: nat, rows: nat, cols: nat)
  {
    cols <= stride && (rows == 0 || start + Offset(stride, rows - 1, cols) <= len)
  }

  lemma {:induction false} MulMonotone(s: nat, a: nat, b: nat)
    requires a <= b
    ensures s * a <= s * b
  {
    if a < b {
      MulMonotone(s, a, b - 1);
      assert s * b == s * (b - 1) + s;
    }
  }

  /** Every element of a view that fits lies inside the buffer. */
  lemma OffsetInBounds(len: nat, start: nat, stride: nat, rows: nat, cols: nat, i: nat, j: nat)
    requires Fits(len, start, stride, rows, cols)
    requires i < rows && j < cols
    ensures start + Offset(stride, i, j) < len
  {
    MulMonotone(stride, i, rows - 1);
  }

  /** Distinct positions (row, column below the stride) have distinct offsets. */
  lemma OffsetInjective(stride: nat, i: nat, j: nat, a: nat, c: nat)
    requires j < stride && c < stride
    ensures Offset(stride, i, j) == Offset(stride, a, c) <==> i == a && j == c
  {
    if i < a {
      MulMonotone(stride, i + 1, a);
      assert stride * (i + 1) == stride * i + stride;
    } else if a < i {
      MulMonotone(stride, a + 1, i);
      assert stride * (a + 1) == stride * a + stride;
    }
  }

  ghost function Cell<T>(buf: seq<T>, start: nat, stride: nat, rows: nat, cols: nat, i: nat, j: nat): T
    requires Fits(|buf|, start, stride, rows, cols)
    requires i < rows && j < cols
  {
    OffsetInBounds(|buf|, start, stride, rows, cols, i, j);
    buf[start + Offset(stride, i, j)]
  }

  /** The rows x cols grid a strided view reads out of a buffer. */
  ghost function ViewOf<T>(buf: seq<T>, start: nat, stride: nat, rows: nat, cols: nat): (g: Grid<T>)
    requires Fits(|buf|, start, stride, rows, cols)
    ensures IsGrid(g, rows, cols)
  {
    seq(rows, i requires 0 <= i < rows =>
      seq(cols, j requires 0 <= j < cols => Cell(buf, start, stride, rows, cols, i, j)))
  }

  /** Writing one element through a view changes exactly that cell of the grid. */
  lemma ViewOfUpdate<T>(buf: seq<T>, start: nat, stride: nat, rows: nat, cols: nat, i: nat, j: nat, x: T)
    requires Fits(|buf|, start, stride, rows, cols)
    requires i < rows && j < cols
    ensures start + Offset(stride, i, j) < |buf|
    ensures ViewOf(buf[start + Offset(stride, i, j) := x], start, stride, rows, cols)
         == ViewOf(buf, start, stride, rows, cols)[i := ViewOf(buf, start, stride, rows, cols)[i][j := x]]
  {
    OffsetInBounds(|buf|, start, stride, rows, cols, i, j);
    var k := start + Offset(stride, i, j);
    var before := ViewOf(buf, start, stride, rows, cols);
    var after := ViewOf(buf[k := x], start, stride, rows, cols);
    var want := before[i := before[i][j := x]];
    forall a, c | 0 <= a < rows && 0 <= c < cols ensures after[a][c] == want[a][c] {
      OffsetInjective(stride, i, j, a, c);
      OffsetInBounds(|buf|, start, stride, rows, cols, a, c);
    }
    GridExt(after, want, rows, cols);
  }

  /** Buffers that agree on every element of a view give the view the same value. */
  lemma ViewOfFrame<T>(buf: seq<T>, buf': seq<T>, start: nat, stride: nat, rows: nat, cols: nat)
    requires |buf| == |buf'| && Fits(|buf|, start, stride, rows, cols)
    requires forall i: nat, j: nat :: i < rows && j < cols ==>
      Cell(buf, start, stride, rows, cols, i, j) == Cell(buf', start, stride, rows, cols, i, j)
    ensures ViewOf(buf, start, stride, rows, cols) == ViewOf(buf', start, stride, rows, cols)
  {
    GridExt(ViewOf(buf, start, stride, rows, cols), ViewOf(buf', start, stride, rows, cols), rows, cols);
  }

  /**
   * A sub-view {r0, c0, h, w} of a view keeps the parent's stride and starts at
   * element (r0, c0); its element (i, j) is the parent's element (r0 + i, c0 + j).
   */
  lemma SubViewOf<T>(buf: seq<T>, start: nat, stride: nat, rows: nat, cols: nat,
                     r0: nat, c0: nat, h: nat, w: nat, i: nat, j: nat)
    requires Fits(|buf|, start, stride, rows, cols)
    requires r0 + h <= rows && c0 + w <= cols
    requires i < h && j < w
    ensures Fits(|buf|, start + Offset(stride, r0, c0), stride, h, w)
    ensures ViewOf(buf, start + Offset(stride, r0, c0), stride, h, w)[i][j]
         == ViewOf(buf, start, stride, rows, cols)[r0 + i][c0 + j]
  {
    SubViewFits(|buf|, start, stride, rows, cols, r0, c0, h, w);
    assert stride * (r0 + i) == stride * r0 + stride * i;
  }

  lemma SubViewFits(len: nat, start: nat, stride: nat, rows: nat, cols: nat, r0: nat, c0: nat, h: nat, w: nat)
    requires Fits(len, start, stride, rows, cols)
    requires r0 + h <= rows && c0 + w <= cols
    ensures Fits(len, start + Offset(stride, r0, c0), stride, h, w)
  {
    if h > 0 {
      MulMonotone(stride, r0 + h - 1, rows - 1);
      assert stride * (r0 + h - 1) == stride * r0 + stride * (h - 1);
    }
  }

  /** A mat's compact storage, stride == cols, fits a buffer of rows * cols elements. */
  lemma CompactFits(rows: nat, cols: nat)
    ensures Fits(rows * cols, 0, cols, rows, cols)
  {
    if rows > 0 {
      assert cols * (rows - 1) + cols == rows * cols;
    }
  }

  /** A compact buffer holding value everywhere shows the constant grid. */
  lemma ConstantBufferView<T>(buf: seq<T>, rows: nat, cols: nat, value: T)
    requires |buf| == rows * cols
    requires forall k :: 0 <= k < |buf| ==> buf[k] == value
    ensures CompactFitsHolds(rows, cols)
    ensures ViewOf(buf, 0, cols, rows, cols) == Constant(rows, cols, value)
  {
    CompactFits(rows, cols);
    var v := ViewOf(buf, 0, cols, rows, cols);
    forall a, c | 0 <= a < rows && 0 <= c < cols
      ensures v[a][c] == Constant(rows, cols, value)[a][c]
    {
      OffsetInBounds(|buf|, 0, cols, rows, cols, a, c);
    }
    GridExt(v, Constant(rows, cols, value), rows, cols);
  }

  /**
   * x and y agree on every element of the buffer that does not belong to the
   * view: everything before its start, and every position (a, b) with b below
   * the stride that is not one of its rows x cols cells (row padding and
   * whatever follows the view).
   */
  ghost predicate SameOutside<T>(x: seq<T>, y: seq<T>, start: nat, stride: nat, rows: nat, cols: nat)
  {
    && |x| == |y|
    && (forall k :: 0 <= k < start && k < |x| ==> x[k] == y[k])
    && (forall a: nat, b: nat :: b < stride && !(a < rows && b < cols) && start + Offset(stride, a, b) < |x| ==>
          x[start + Offset(stride, a, b)] == y[start + Offset(stride, a, b)])
  }

  lemma SameOutsideRefl<T>(x: seq<T>, start: nat, stride: nat, rows: nat, cols: nat)
    ensures SameOutside(x, x, start, stride, rows, cols)
  {
  }

  lemma SameOutsideTrans<T>(x: seq<T>, y: seq<T>, z: seq<T>, start: nat, stride: nat, rows: nat, cols: nat)
    requires SameOutside(x, y, start, stride, rows, cols) && SameOutside(y, z, start, stride, rows, cols)
    ensures SameOutside(x, z, start, stride, rows, cols)
  {
  }

  /** Updating one cell of a view leaves everything outside the view alone. */
  lemma UpdateCellSameOutside<T>(x: seq<T>, start: nat, stride: nat, rows: nat, cols: nat, i: nat, j: nat, v: T)
    requires Fits(|x|, start, stride, rows, cols) && i < rows && j < cols
    ensures start + Offset(stride, i, j) < |x|
    ensures SameOutside(x, x[start + Offset(stride, i, j) := v], start, stride, rows, cols)
  {
    OffsetInBounds(|x|, start, stride, rows, cols, i, j);
    forall a: nat, b: nat | b < stride && !(a < rows && b < cols) && start + Offset(stride, a, b) < |x|
      ensures Offset(stride, a, b) != Offset(stride, i, j)
    {
      OffsetInjective(stride, i, j, a, b);
    }
  }

  /** The rows of a grid laid end to end, as std::copy writes them into compact storage. */
  ghost function Flatten<T>(g: Grid<T>): seq<T>
  {
    if |g| == 0 then [] else Flatten(g[..|g| - 1]) + g[|g| - 1]
  }

  lemma {:induction false} FlattenCell<T>(g: Grid<T>, rows: nat, cols: nat, a: nat, c: nat)
    requires IsGrid(g, rows, cols) && a < rows && c < cols
    ensures |Flatten(g)| == rows * cols
    ensures Offset(cols, a, c) < |Flatten(g)| && Flatten(g)[Offset(cols, a, c)] == g[a][c]
    decreases rows
  {
    var init := g[..rows - 1];
    assert IsGrid(init, rows - 1, cols);
    FlattenLength(init, rows - 1, cols);
    assert cols * (rows - 1) + cols == rows * cols;
    if a < rows - 1 {
      FlattenCell(init, rows - 1, cols, a, c);
    }
  }

  lemma {:induction false} FlattenLength<T>(g: Grid<T>, rows: nat, cols: nat)
    requires IsGrid(g, rows, cols)
    ensures |Flatten(g)| == rows * cols
    decreases rows
  {
    if rows > 0 {
      var init := g[..rows - 1];
      assert IsGrid(init, rows - 1, cols);
      FlattenLength(init, rows - 1, cols);
      assert cols * (rows - 1) + cols == rows * cols;
    }
  }

  /** Compact storage filled with the flattened rows reads back as the same grid. */
  lemma FlattenViewOf<T>(g: Grid<T>, rows: nat, cols: nat)
    requires IsGrid(g, rows, cols)
    ensures |Flatten(g)| == rows * cols
    ensures CompactFitsHolds(rows, cols) && ViewOf(Flatten(g), 0, cols, rows, cols) == g
  {
    FlattenLength(g, rows, cols);
    CompactFits(rows, cols);
    forall a, c | 0 <= a < rows && 0 <= c < cols
      ensures ViewOf(Flatten(g), 0, cols, rows, cols)[a][c] == g[a][c]
    {
      FlattenCell(g, rows, cols, a, c);
    }
    GridExt(ViewOf(Flatten(g), 0, cols, rows, cols), g, rows, cols);
  }

  predicate CompactFitsHolds(rows: nat, cols: nat)
  {
    Fits(rows * cols, 0, cols, rows, cols)
  }

  // ----- row-major scans -----

  /** Cell (a, c) comes before cell (i, j) in a row-major scan. */
  predicate Before(a: int, c: int, i: int, j: int)
  {
    a < i || (a == i && c < j)
  }

  /**
   * A row-major scan that is about to visit (i, j): every cell already passed
   * holds its final value, every other cell its initial value.
   */
  ghost predicate Progress<T>(d: Grid<T>, target: Grid<T>, init: Grid<T>, rows: nat, cols: nat, i: int, j: int)
  {
    && IsGrid(d, rows, cols) && IsGrid(target, rows, cols) && IsGrid(init, rows, cols)
    && forall a, c :: 0 <= a < rows && 0 <= c < cols ==>
         d[a][c] == if Before(a, c, i, j) then target[a][c] else init[a][c]
  }

  /** A scan may start at (i, j) when every cell before it needs no change. */
  lemma ProgressStart<T>(target: Grid<T>, init: Grid<T>, rows: nat, cols: nat, i: int, j: int)
    requires IsGrid(target, rows, cols) && IsGrid(init, rows, cols)
    requires forall a, c :: 0 <= a < rows && 0 <= c < cols && Before(a, c, i, j) ==> target[a][c] == init[a][c]
    ensures Progress(init, target, init, rows, cols, i, j)
  {
  }

  /** A scan may skip from (i, j) forward to (i2, j2) over cells that need no change. */
  lemma ProgressSkip<T>(d: Grid<T>, target: Grid<T>, init: Grid<T>, rows: nat, cols: nat,
                        i: int, j: int, i2: int, j2: int)
    requires Progress(d, target, init, rows, cols, i, j)
    requires i < i2 || (i == i2 && j <= j2)
    requires forall a, c ::
      0 <= a < rows && 0 <= c < cols && Before(a, c, i2, j2) && !Before(a, c, i, j) ==> target[a][c] == init[a][c]
    ensures Progress(d, target, init, rows, cols, i2, j2)
  {
  }

  /** Writing the final value of (i, j) moves the scan one cell on. */
  lemma ProgressWrite<T>(d: Grid<T>, target: Grid<T>, init: Grid<T>, rows: nat, cols: nat, i: nat, j: nat)
    requires Progress(d, target, init, rows, cols, i, j)
    requires i < rows && j < cols
    ensures Progress(d[i := d[i][j := target[i][j]]], target, init, rows, cols, i, j + 1)
  {
  }

  /** Passing over a cell whose value needs no change moves the scan one cell on. */
  lemma ProgressKeep<T>(d: Grid<T>, target: Grid<T>, init: Grid<T>, rows: nat, cols: nat, i: nat, j: nat)
    requires Progress(d, target, init, rows, cols, i, j)
    requires i < rows && j < cols && target[i][j] == init[i][j]
    ensures Progress(d, target, init, rows, cols, i, j + 1)
  {
  }

  /** Finishing row i moves the scan to the start of row i + 1. */
  lemma ProgressNextRow<T>(d: Grid<T>, target: Grid<T>, init: Grid<T>, rows: nat, cols: nat, i: int)
    requires Progress(d, target, init, rows, cols, i, cols)
    ensures Progress(d, target, init, rows, cols, i + 1, 0)
  {
  }

  /** A scan that has passed every row has produced its target. */
  lemma ProgressDone<T>(d: Grid<T>, target: Grid<T>, init: Grid<T>, rows: nat, cols: nat)
    requires Progress(d, target, init, rows, cols, rows, 0)
    ensures d == target
  {
    GridExt(d, target, rows, cols);
  }

  // ----- row blocks (the tiled strategy) -----

  /**
   * The effect of a functor over the row range [lo, hi): every cell (a, c)
   * of those rows becomes f(a, c, old value); other rows keep their values.
   */
  ghost function RowsUpdate<T>(g: Grid<T>, lo: int, hi: int, f: (int, int, T) -> T): (r: Grid<T>)
    ensures |r| == |g|
    ensures forall a :: 0 <= a < |g| ==> |r[a]| == |g[a]|
    ensures forall a :: 0 <= a < |g| && !(lo <= a < hi) ==> r[a] == g[a]
    ensures forall a, c :: 0 <= a < |g| && lo <= a < hi && 0 <= c < |g[a]| ==> r[a][c] == f(a, c, g[a][c])
  {
    seq(|g|, a requires 0 <= a < |g| =>
      if lo <= a < hi then seq(|g[a]|, c requires 0 <= c < |g[a]| => f(a, c, g[a][c])) else g[a])
  }

  /** A scan of row i that is to produce RowsUpdate(init, i, i + 1, f) may start at (i, 0). */
  lemma RowScanStart<T>(init: Grid<T>, rows: nat, cols: nat, i: int, f: (int, int, T) -> T)
    requires IsGrid(init, rows, cols)
    ensures IsGrid(RowsUpdate(init, i, i + 1, f), rows, cols)
    ensures Progress(init, RowsUpdate(init, i, i + 1, f), init, rows, cols, i, 0)
  {
  }

  /** A scan of row i that has reached (i, j), where every cell from j on needs no change, is done. */
  lemma RowScanDone<T>(d: Grid<T>, init: Grid<T>, rows: nat, cols: nat, i: nat, j: nat, f: (int, int, T) -> T)
    requires i < rows && Progress(d, RowsUpdate(init, i, i + 1, f), init, rows, cols, i, j)
    requires forall c :: j <= c < cols ==> f(i, c, init[i][c]) == init[i][c]
    ensures d == RowsUpdate(init, i, i + 1, f)
  {
    var target := RowsUpdate(init, i, i + 1, f);
    ProgressSkip(d, target, init, rows, cols, i, j, rows, 0);
    ProgressDone(d, target, init, rows, cols);
  }

  /** An empty row range changes nothing. */
  lemma RowsUpdateEmpty<T>(g: Grid<T>, lo: int, f: (int, int, T) -> T)
    ensures RowsUpdate(g, lo, lo, f) == g
  {
    var r := RowsUpdate(g, lo, lo, f);
    assert forall a :: 0 <= a < |g| ==> r[a] == g[a];
  }

  /** The row ranges [lo, mid) and [mid, hi), processed one after the other, are the range [lo, hi). */
  lemma RowsUpdateConcat<T>(g: Grid<T>, lo: int, mid: int, hi: int, f: (int, int, T) -> T)
    requires lo <= mid <= hi
    ensures RowsUpdate(RowsUpdate(g, lo, mid, f), mid, hi, f) == RowsUpdate(g, lo, hi, f)
  {
    var x := RowsUpdate(RowsUpdate(g, lo, mid, f), mid, hi, f);
    var y := RowsUpdate(g, lo, hi, f);
    forall a | 0 <= a < |g| ensures x[a] == y[a] {
      if lo <= a < mid {
        assert RowsUpdate(g, lo, mid, f)[a] == y[a];
      }
    }
  }

  /** Disjoint row blocks can be processed in either order. */
  lemma RowsUpdateCommute<T>(g: Grid<T>, lo1: int, hi1: int, lo2: int, hi2: int, f: (int, int, T) -> T)
    requires hi1 <= lo2 || hi2 <= lo1
    ensures RowsUpdate(RowsUpdate(g, lo1, hi1, f), lo2, hi2, f)
         == RowsUpdate(RowsUpdate(g, lo2, hi2, f), lo1, hi1, f)
  {
    var x := RowsUpdate(RowsUpdate(g, lo1, hi1, f), lo2, hi2, f);
    var y := RowsUpdate(RowsUpdate(g, lo2, hi2, f), lo1, hi1, f);
    forall a | 0 <= a < |g| ensures x[a] == y[a] {
    }
  }

  /** Cut points lo = cuts[0] <= cuts[1] <= ... <= cuts[n-1] = hi split [lo, hi) into blocks. */
  predicate IsPartition(cuts: seq<int>)
  {
    |cuts| >= 1 && forall k :: 0 <= k < |cuts| - 1 ==> cuts[k] <= cuts[k + 1]
  }

  /** The blocks of a partition processed one after another, as parallel_for's workers may. */
  ghost function RunBlocks<T>(g: Grid<T>, cuts: seq<int>, f: (int, int, T) -> T): Grid<T>
    decreases |cuts|
  {
    if |cuts| < 2 then g else RunBlocks(RowsUpdate(g, cuts[0], cuts[1], f), cuts[1..], f)
  }

  /** Running a functor block by block over any partition equals one scan of the whole range. */
  lemma {:induction false} RunBlocksIsOneScan<T>(g: Grid<T>, cuts: seq<int>, f: (int, int, T) -> T)
    requires IsPartition(cuts)
    ensures RunBlocks(g, cuts, f) == RowsUpdate(g, cuts[0], cuts[|cuts| - 1], f)
    decreases |cuts|
  {
    if |cuts| == 1 {
      var r := RowsUpdate(g, cuts[0], cuts[0], f);
      forall a | 0 <= a < |g| ensures r[a] == g[a] { }
    } else {
      var g1 := RowsUpdate(g, cuts[0], cuts[1], f);
      assert IsPartition(cuts[1..]) by {
        assert forall k :: 0 <= k < |cuts[1..]| - 1 ==> cuts[1..][k] == cuts[k + 1];
      }
      RunBlocksIsOneScan(g1, cuts[1..], f);
      if |cuts| > 2 {
        assert cuts[1] <= cuts[|cuts| - 1] by { PartitionOrdered(cuts, 1, |cuts| - 1); }
      }
      RowsUpdateConcat(g, cuts[0], cuts[1], cuts[|cuts| - 1], f);
    }
  }

  lemma {:induction false} PartitionOrdered(cuts: seq<int>, k: int, m: int)
    requires IsPartition(cuts) && 0 <= k <= m < |cuts|
    ensures cuts[k] <= cuts[m]
    decreases m - k
  {
    if k < m {
      PartitionOrdered(cuts, k + 1, m);
    }
  }
}
