/**
 * The strided grid containers of gil/mat.hpp.
 *
 * A mat_view is a window onto a buffer it does not own: rows x cols elements,
 * row i starting stride * i elements after the view's first element.  Here the
 * buffer is an array and the view's first element is the index `start` into it
 * (the data_ pointer).  A mat owns compact storage: its stride is its cols.
 */
module Mat {
  import opened Grids
  import opened Vec

  class MatView<T> {
    var rows: nat
    var cols: nat
    var stride: nat
    var data: array<T>
    var start: nat

    /** Every element of the view lies inside the buffer, and rows do not overlap. */
    ghost predicate Valid()
      reads this
    {
      Fits(data.Length, start, stride, rows, cols)
    }

    /** The elements the view shows, row by row. */
    ghost function Elems(): (g: Grid<T>)
      reads this, data
      requires Valid()
      ensures IsGrid(g, rows, cols)
    {
      ViewOf(data[..], start, stride, rows, cols)
    }

    /** mat_view(size, stride, data). */
    constructor (rows: nat, cols: nat, stride: nat, data: array<T>, start: nat)
      requires Fits(data.Length, start, stride, rows, cols)
      ensures Valid()
      ensures this.rows == rows && this.cols == cols && this.stride == stride
      ensures this.data == data && this.start == start
    {
      this.rows := rows;
      this.cols := cols;
      this.stride := stride;
      this.data := data;
      this.start := start;
    }

    /** row_begin(i): the buffer index of the first element of row i. */
    function RowBegin(i: nat): nat
      reads this
    {
      start + Offset(stride, i, 0)
    }

    /** row_end(i): one past the last element of row i. */
    function RowEnd(i: nat): nat
      reads this
    {
      start + Offset(stride, i, cols)
    }

    /** The range [row_begin(i), row_end(i)) is exactly row i of the view. */
    lemma RowSpan(i: nat)
      requires Valid() && i < rows
      ensures RowBegin(i) <= RowEnd(i) <= data.Length
      ensures RowEnd(i) - RowBegin(i) == cols
      ensures data[RowBegin(i)..RowEnd(i)] == Elems()[i]
    {
      MulMonotone(stride, i, rows - 1);
      var row := data[RowBegin(i)..RowEnd(i)];
      forall j | 0 <= j < cols
        ensures row[j] == Elems()[i][j]
      {
        OffsetInBounds(data.Length, start, stride, rows, cols, i, j);
      }
    }

    /** Element (i, j), read at offset stride * i + j from the view's start. */
    function At(i: nat, j: nat): (x: T)
      reads this, data
      requires Valid() && i < rows && j < cols
      ensures x == Elems()[i][j]
    {
      OffsetInBounds(data.Length, start, stride, rows, cols, i, j);
      data[start + Offset(stride, i, j)]
    }

    /** Writing element (i, j): one cell of the view changes and nothing else in the buffer. */
    method Set(i: nat, j: nat, x: T)
      requires Valid() && i < rows && j < cols
      modifies data
      ensures Elems() == old(Elems())[i := old(Elems())[i][j := x]]
      ensures SameOutside(old(data[..]), data[..], start, stride, rows, cols)
    {
      ghost var before := data[..];
      UpdateCellSameOutside(before, start, stride, rows, cols, i, j, x);
      data[start + Offset(stride, i, j)] := x;
      assert data[..] == before[start + Offset(stride, i, j) := x];
      ViewOfUpdate(before, start, stride, rows, cols, i, j, x);
    }

    /**
     * Writing the value a row-major scan is to leave at (i, j) moves the scan
     * one cell on, and still leaves everything outside the view alone.
     */
    method SetInScan(i: nat, j: nat, x: T, ghost target: Grid<T>, ghost init: Grid<T>, ghost buf0: seq<T>)
      requires Valid() && i < rows && j < cols
      requires Progress(Elems(), target, init, rows, cols, i, j) && target[i][j] == x
      requires SameOutside(buf0, data[..], start, stride, rows, cols)
      modifies data
      ensures Progress(Elems(), target, init, rows, cols, i, j + 1)
      ensures SameOutside(buf0, data[..], start, stride, rows, cols)
    {
      ghost var d := Elems();
      ghost var buf := data[..];
      Set(i, j, x);
      ProgressWrite(d, target, init, rows, cols, i, j);
      SameOutsideTrans(buf0, buf, data[..], start, stride, rows, cols);
    }

    /**
     * apply(fcn): every element x of the view becomes fcn(x), row by row;
     * padding and the rest of the buffer are untouched.
     */
    method Apply(fcn: T -> T)
      requires Valid()
      modifies data
      ensures Elems() == MapGrid(old(Elems()), rows, cols, fcn)
      ensures SameOutside(old(data[..]), data[..], start, stride, rows, cols)
    {
      ghost var init := Elems();
      ghost var target := MapGrid(init, rows, cols, fcn);
      ghost var buf0 := data[..];
      ProgressStart(target, init, rows, cols, 0, 0);
      SameOutsideRefl(buf0, start, stride, rows, cols);
      var i := 0;
      while i < rows
        invariant 0 <= i <= rows
        invariant Progress(Elems(), target, init, rows, cols, i, 0)
        invariant SameOutside(buf0, data[..], start, stride, rows, cols)
      {
        var j := 0;
        while j < cols
          invariant 0 <= j <= cols
          invariant Progress(Elems(), target, init, rows, cols, i, j)
          invariant SameOutside(buf0, data[..], start, stride, rows, cols)
        {
          ghost var d := Elems();
          ghost var b := data[..];
          Set(i, j, fcn(At(i, j)));
          ProgressWrite(d, target, init, rows, cols, i, j);
          SameOutsideTrans(buf0, b, data[..], start, stride, rows, cols);
          j := j + 1;
        }
        ProgressNextRow(Elems(), target, init, rows, cols, i);
        i := i + 1;
      }
      ProgressDone(Elems(), target, init, rows, cols);
    }

    /** operator=(value): apply the constant function; every element becomes value. */
    method Fill(value: T)
      requires Valid()
      modifies data
      ensures Elems() == Constant(rows, cols, value)
      ensures SameOutside(old(data[..]), data[..], start, stride, rows, cols)
    {
      Apply(_ => value);
      GridExt(Elems(), Constant(rows, cols, value), rows, cols);
    }

    /**
     * operator=(mat_view that): the sizes must agree; each row of that is copied
     * into the same row of this view, and the padding of this view between cols
     * and stride (and the rest of its buffer) is untouched.
     */
    method Assign(that: MatView<T>)
      requires Valid() && that.Valid()
      requires rows == that.rows && cols == that.cols
      requires that.data != data
      modifies data
      ensures Elems() == old(that.Elems())
      ensures SameOutside(old(data[..]), data[..], start, stride, rows, cols)
    {
      ghost var init := Elems();
      ghost var target := that.Elems();
      ghost var buf0 := data[..];
      ProgressStart(target, init, rows, cols, 0, 0);
      SameOutsideRefl(buf0, start, stride, rows, cols);
      var i := 0;
      while i < rows
        invariant 0 <= i <= rows
        invariant Progress(Elems(), target, init, rows, cols, i, 0)
        invariant SameOutside(buf0, data[..], start, stride, rows, cols)
      {
        var j := 0;
        while j < cols
          invariant 0 <= j <= cols
          invariant Progress(Elems(), target, init, rows, cols, i, j)
          invariant SameOutside(buf0, data[..], start, stride, rows, cols)
        {
          ghost var d := Elems();
          ghost var b := data[..];
          Set(i, j, that.At(i, j));
          ProgressWrite(d, target, init, rows, cols, i, j);
          SameOutsideTrans(buf0, b, data[..], start, stride, rows, cols);
          j := j + 1;
        }
        ProgressNextRow(Elems(), target, init, rows, cols, i);
        i := i + 1;
      }
      ProgressDone(Elems(), target, init, rows, cols);
    }

    /** swap(other): the extents, stride and buffer pointer of the two views trade places. */
    method Swap(other: MatView<T>)
      modifies this, other
      ensures rows == old(other.rows) && other.rows == old(rows)
      ensures cols == old(other.cols) && other.cols == old(cols)
      ensures stride == old(other.stride) && other.stride == old(stride)
      ensures data == old(other.data) && other.data == old(data)
      ensures start == old(other.start) && other.start == old(start)
    {
      rows, other.rows := other.rows, rows;
      cols, other.cols := other.cols, cols;
      stride, other.stride := other.stride, stride;
      data, other.data := other.data, data;
      start, other.start := other.start, start;
    }
  }

  /** Swapping two views twice leaves both as they were. */
  method SwapViewsTwice<T>(a: MatView<T>, b: MatView<T>)
    modifies a, b
    ensures a.rows == old(a.rows) && a.cols == old(a.cols) && a.stride == old(a.stride)
    ensures a.data == old(a.data) && a.start == old(a.start)
    ensures b.rows == old(b.rows) && b.cols == old(b.cols) && b.stride == old(b.stride)
    ensures b.data == old(b.data) && b.start == old(b.start)
  {
    a.Swap(b);
    a.Swap(b);
  }

  /** A mat: rows x cols elements in compact storage of its own. */
  class Mat<T> {
    var rows: nat
    var cols: nat
    var data: array<T>

    ghost predicate Valid()
      reads this
    {
      data.Length == rows * cols
    }

    /** stride(): a mat's rows follow one another without padding. */
    function Stride(): nat
      reads this
    {
      cols
    }

    ghost function Elems(): (g: Grid<T>)
      reads this, data
      requires Valid()
      ensures IsGrid(g, rows, cols)
    {
      CompactFits(rows, cols);
      ViewOf(data[..], 0, cols, rows, cols)
    }

    function At(i: nat, j: nat): (x: T)
      reads this, data
      requires Valid() && i < rows && j < cols
      ensures x == Elems()[i][j]
    {
      CompactFits(rows, cols);
      OffsetInBounds(data.Length, 0, cols, rows, cols, i, j);
      data[Offset(cols, i, j)]
    }

    /** mat(size, value): rows * cols copies of value. */
    constructor Filled(rows: nat, cols: nat, value: T)
      ensures Valid() && fresh(data)
      ensures this.rows == rows && this.cols == cols
      ensures Elems() == Constant(rows, cols, value)
    {
      var d := new T[rows * cols](_ => value);
      assert forall k :: 0 <= k < d.Length ==> d[k] == value;
      this.rows := rows;
      this.cols := cols;
      this.data := d;
      new;
      CompactFits(rows, cols);
      ConstantBufferView(d[..], rows, cols, value);
    }

    /** mat(mat_view that): the rows of that copied one after another into compact storage. */
    constructor FromView(that: MatView<T>)
      requires that.Valid()
      ensures Valid() && fresh(data)
      ensures rows == that.rows && cols == that.cols
      ensures Elems() == that.Elems()
    {
      var s: seq<T> := [];
      var i := 0;
      while i < that.rows
        invariant 0 <= i <= that.rows
        invariant s == Flatten(that.Elems()[..i])
      {
        that.RowSpan(i);
        assert that.Elems()[..i + 1][..i] == that.Elems()[..i];
        s := s + that.data[that.RowBegin(i)..that.RowEnd(i)];
        i := i + 1;
      }
      assert that.Elems()[..that.rows] == that.Elems();
      FlattenViewOf(that.Elems(), that.rows, that.cols);
      this.rows := that.rows;
      this.cols := that.cols;
      this.data := new T[|s|](k requires 0 <= k < |s| => s[k]);
      new;
      assert data[..] == s;
    }

    /** operator mat_view<T>(): a view of the whole mat over the same storage, stride cols. */
    method View() returns (v: MatView<T>)
      requires Valid()
      ensures fresh(v) && v.Valid()
      ensures v.rows == rows && v.cols == cols && v.stride == Stride()
      ensures v.data == data && v.start == 0
      ensures v.Elems() == Elems()
    {
      CompactFits(rows, cols);
      v := new MatView(rows, cols, cols, data, 0);
    }

    /**
     * operator[]({r0, c0, h, w}): the h x w window whose corner is (r0, c0), over
     * the same storage and with the mat's stride.  The window must lie inside the mat.
     */
    method Sub(r0: nat, c0: nat, h: nat, w: nat) returns (v: MatView<T>)
      requires Valid() && r0 + h <= rows && c0 + w <= cols
      ensures fresh(v) && v.Valid()
      ensures v.rows == h && v.cols == w && v.stride == Stride()
      ensures v.data == data && v.start == Offset(cols, r0, c0)
      ensures forall i, j :: 0 <= i < h && 0 <= j < w ==> v.At(i, j) == At(r0 + i, c0 + j)
    {
      CompactFits(rows, cols);
      SubViewFits(data.Length, 0, cols, rows, cols, r0, c0, h, w);
      v := new MatView(h, w, cols, data, Offset(cols, r0, c0));
      forall i, j | 0 <= i < h && 0 <= j < w
        ensures v.At(i, j) == At(r0 + i, c0 + j)
      {
        SubViewOf(data[..], 0, cols, rows, cols, r0, c0, h, w, i, j);
      }
    }

    /** apply(fcn): every element x becomes fcn(x). */
    method Apply(fcn: T -> T)
      requires Valid()
      modifies data
      ensures Elems() == MapGrid(old(Elems()), rows, cols, fcn)
    {
      var v := View();
      v.Apply(fcn);
    }

    /** operator=(value): every element becomes value. */
    method Fill(value: T)
      requires Valid()
      modifies data
      ensures Elems() == Constant(rows, cols, value)
    {
      var v := View();
      v.Fill(value);
    }

    /** swap(other): the extents and the storage of the two mats trade places; no element is copied. */
    method Swap(other: Mat<T>)
      modifies this, other
      ensures rows == old(other.rows) && other.rows == old(rows)
      ensures cols == old(other.cols) && other.cols == old(cols)
      ensures data == old(other.data) && other.data == old(data)
    {
      rows, other.rows := other.rows, rows;
      cols, other.cols := other.cols, cols;
      data, other.data := other.data, data;
    }
  }

  /** Swapping two mats twice leaves both as they were. */
  method SwapMatsTwice<T>(a: Mat<T>, b: Mat<T>)
    modifies a, b
    ensures a.rows == old(a.rows) && a.cols == old(a.cols) && a.data == old(a.data)
    ensures b.rows == old(b.rows) && b.cols == old(b.cols) && b.data == old(b.data)
  {
    a.Swap(b);
    a.Swap(b);
  }

  /**
   * for_each(a, b, fcn) with fcn updating its first argument from its second:
   * the sizes must agree, and each element of a is combined with the element of
   * b at the same (i, j).
   */
  method ForEach<T>(a: MatView<T>, b: MatView<T>, fcn: (T, T) -> T)
    requires a.Valid() && b.Valid()
    requires a.rows == b.rows && a.cols == b.cols
    requires a.data != b.data
    modifies a.data
    ensures a.Elems() == ZipGrid(old(a.Elems()), b.Elems(), a.rows, a.cols, fcn)
    ensures SameOutside(old(a.data[..]), a.data[..], a.start, a.stride, a.rows, a.cols)
  {
    ghost var init := a.Elems();
    ghost var target := ZipGrid(init, b.Elems(), a.rows, a.cols, fcn);
    ghost var buf0 := a.data[..];
    ProgressStart(target, init, a.rows, a.cols, 0, 0);
    SameOutsideRefl(buf0, a.start, a.stride, a.rows, a.cols);
    var i := 0;
    while i < a.rows
      invariant 0 <= i <= a.rows
      invariant Progress(a.Elems(), target, init, a.rows, a.cols, i, 0)
      invariant SameOutside(buf0, a.data[..], a.start, a.stride, a.rows, a.cols)
    {
      var j := 0;
      while j < a.cols
        invariant 0 <= j <= a.cols
        invariant Progress(a.Elems(), target, init, a.rows, a.cols, i, j)
        invariant SameOutside(buf0, a.data[..], a.start, a.stride, a.rows, a.cols)
      {
        ghost var d := a.Elems();
        ghost var bb := a.data[..];
        a.Set(i, j, fcn(a.At(i, j), b.At(i, j)));
        ProgressWrite(d, target, init, a.rows, a.cols, i, j);
        SameOutsideTrans(buf0, bb, a.data[..], a.start, a.stride, a.rows, a.cols);
        j := j + 1;
      }
      ProgressNextRow(a.Elems(), target, init, a.rows, a.cols, i);
      i := i + 1;
    }
    ProgressDone(a.Elems(), target, init, a.rows, a.cols);
  }

  /** plus_assign and minus_assign on one pixel: the new value of the first argument. */
  function AddPixel(x: Vec3, y: Vec3): Vec3
  {
    Plus(x, y)
  }

  function SubPixel(x: Vec3, y: Vec3): Vec3
  {
    Minus(x, y)
  }

  /** operator+=(view, view) on pixel grids: a(i, j) += b(i, j) componentwise. */
  method PlusAssign(a: MatView<Vec3>, b: MatView<Vec3>)
    requires a.Valid() && b.Valid()
    requires a.rows == b.rows && a.cols == b.cols
    requires a.data != b.data
    modifies a.data
    ensures a.Elems() == ZipGrid(old(a.Elems()), b.Elems(), a.rows, a.cols, AddPixel)
    ensures forall i, j :: 0 <= i < a.rows && 0 <= j < a.cols ==> a.At(i, j) == Plus(old(a.At(i, j)), b.At(i, j))
    ensures SameOutside(old(a.data[..]), a.data[..], a.start, a.stride, a.rows, a.cols)
  {
    ForEach(a, b, AddPixel);
  }

  /** operator-=(view, view) on pixel grids: a(i, j) -= b(i, j) componentwise. */
  method MinusAssign(a: MatView<Vec3>, b: MatView<Vec3>)
    requires a.Valid() && b.Valid()
    requires a.rows == b.rows && a.cols == b.cols
    requires a.data != b.data
    modifies a.data
    ensures a.Elems() == ZipGrid(old(a.Elems()), b.Elems(), a.rows, a.cols, SubPixel)
    ensures forall i, j :: 0 <= i < a.rows && 0 <= j < a.cols ==> a.At(i, j) == Minus(old(a.At(i, j)), b.At(i, j))
    ensures SameOutside(old(a.data[..]), a.data[..], a.start, a.stride, a.rows, a.cols)
  {
    ForEach(a, b, SubPixel);
  }
}
