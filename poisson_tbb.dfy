/**
 * The tbb stages of poisson_tbb.cpp.  The two functor classes keep the views
 * they were built with; operator()(range) is the method Run over a row range,
 * and parallel_for is ForBlocks, which runs the functor block by block over
 * a partition of the dispatched rows that the caller chooses, one block after
 * another.
 */
module PoissonTbb {
  import opened Algorithm
  import opened Vec
  import opened Grids
  import opened Mat
  import opened PoissonSpec
  import opened PoissonSerial

  /**
   * For each row i >= 1 of a view, the buffer element stored just before the
   * row's first pixel: what mask_it[-1] reads at j = 0.
   */
  ghost function StoredBefore(v: MatView<Byte>): (pre: seq<Byte>)
    reads v, v.data
    ensures |pre| == v.rows
  {
    seq(v.rows, i requires 0 <= i < v.rows reads v, v.data =>
      var k := v.start + Offset(v.stride, i, 0) - 1;
      if i >= 1 && 0 <= k < v.data.Length then v.data[k] else 0)
  }

  /** In compact storage the element before row i is the last pixel of row i - 1. */
  lemma CompactStoredBefore(v: MatView<Byte>)
    requires v.Valid() && v.start == 0 && v.stride == v.cols && v.cols >= 1
    ensures StoredBefore(v) == CompactPre(v.Elems(), v.rows, v.cols)
  {
    var p, q := StoredBefore(v), CompactPre(v.Elems(), v.rows, v.cols);
    forall i | 1 <= i < v.rows ensures p[i] == q[i] {
      OffsetInBounds(v.data.Length, 0, v.cols, v.rows, v.cols, i - 1, v.cols - 1);
      assert Offset(v.cols, i, 0) - 1 == Offset(v.cols, i - 1, v.cols - 1);
    }
  }

  /** ParallelBoundary: the mask it reads and the boundary view it marks. */
  class BoundaryFunctor {
    const mask: MatView<Byte>
    const boundary: MatView<Byte>
    /** The mask's pixels and the bytes stored before its rows, which the functor only reads. */
    ghost const m: Grid<Byte>
    ghost const pre: seq<Byte>
    /** The grid rule of the functor: its tests on the mask and on the bytes stored before each row. */
    ghost const rule: (int, int, Byte) -> Byte

    /**
     * Both views of one extent with at least one column, over distinct
     * buffers, and the mask still holding m and pre.
     */
    ghost predicate Valid()
      reads this, mask, boundary, mask.data
    {
      && mask.Valid() && boundary.Valid()
      && boundary.rows == mask.rows && boundary.cols == mask.cols && mask.cols >= 1
      && mask.data != boundary.data
      && m == mask.Elems() && pre == StoredBefore(mask)
      && rule == BoundaryRule(m, pre, mask.rows, mask.cols)
    }

    /** ParallelBoundary(mask, boundary). */
    constructor (mask: MatView<Byte>, boundary: MatView<Byte>)
      requires mask.Valid() && boundary.Valid()
      requires boundary.rows == mask.rows && boundary.cols == mask.cols && mask.cols >= 1
      requires mask.data != boundary.data
      ensures Valid() && this.mask == mask && this.boundary == boundary
    {
      this.mask := mask;
      this.boundary := boundary;
      this.m := mask.Elems();
      this.pre := StoredBefore(mask);
      this.rule := BoundaryRule(mask.Elems(), StoredBefore(mask), mask.rows, mask.cols);
    }

    /**
     * The test at (i, j): the pixel is outside Ω and mask_it[-1], its right,
     * upper or lower neighbour is inside.  mask_it[-1] is the element stored
     * just before (i, j), which for j = 0 lies before the row.
     */
    method Test(i: nat, j: nat) returns (marked: bool)
      requires Valid() && 1 <= i < mask.rows - 1 && j < mask.cols - 1
      ensures marked == TbbMarks(mask.Elems(), StoredBefore(mask), mask.rows, mask.cols, i, j)
    {
      OffsetInBounds(mask.data.Length, mask.start, mask.stride, mask.rows, mask.cols, i, j);
      assert mask.stride * i >= 1 by { MulMonotone(mask.stride, 1, i); }
      var k := mask.start + Offset(mask.stride, i, j);
      var left := mask.data[k - 1];
      var here, right, up, down := mask.At(i, j), mask.At(i, j + 1), mask.At(i - 1, j), mask.At(i + 1, j);
      marked := (left >= 128 && here < 128) || (here < 128 && right >= 128)
             || (up >= 128 && here < 128) || (here < 128 && down >= 128);
      if j >= 1 {
        assert k - 1 == mask.start + Offset(mask.stride, i, j - 1);
        assert left == mask.Elems()[i][j - 1];
      } else {
        assert left == StoredBefore(mask)[i];
      }
    }

    /** The body of operator() at (i, j): *bound_it = 255 where the test holds. */
    method Cell(i: nat, j: nat, ghost target: Grid<Byte>, ghost init: Grid<Byte>, ghost buf0: seq<Byte>)
      requires Valid() && 1 <= i < mask.rows - 1 && j < mask.cols - 1
      requires IsGrid(init, mask.rows, mask.cols) && target == RowsUpdate(init, i, i + 1, rule)
      requires Progress(boundary.Elems(), target, init, mask.rows, mask.cols, i, j)
      requires SameOutside(buf0, boundary.data[..], boundary.start, boundary.stride, mask.rows, mask.cols)
      modifies boundary.data
      ensures Progress(boundary.Elems(), target, init, mask.rows, mask.cols, i, j + 1)
      ensures SameOutside(buf0, boundary.data[..], boundary.start, boundary.stride, mask.rows, mask.cols)
    {
      ghost var d := boundary.Elems();
      var marked := Test(i, j);
      assert target[i][j] == if marked then Mark else init[i][j];
      if marked {
        boundary.SetInScan(i, j, 255, target, init, buf0);
      } else {
        ProgressKeep(d, target, init, mask.rows, mask.cols, i, j);
      }
    }

    /** One row of operator(): j = 0 .. cols - 2, marking *bound_it where the test holds. */
    method Row(i: nat)
      requires Valid() && 1 <= i < mask.rows - 1
      modifies boundary.data
      ensures boundary.Elems() == RowsUpdate(old(boundary.Elems()), i, i + 1, rule)
      ensures SameOutside(old(boundary.data[..]), boundary.data[..], boundary.start, boundary.stride, boundary.rows, boundary.cols)
    {
      ghost var R, C := mask.rows, mask.cols;
      ghost var init := boundary.Elems();
      ghost var target := RowsUpdate(init, i, i + 1, rule);
      ghost var buf0 := boundary.data[..];
      RowScanStart(init, R, C, i, rule);
      SameOutsideRefl(buf0, boundary.start, boundary.stride, R, C);
      var j := 0;
      while j < mask.cols - 1
        invariant 0 <= j <= C - 1
        invariant Progress(boundary.Elems(), target, init, R, C, i, j)
        invariant SameOutside(buf0, boundary.data[..], boundary.start, boundary.stride, R, C)
      {
        Cell(i, j, target, init, buf0);
        j := j + 1;
      }
      assert j == C - 1;
      assert forall c :: j <= c < C ==> rule(i, c, init[i][c]) == init[i][c];
      RowScanDone(boundary.Elems(), init, R, C, i, j, rule);
    }

    /** operator()(range): the rows lo .. hi - 1, one after another. */
    method Run(lo: nat, hi: nat)
      requires Valid() && 1 <= lo <= hi <= mask.rows - 1
      modifies boundary.data
      ensures Valid()
      ensures boundary.Elems() == RowsUpdate(old(boundary.Elems()), lo, hi, rule)
      ensures SameOutside(old(boundary.data[..]), boundary.data[..], boundary.start, boundary.stride, boundary.rows, boundary.cols)
    {
      ghost var init := boundary.Elems();
      ghost var buf0 := boundary.data[..];
      RowsUpdateEmpty(init, lo, rule);
      SameOutsideRefl(buf0, boundary.start, boundary.stride, boundary.rows, boundary.cols);
      var i := lo;
      while i < hi
        invariant lo <= i <= hi && Valid()
        invariant boundary.Elems() == RowsUpdate(init, lo, i, rule)
        invariant SameOutside(buf0, boundary.data[..], boundary.start, boundary.stride, boundary.rows, boundary.cols)
      {
        ghost var buf := boundary.data[..];
        Row(i);
        RowsUpdateConcat(init, lo, i, i + 1, rule);
        SameOutsideTrans(buf0, buf, boundary.data[..], boundary.start, boundary.stride, boundary.rows, boundary.cols);
        i := i + 1;
      }
    }

    /**
     * parallel_for over the rows cuts[0] .. cuts[n-1] - 1, split into the
     * blocks [cuts[k], cuts[k+1]): whatever the partition, the result is one
     * scan of the whole range.
     */
    method ForBlocks(cuts: seq<int>)
      requires Valid() && IsPartition(cuts) && 1 <= cuts[0] && cuts[|cuts| - 1] <= mask.rows - 1
      modifies boundary.data
      ensures Valid()
      ensures boundary.Elems() == RunBlocks(old(boundary.Elems()), cuts, rule)
      ensures boundary.Elems() == RowsUpdate(old(boundary.Elems()), cuts[0], cuts[|cuts| - 1], rule)
      ensures SameOutside(old(boundary.data[..]), boundary.data[..], boundary.start, boundary.stride, boundary.rows, boundary.cols)
    {
      ghost var init := boundary.Elems();
      ghost var buf0 := boundary.data[..];
      RowsUpdateEmpty(init, cuts[0], rule);
      SameOutsideRefl(buf0, boundary.start, boundary.stride, boundary.rows, boundary.cols);
      var k := 0;
      while k < |cuts| - 1
        invariant 0 <= k <= |cuts| - 1 && Valid()
        invariant boundary.Elems() == RowsUpdate(init, cuts[0], cuts[k], rule)
        invariant SameOutside(buf0, boundary.data[..], boundary.start, boundary.stride, boundary.rows, boundary.cols)
      {
        PartitionOrdered(cuts, 0, k);
        PartitionOrdered(cuts, k + 1, |cuts| - 1);
        ghost var buf := boundary.data[..];
        Run(cuts[k], cuts[k + 1]);
        RowsUpdateConcat(init, cuts[0], cuts[k], cuts[k + 1], rule);
        SameOutsideTrans(buf0, buf, boundary.data[..], boundary.start, boundary.stride, boundary.rows, boundary.cols);
        k := k + 1;
      }
      RunBlocksIsOneScan(init, cuts, rule);
    }
  }

  /**
   * tbb_make_boundary(mask): a zero-filled mat of the mask's extent, marked by
   * ParallelBoundary over the rows 1 .. rows - 2 in the blocks that cuts gives.
   */
  method TbbMakeBoundary(mask: MatView<Byte>, cuts: seq<int>) returns (boundary: Mat<Byte>)
    requires mask.Valid() && mask.cols >= 1
    requires IsPartition(cuts) && cuts[0] == 1 && cuts[|cuts| - 1] == mask.rows - 1
    ensures fresh(boundary) && fresh(boundary.data) && boundary.Valid()
    ensures boundary.rows == mask.rows && boundary.cols == mask.cols
    ensures boundary.Elems() == TbbBoundaryGrid(mask.Elems(), StoredBefore(mask), mask.rows, mask.cols)
  {
    boundary := new Mat.Filled(mask.rows, mask.cols, 0);
    var b := boundary.View();
    var body := new BoundaryFunctor(mask, b);
    body.ForBlocks(cuts);
  }

  /** ParallelGuidance: the input views it reads and the guidance view it accumulates into. */
  class GuidanceFunctor {
    const guidance: MatView<Vec3>
    const mask: MatView<Byte>
    const boundary: MatView<Byte>
    const g: MatView<Vec3>
    const f: MatView<Vec3>
    /** The four input grids, which the functor only reads. */
    ghost const input: Fields

    /**
     * All five views of the mask's extent, at least one column, the guidance
     * buffer distinct from f's and g's, and the inputs still holding input.
     */
    ghost predicate Valid()
      reads this, guidance, mask, boundary, g, f, f.data, g.data, mask.data, boundary.data
    {
      && guidance.Valid() && f.Valid() && g.Valid() && mask.Valid() && boundary.Valid()
      && SameSize4(f, g, mask, boundary) && guidance.rows == mask.rows && guidance.cols == mask.cols
      && mask.cols >= 1
      && guidance.data != f.data && guidance.data != g.data
      && input == FieldsOf(f, g, mask, boundary)
    }

    /** ParallelGuidance(f, g, mask, boundary, guidance). */
    constructor (f: MatView<Vec3>, g: MatView<Vec3>, mask: MatView<Byte>, boundary: MatView<Byte>, guidance: MatView<Vec3>)
      requires guidance.Valid() && f.Valid() && g.Valid() && mask.Valid() && boundary.Valid()
      requires SameSize4(f, g, mask, boundary) && guidance.rows == mask.rows && guidance.cols == mask.cols
      requires mask.cols >= 1 && guidance.data != f.data && guidance.data != g.data
      ensures Valid()
      ensures this.f == f && this.g == g && this.mask == mask && this.boundary == boundary && this.guidance == guidance
      ensures input == FieldsOf(f, g, mask, boundary)
    {
      this.mask := mask;
      this.boundary := boundary;
      this.g := g;
      this.f := f;
      this.guidance := guidance;
      this.input := FieldsOf(f, g, mask, boundary);
    }

    /**
     * temp at interior (i, j): the source Laplacian when the pixel is in Ω,
     * then f_q for each neighbour q the boundary map marks, left, right, up, down.
     */
    method Temp(i: nat, j: nat) returns (temp: Vec3)
      requires Valid() && Interior(mask.rows, mask.cols, i, j)
      ensures temp == PullTemp(input, i, j)
    {
      temp := Zero3;
      if mask.At(i, j) >= 128 {
        var gp := g.At(i, j);
        temp := Plus(temp, Minus(Times(gp, 4.0), Plus(Plus(Plus(g.At(i, j - 1), g.At(i, j + 1)), g.At(i - 1, j)), g.At(i + 1, j))));
      }
      if boundary.At(i, j - 1) == 255 {
        temp := Plus(temp, f.At(i, j - 1));
      }
      if boundary.At(i, j + 1) == 255 {
        temp := Plus(temp, f.At(i, j + 1));
      }
      if boundary.At(i - 1, j) == 255 {
        temp := Plus(temp, f.At(i - 1, j));
      }
      if boundary.At(i + 1, j) == 255 {
        temp := Plus(temp, f.At(i + 1, j));
      }
    }

    /** The body of operator() at interior (i, j): `*guidance_it += temp`. */
    method Cell(i: nat, j: nat, ghost target: Grid<Vec3>, ghost init: Grid<Vec3>, ghost buf0: seq<Vec3>)
      requires Valid() && Interior(mask.rows, mask.cols, i, j)
      requires IsGrid(init, mask.rows, mask.cols) && target == RowsUpdate(init, i, i + 1, PullRule(input))
      requires Progress(guidance.Elems(), target, init, mask.rows, mask.cols, i, j)
      requires SameOutside(buf0, guidance.data[..], guidance.start, guidance.stride, mask.rows, mask.cols)
      modifies guidance.data
      ensures Progress(guidance.Elems(), target, init, mask.rows, mask.cols, i, j + 1)
      ensures SameOutside(buf0, guidance.data[..], guidance.start, guidance.stride, mask.rows, mask.cols)
    {
      var temp := Temp(i, j);
      assert target[i][j] == Plus(init[i][j], temp);
      guidance.SetInScan(i, j, Plus(guidance.At(i, j), temp), target, init, buf0);
    }

    /** One row of operator(): j = 1 .. cols - 2, each `*guidance_it += temp`. */
    method Row(i: nat)
      requires Valid() && 1 <= i < mask.rows - 1
      modifies guidance.data
      ensures Valid()
      ensures guidance.Elems() == RowsUpdate(old(guidance.Elems()), i, i + 1, PullRule(input))
      ensures SameOutside(old(guidance.data[..]), guidance.data[..], guidance.start, guidance.stride, guidance.rows, guidance.cols)
    {
      ghost var R, C := mask.rows, mask.cols;
      ghost var init := guidance.Elems();
      ghost var rule := PullRule(input);
      ghost var target := RowsUpdate(init, i, i + 1, rule);
      ghost var buf0 := guidance.data[..];
      RowScanStart(init, R, C, i, rule);
      ProgressKeep(init, target, init, R, C, i, 0);
      SameOutsideRefl(buf0, guidance.start, guidance.stride, R, C);
      var j := 1;
      while j < mask.cols - 1
        invariant 1 <= j <= if C >= 2 then C - 1 else 1
        invariant Progress(guidance.Elems(), target, init, R, C, i, j)
        invariant SameOutside(buf0, guidance.data[..], guidance.start, guidance.stride, R, C)
      {
        Cell(i, j, target, init, buf0);
        j := j + 1;
      }
      assert forall c :: j <= c < C ==> rule(i, c, init[i][c]) == init[i][c];
      RowScanDone(guidance.Elems(), init, R, C, i, j, rule);
    }

    /** operator()(range): the rows lo .. hi - 1, one after another. */
    method Run(lo: nat, hi: nat)
      requires Valid() && 1 <= lo <= hi <= mask.rows - 1
      modifies guidance.data
      ensures Valid()
      ensures guidance.Elems() == RowsUpdate(old(guidance.Elems()), lo, hi, PullRule(input))
      ensures SameOutside(old(guidance.data[..]), guidance.data[..], guidance.start, guidance.stride, guidance.rows, guidance.cols)
    {
      ghost var init := guidance.Elems();
      ghost var rule := PullRule(input);
      ghost var buf0 := guidance.data[..];
      RowsUpdateEmpty(init, lo, rule);
      SameOutsideRefl(buf0, guidance.start, guidance.stride, guidance.rows, guidance.cols);
      var i := lo;
      while i < hi
        invariant lo <= i <= hi
        invariant guidance.Elems() == RowsUpdate(init, lo, i, rule)
        invariant SameOutside(buf0, guidance.data[..], guidance.start, guidance.stride, guidance.rows, guidance.cols)
      {
        ghost var buf := guidance.data[..];
        Row(i);
        RowsUpdateConcat(init, lo, i, i + 1, rule);
        SameOutsideTrans(buf0, buf, guidance.data[..], guidance.start, guidance.stride, guidance.rows, guidance.cols);
        i := i + 1;
      }
    }

    /** parallel_for over the blocks [cuts[k], cuts[k+1]): whatever the partition, one scan of the whole range. */
    method ForBlocks(cuts: seq<int>)
      requires Valid() && IsPartition(cuts) && 1 <= cuts[0] && cuts[|cuts| - 1] <= mask.rows - 1
      modifies guidance.data
      ensures Valid()
      ensures guidance.Elems() == RunBlocks(old(guidance.Elems()), cuts, PullRule(input))
      ensures guidance.Elems() == RowsUpdate(old(guidance.Elems()), cuts[0], cuts[|cuts| - 1], PullRule(input))
      ensures SameOutside(old(guidance.data[..]), guidance.data[..], guidance.start, guidance.stride, guidance.rows, guidance.cols)
    {
      ghost var init := guidance.Elems();
      ghost var rule := PullRule(input);
      ghost var buf0 := guidance.data[..];
      RowsUpdateEmpty(init, cuts[0], rule);
      SameOutsideRefl(buf0, guidance.start, guidance.stride, guidance.rows, guidance.cols);
      var k := 0;
      while k < |cuts| - 1
        invariant 0 <= k <= |cuts| - 1
        invariant guidance.Elems() == RowsUpdate(init, cuts[0], cuts[k], rule)
        invariant SameOutside(buf0, guidance.data[..], guidance.start, guidance.stride, guidance.rows, guidance.cols)
      {
        PartitionOrdered(cuts, 0, k);
        PartitionOrdered(cuts, k + 1, |cuts| - 1);
        ghost var buf := guidance.data[..];
        Run(cuts[k], cuts[k + 1]);
        RowsUpdateConcat(init, cuts[0], cuts[k], cuts[k + 1], rule);
        SameOutsideTrans(buf0, buf, guidance.data[..], guidance.start, guidance.stride, guidance.rows, guidance.cols);
        k := k + 1;
      }
      RunBlocksIsOneScan(init, cuts, rule);
    }
  }

  /**
   * tbb_make_guidance(f, g, mask, boundary): a zero-filled mat of f's size into
   * which ParallelGuidance accumulates over the rows 1 .. rows - 2, in the
   * blocks that cuts gives.
   */
  method TbbMakeGuidance(f: MatView<Vec3>, g: MatView<Vec3>, mask: MatView<Byte>, boundary: MatView<Byte>, cuts: seq<int>)
    returns (dst: Mat<Vec3>)
    requires f.Valid() && g.Valid() && mask.Valid() && boundary.Valid()
    requires SameSize4(f, g, mask, boundary) && mask.cols >= 1
    requires IsPartition(cuts) && cuts[0] == 1 && cuts[|cuts| - 1] == mask.rows - 1
    ensures fresh(dst) && fresh(dst.data) && dst.Valid()
    ensures dst.rows == mask.rows && dst.cols == mask.cols
    ensures dst.Elems() == PullGuidanceGrid(FieldsOf(f, g, mask, boundary))
  {
    dst := new Mat.Filled(f.rows, f.cols, Zero3);
    var d := dst.View();
    var body := new GuidanceFunctor(f, g, mask, boundary, d);
    body.ForBlocks(cuts);
  }

  /**
   * tbb_make_guidance_mixed_gradient: the push scan whose Ω pixels add, per
   * direction, the source gradient only when its norm2 is strictly larger.
   */
  method TbbMakeGuidanceMixedGradient(f: MatView<Vec3>, g: MatView<Vec3>, mask: MatView<Byte>, boundary: MatView<Byte>)
    returns (dst: Mat<Vec3>)
    requires f.Valid() && g.Valid() && mask.Valid() && boundary.Valid()
    requires SameSize4(f, g, mask, boundary) && mask.rows >= 1 && mask.cols >= 1
    ensures fresh(dst) && fresh(dst.data) && dst.Valid()
    ensures dst.rows == mask.rows && dst.cols == mask.cols
    ensures dst.Elems() == GuidanceGrid(FieldsOf(f, g, mask, boundary), NormMixed)
  {
    dst := PushGuidance(f, g, mask, boundary, NormMixed);
  }
}
