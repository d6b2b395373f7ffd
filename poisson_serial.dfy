/**
 * The serial stages of poisson_serial.cpp and poisson_serial.hpp: nested
 * row/column loops over mat views, each proved to produce its stencil rule
 * from PoissonSpec.
 */
module PoissonSerial {
  import opened Algorithm
  import opened Vec
  import opened Grids
  import opened Mat
  import opened PoissonSpec

  /**
   * make_boundary(mask): a zero-filled mat of the mask's extent in which
   * every iteration (i, j), 0 <= i <= rows - 2 and 0 <= j <= cols - 2, runs
   * its four tests on the right and lower neighbours.  rows() - 1 and
   * cols() - 1 are unsigned, so an empty mask is excluded.
   */
  method MakeBoundary(mask: MatView<Byte>) returns (boundary: Mat<Byte>)
    requires mask.Valid() && mask.rows >= 1 && mask.cols >= 1
    ensures fresh(boundary) && fresh(boundary.data) && boundary.Valid()
    ensures boundary.rows == mask.rows && boundary.cols == mask.cols
    ensures boundary.Elems() == BoundaryGrid(mask.Elems(), mask.rows, mask.cols)
  {
    ghost var m := mask.Elems();
    ghost var rows, cols := mask.rows, mask.cols;
    boundary := new Mat.Filled(mask.rows, mask.cols, 0);
    var b := boundary.View();
    BoundaryBeforeStart(m, rows, cols);
    var i := 0;
    while i < mask.rows - 1
      invariant 0 <= i <= rows - 1
      invariant b.Valid() && b.rows == rows && b.cols == cols
      invariant b.Elems() == BoundaryBefore(m, rows, cols, i, 0)
      modifies b.data
    {
      BoundaryRow(mask, b, i);
      i := i + 1;
    }
    BoundaryDone(m, rows, cols, i);
  }

  /** One row of make_boundary's iterations, j = 0 .. cols - 2. */
  method BoundaryRow(mask: MatView<Byte>, b: MatView<Byte>, i: nat)
    requires mask.Valid() && b.Valid() && b.data != mask.data
    requires b.rows == mask.rows && b.cols == mask.cols && mask.cols >= 1 && i + 1 < mask.rows
    requires b.Elems() == BoundaryBefore(mask.Elems(), mask.rows, mask.cols, i, 0)
    modifies b.data
    ensures b.Elems() == BoundaryBefore(mask.Elems(), mask.rows, mask.cols, i + 1, 0)
    ensures SameOutside(old(b.data[..]), b.data[..], b.start, b.stride, b.rows, b.cols)
  {
    ghost var m := mask.Elems();
    ghost var buf0 := b.data[..];
    SameOutsideRefl(buf0, b.start, b.stride, b.rows, b.cols);
    var j := 0;
    while j < mask.cols - 1
      invariant 0 <= j <= mask.cols - 1
      invariant b.Elems() == BoundaryBefore(m, mask.rows, mask.cols, i, j)
      invariant SameOutside(buf0, b.data[..], b.start, b.stride, b.rows, b.cols)
      modifies b.data
    {
      ghost var bb := b.data[..];
      BoundaryTests(mask, b, i, j);
      SameOutsideTrans(buf0, bb, b.data[..], b.start, b.stride, b.rows, b.cols);
      BoundaryStepAdvances(m, mask.rows, mask.cols, i, j);
      j := j + 1;
    }
    BoundaryNextRow(m, mask.rows, mask.cols, i);
  }

  /**
   * The body of make_boundary's inner loop at (i, j): an outside pixel next
   * to an inside right or lower neighbour is marked at *bound_it, an inside
   * pixel marks an outside right neighbour at bound_it[1] and an outside lower
   * neighbour at bound_it[bound_step].
   */
  method BoundaryTests(mask: MatView<Byte>, b: MatView<Byte>, i: nat, j: nat)
    requires mask.Valid() && b.Valid() && b.data != mask.data
    requires b.rows == mask.rows && b.cols == mask.cols
    requires InBoundaryScan(mask.rows, mask.cols, i, j)
    modifies b.data
    ensures b.Elems() == BoundaryStep(old(b.Elems()), mask.Elems(), mask.rows, mask.cols, i, j)
    ensures SameOutside(old(b.data[..]), b.data[..], b.start, b.stride, b.rows, b.cols)
  {
    ghost var m, b0 := mask.Elems(), b.Elems();
    ghost var buf0 := b.data[..];
    RightTestsAt(mask, b, i, j);
    ghost var b1 := b.Elems();
    ghost var buf1 := b.data[..];
    assert b1 == RightTests(b0, m, mask.rows, mask.cols, i, j);
    BelowTestsAt(mask, b, i, j);
    SameOutsideTrans(buf0, buf1, b.data[..], b.start, b.stride, b.rows, b.cols);
    assert mask.Elems() == m;
  }

  /** `*mask_it < 128 && mask_it[1] >= 128` marks the pixel, the converse marks bound_it[1]. */
  method RightTestsAt(mask: MatView<Byte>, b: MatView<Byte>, i: nat, j: nat)
    requires mask.Valid() && b.Valid() && b.data != mask.data
    requires b.rows == mask.rows && b.cols == mask.cols
    requires InBoundaryScan(mask.rows, mask.cols, i, j)
    modifies b.data
    ensures b.Elems() == RightTests(old(b.Elems()), mask.Elems(), mask.rows, mask.cols, i, j)
    ensures SameOutside(old(b.data[..]), b.data[..], b.start, b.stride, b.rows, b.cols)
  {
    var here, right := mask.At(i, j), mask.At(i, j + 1);
    ghost var buf0 := b.data[..];
    MarkWhere(b, here < 128 && right >= 128, i, j);
    ghost var buf1 := b.data[..];
    MarkWhere(b, here >= 128 && right < 128, i, j + 1);
    SameOutsideTrans(buf0, buf1, b.data[..], b.start, b.stride, b.rows, b.cols);
  }

  /** `*mask_it < 128 && mask_it[mask_step] >= 128` marks the pixel, the converse marks bound_it[bound_step]. */
  method BelowTestsAt(mask: MatView<Byte>, b: MatView<Byte>, i: nat, j: nat)
    requires mask.Valid() && b.Valid() && b.data != mask.data
    requires b.rows == mask.rows && b.cols == mask.cols
    requires InBoundaryScan(mask.rows, mask.cols, i, j)
    modifies b.data
    ensures b.Elems() == BelowTests(old(b.Elems()), mask.Elems(), mask.rows, mask.cols, i, j)
    ensures SameOutside(old(b.data[..]), b.data[..], b.start, b.stride, b.rows, b.cols)
  {
    var here, below := mask.At(i, j), mask.At(i + 1, j);
    ghost var buf0 := b.data[..];
    MarkWhere(b, here < 128 && below >= 128, i, j);
    ghost var buf1 := b.data[..];
    MarkWhere(b, here >= 128 && below < 128, i + 1, j);
    SameOutsideTrans(buf0, buf1, b.data[..], b.start, b.stride, b.rows, b.cols);
  }

  /** One `*bound_it = 255` under its test. */
  method MarkWhere(b: MatView<Byte>, cond: bool, a: nat, c: nat)
    requires b.Valid() && a < b.rows && c < b.cols
    modifies b.data
    ensures b.Elems() == MarkIf(old(b.Elems()), cond, a, c)
    ensures SameOutside(old(b.data[..]), b.data[..], b.start, b.stride, b.rows, b.cols)
  {
    if cond {
      b.Set(a, c, Mark);
    } else {
      SameOutsideRefl(b.data[..], b.start, b.stride, b.rows, b.cols);
    }
  }

  // ----- make_guidance, make_guidance2 -----

  /** The four grids of a guidance computation, read through their views. */
  ghost function FieldsOf(f: MatView<Vec3>, g: MatView<Vec3>, mask: MatView<Byte>, boundary: MatView<Byte>): (F: Fields)
    reads f, f.data, g, g.data, mask, mask.data, boundary, boundary.data
    requires f.Valid() && g.Valid() && mask.Valid() && boundary.Valid()
    requires SameSize4(f, g, mask, boundary)
    ensures F.Valid() && F.rows == mask.rows && F.cols == mask.cols
  {
    Fields(f.Elems(), g.Elems(), mask.Elems(), boundary.Elems(), mask.rows, mask.cols)
  }

  /** The size asserts of the guidance functions: f, g and boundary have the mask's size. */
  predicate SameSize4(f: MatView<Vec3>, g: MatView<Vec3>, mask: MatView<Byte>, boundary: MatView<Byte>)
    reads f, g, mask, boundary
  {
    f.rows == mask.rows && f.cols == mask.cols && g.rows == mask.rows && g.cols == mask.cols
    && boundary.rows == mask.rows && boundary.cols == mask.cols
  }

  /**
   * The push-form scan shared by make_guidance, make_guidance2 and
   * tbb_make_guidance_mixed_gradient: a zero-filled mat of f's size; each
   * interior Ω pixel updates its own value by `rule`, and each interior
   * boundary pixel adds f_p to its four neighbours.
   */
  method PushGuidance(f: MatView<Vec3>, g: MatView<Vec3>, mask: MatView<Byte>, boundary: MatView<Byte>, rule: SelfRule)
    returns (dst: Mat<Vec3>)
    requires f.Valid() && g.Valid() && mask.Valid() && boundary.Valid()
    requires SameSize4(f, g, mask, boundary) && mask.rows >= 1 && mask.cols >= 1
    ensures fresh(dst) && fresh(dst.data) && dst.Valid()
    ensures dst.rows == mask.rows && dst.cols == mask.cols
    ensures dst.Elems() == GuidanceGrid(FieldsOf(f, g, mask, boundary), rule)
  {
    ghost var F := FieldsOf(f, g, mask, boundary);
    ghost var own := OwnUpdate(F.f, F.g, F.rows, F.cols, rule);
    dst := new Mat.Filled(f.rows, f.cols, Zero3);
    var d := dst.View();
    GuidanceStart(F, own);
    var i := 1;
    while i < mask.rows - 1
      invariant 1 <= i <= if mask.rows >= 2 then mask.rows - 1 else 1
      invariant d.Valid() && d.rows == mask.rows && d.cols == mask.cols
      invariant d.Elems() == PushedBefore(F, own, i, 1)
      modifies d.data
    {
      GuidanceRow(f, g, mask, boundary, rule, d, i);
      i := i + 1;
    }
    GuidanceSkip(F, own, i, 1, F.rows, 0);
  }

  /** One row of the push scan, j = 1 .. cols - 2. */
  method GuidanceRow(f: MatView<Vec3>, g: MatView<Vec3>, mask: MatView<Byte>, boundary: MatView<Byte>, rule: SelfRule,
                     d: MatView<Vec3>, i: nat)
    requires f.Valid() && g.Valid() && mask.Valid() && boundary.Valid() && d.Valid()
    requires SameSize4(f, g, mask, boundary) && d.rows == mask.rows && d.cols == mask.cols
    requires d.data != f.data && d.data != g.data
    requires 1 <= i < mask.rows - 1
    requires d.Elems() == PushedBefore(FieldsOf(f, g, mask, boundary), OwnUpdate(f.Elems(), g.Elems(), mask.rows, mask.cols, rule), i, 1)
    modifies d.data
    ensures d.Elems() == PushedBefore(FieldsOf(f, g, mask, boundary), OwnUpdate(f.Elems(), g.Elems(), mask.rows, mask.cols, rule), i + 1, 1)
    ensures SameOutside(old(d.data[..]), d.data[..], d.start, d.stride, d.rows, d.cols)
  {
    ghost var F := FieldsOf(f, g, mask, boundary);
    ghost var own := OwnUpdate(F.f, F.g, F.rows, F.cols, rule);
    ghost var buf0 := d.data[..];
    SameOutsideRefl(buf0, d.start, d.stride, d.rows, d.cols);
    var j := 1;
    while j < mask.cols - 1
      invariant 1 <= j <= if mask.cols >= 2 then mask.cols - 1 else 1
      invariant d.Elems() == PushedBefore(F, own, i, j)
      invariant SameOutside(buf0, d.data[..], d.start, d.stride, d.rows, d.cols)
      modifies d.data
    {
      ghost var dd := d.data[..];
      GuidanceBody(f, g, mask, boundary, rule, d, i, j);
      SameOutsideTrans(buf0, dd, d.data[..], d.start, d.stride, d.rows, d.cols);
      GuidanceStepAdvances(F, own, i, j);
      j := j + 1;
    }
    GuidanceSkip(F, own, i, j, i + 1, 1);
  }

  /**
   * The body of the push scan at interior (i, j): an Ω pixel updates its own
   * value; a boundary pixel then adds f_p to dst at the left, right, upper and
   * lower neighbour, in that order.
   */
  method GuidanceBody(f: MatView<Vec3>, g: MatView<Vec3>, mask: MatView<Byte>, boundary: MatView<Byte>, rule: SelfRule,
                      d: MatView<Vec3>, i: nat, j: nat)
    requires f.Valid() && g.Valid() && mask.Valid() && boundary.Valid() && d.Valid()
    requires SameSize4(f, g, mask, boundary) && d.rows == mask.rows && d.cols == mask.cols
    requires d.data != f.data && d.data != g.data
    requires Interior(mask.rows, mask.cols, i, j)
    modifies d.data
    ensures d.Elems() == GuidanceStep(FieldsOf(f, g, mask, boundary), OwnUpdate(f.Elems(), g.Elems(), mask.rows, mask.cols, rule), old(d.Elems()), i, j)
    ensures SameOutside(old(d.data[..]), d.data[..], d.start, d.stride, d.rows, d.cols)
  {
    ghost var buf0 := d.data[..];
    OwnPart(f, g, mask, rule, d, i, j);
    ghost var buf1 := d.data[..];
    PushPart(f, boundary, d, i, j);
    SameOutsideTrans(buf0, buf1, d.data[..], d.start, d.stride, d.rows, d.cols);
  }

  /** `if (*mask_it >= 128) *dst_it += ...`: the own update of an Ω pixel. */
  method OwnPart(f: MatView<Vec3>, g: MatView<Vec3>, mask: MatView<Byte>, rule: SelfRule, d: MatView<Vec3>, i: nat, j: nat)
    requires f.Valid() && g.Valid() && mask.Valid() && d.Valid()
    requires f.rows == g.rows == mask.rows == d.rows && f.cols == g.cols == mask.cols == d.cols
    requires d.data != f.data && d.data != g.data
    requires Interior(mask.rows, mask.cols, i, j)
    modifies d.data
    ensures d.Elems() == OwnStep(old(d.Elems()), mask.Elems(), mask.rows, mask.cols, OwnUpdate(f.Elems(), g.Elems(), mask.rows, mask.cols, rule), i, j)
    ensures SameOutside(old(d.data[..]), d.data[..], d.start, d.stride, d.rows, d.cols)
  {
    if mask.At(i, j) >= 128 {
      var x := SelfTerm(f, g, rule, i, j, d.At(i, j));
      d.Set(i, j, x);
    } else {
      SameOutsideRefl(d.data[..], d.start, d.stride, d.rows, d.cols);
    }
  }

  /** `if (*bound_it == 255)`: a boundary pixel adds f_p to its left, right, upper and lower neighbour. */
  method PushPart(f: MatView<Vec3>, boundary: MatView<Byte>, d: MatView<Vec3>, i: nat, j: nat)
    requires f.Valid() && boundary.Valid() && d.Valid()
    requires f.rows == boundary.rows == d.rows && f.cols == boundary.cols == d.cols
    requires d.data != f.data
    requires Interior(f.rows, f.cols, i, j)
    modifies d.data
    ensures d.Elems() == PushFour(old(d.Elems()), boundary.Elems(), f.Elems(), f.rows, f.cols, i, j)
    ensures SameOutside(old(d.data[..]), d.data[..], d.start, d.stride, d.rows, d.cols)
  {
    ghost var B, F := boundary.Elems(), f.Elems();
    if boundary.At(i, j) == Mark {
      var v := f.At(i, j);
      PushNeighbours(d, i, j, v);
    } else {
      SameOutsideRefl(d.data[..], d.start, d.stride, d.rows, d.cols);
    }
    assert boundary.Elems() == B && f.Elems() == F;
  }

  /** The four `+=` statements of a boundary pixel: v is added at the left, right, upper and lower neighbour, in that order. */
  method PushNeighbours(d: MatView<Vec3>, i: nat, j: nat, v: Vec3)
    requires d.Valid() && Interior(d.rows, d.cols, i, j)
    modifies d.data
    ensures d.Elems() == AddAt(AddAt(AddAt(AddAt(old(d.Elems()), i, j - 1, v), i, j + 1, v), i - 1, j, v), i + 1, j, v)
    ensures SameOutside(old(d.data[..]), d.data[..], d.start, d.stride, d.rows, d.cols)
  {
    ghost var d0, buf0 := d.Elems(), d.data[..];
    AddTo(d, i, j - 1, v);
    ghost var d1, buf1 := AddAt(d0, i, j - 1, v), d.data[..];
    AddTo(d, i, j + 1, v);
    SameOutsideTrans(buf0, buf1, d.data[..], d.start, d.stride, d.rows, d.cols);
    ghost var d2, buf2 := AddAt(d1, i, j + 1, v), d.data[..];
    AddTo(d, i - 1, j, v);
    SameOutsideTrans(buf0, buf2, d.data[..], d.start, d.stride, d.rows, d.cols);
    ghost var d3, buf3 := AddAt(d2, i - 1, j, v), d.data[..];
    AddTo(d, i + 1, j, v);
    SameOutsideTrans(buf0, buf3, d.data[..], d.start, d.stride, d.rows, d.cols);
  }

  /** `dst(a, c) += v`. */
  method AddTo(d: MatView<Vec3>, a: nat, c: nat, v: Vec3)
    requires d.Valid() && a < d.rows && c < d.cols
    modifies d.data
    ensures d.Elems() == AddAt(old(d.Elems()), a, c, v)
    ensures SameOutside(old(d.data[..]), d.data[..], d.start, d.stride, d.rows, d.cols)
  {
    d.Set(a, c, Plus(d.At(a, c), v));
  }

  /** The `*dst_it += ...` statements of an Ω pixel, by variant, applied to its current value x. */
  method SelfTerm(f: MatView<Vec3>, g: MatView<Vec3>, rule: SelfRule, i: nat, j: nat, x: Vec3) returns (y: Vec3)
    requires f.Valid() && g.Valid() && f.rows == g.rows && f.cols == g.cols
    requires Interior(f.rows, f.cols, i, j)
    ensures y == SelfUpdate(f.Elems(), g.Elems(), f.rows, f.cols, rule, i, j, x)
  {
    var gs := GradsAt(g, i, j);
    var fs := GradsAt(f, i, j);
    match rule {
      case Plain =>
        var gp := g.At(i, j);
        y := Plus(x, Minus(Times(gp, 4.0), Plus(Plus(Plus(g.At(i, j - 1), g.At(i, j + 1)), g.At(i - 1, j)), g.At(i + 1, j))));
      case MaxMixedAsWritten =>
        y := Plus(x, MaxByNorm(gs[0], fs[0]));
        y := Plus(y, MaxByNorm(gs[1], fs[0]));
        y := Plus(y, MaxByNorm(gs[2], fs[2]));
        y := Plus(y, MaxByNorm(gs[3], fs[3]));
      case MaxMixed =>
        y := Plus(x, MaxByNorm(gs[0], fs[0]));
        y := Plus(y, MaxByNorm(gs[1], fs[1]));
        y := Plus(y, MaxByNorm(gs[2], fs[2]));
        y := Plus(y, MaxByNorm(gs[3], fs[3]));
      case NormMixed =>
        var v := [gs, fs];
        y := x;
        var k := 0;
        while k < 4
          invariant 0 <= k <= 4
          invariant y == AddPicks(x, gs, fs, k)
        {
          var n0 := Norm2(v[0][k]);
          var n1 := Norm2(v[1][k]);
          var pick := if n0 > n1 then 0 else 1;
          y := Plus(y, v[pick][k]);
          k := k + 1;
        }
    }
  }

  /** The four gradients p - q of a view at interior (i, j), left, right, up, down. */
  method GradsAt(x: MatView<Vec3>, i: nat, j: nat) returns (v: seq<Vec3>)
    requires x.Valid() && Interior(x.rows, x.cols, i, j)
    ensures v == Grads(x.Elems(), x.rows, x.cols, i, j)
  {
    var p := x.At(i, j);
    v := [Minus(p, x.At(i, j - 1)), Minus(p, x.At(i, j + 1)), Minus(p, x.At(i - 1, j)), Minus(p, x.At(i + 1, j))];
  }

  /** make_guidance: the push scan with the plain source Laplacian. */
  method MakeGuidance(f: MatView<Vec3>, g: MatView<Vec3>, mask: MatView<Byte>, boundary: MatView<Byte>)
    returns (dst: Mat<Vec3>)
    requires f.Valid() && g.Valid() && mask.Valid() && boundary.Valid()
    requires SameSize4(f, g, mask, boundary) && mask.rows >= 1 && mask.cols >= 1
    ensures fresh(dst) && fresh(dst.data) && dst.Valid()
    ensures dst.rows == mask.rows && dst.cols == mask.cols
    ensures dst.Elems() == GuidanceGrid(FieldsOf(f, g, mask, boundary), Plain)
  {
    dst := PushGuidance(f, g, mask, boundary, Plain);
  }

  /** make_guidance2 as written, its right term pairing g_p - g_right with f_p - f_left. */
  method MakeGuidance2(f: MatView<Vec3>, g: MatView<Vec3>, mask: MatView<Byte>, boundary: MatView<Byte>)
    returns (dst: Mat<Vec3>)
    requires f.Valid() && g.Valid() && mask.Valid() && boundary.Valid()
    requires SameSize4(f, g, mask, boundary) && mask.rows >= 1 && mask.cols >= 1
    ensures fresh(dst) && fresh(dst.data) && dst.Valid()
    ensures dst.rows == mask.rows && dst.cols == mask.cols
    ensures dst.Elems() == GuidanceGrid(FieldsOf(f, g, mask, boundary), MaxMixedAsWritten)
  {
    dst := PushGuidance(f, g, mask, boundary, MaxMixedAsWritten);
  }

  /** make_guidance2 with its right term corrected to f_p - f_right. */
  method MakeGuidance2Intended(f: MatView<Vec3>, g: MatView<Vec3>, mask: MatView<Byte>, boundary: MatView<Byte>)
    returns (dst: Mat<Vec3>)
    requires f.Valid() && g.Valid() && mask.Valid() && boundary.Valid()
    requires SameSize4(f, g, mask, boundary) && mask.rows >= 1 && mask.cols >= 1
    ensures fresh(dst) && fresh(dst.data) && dst.Valid()
    ensures dst.rows == mask.rows && dst.cols == mask.cols
    ensures dst.Elems() == GuidanceGrid(FieldsOf(f, g, mask, boundary), MaxMixed)
  {
    dst := PushGuidance(f, g, mask, boundary, MaxMixed);
  }

  // ----- jacobi_iteration, apply_remainder -----

  /**
   * jacobi_iteration(src, b, mask, dst): each interior Ω pixel of dst becomes
   * (b_p + Σ src_q) / 4; every other pixel of dst, and everything in its
   * buffer outside the view, is left alone.  src, b and mask are only read.
   */
  method JacobiIteration(src: MatView<Vec3>, b: MatView<Vec3>, mask: MatView<Byte>, dst: MatView<Vec3>)
    requires src.Valid() && b.Valid() && mask.Valid() && dst.Valid()
    requires src.rows == mask.rows && src.cols == mask.cols && b.rows == mask.rows && b.cols == mask.cols
    requires dst.rows == mask.rows && dst.cols == mask.cols && mask.rows >= 1 && mask.cols >= 1
    requires dst.data != src.data && dst.data != b.data
    modifies dst.data
    ensures dst.Elems() == JacobiGrid(src.Elems(), b.Elems(), mask.Elems(), old(dst.Elems()), mask.rows, mask.cols)
    ensures SameOutside(old(dst.data[..]), dst.data[..], dst.start, dst.stride, dst.rows, dst.cols)
  {
    ghost var R, C := mask.rows, mask.cols;
    ghost var init := dst.Elems();
    ghost var target := JacobiGrid(src.Elems(), b.Elems(), mask.Elems(), init, R, C);
    ghost var buf0 := dst.data[..];
    ProgressStart(target, init, R, C, 1, 1);
    SameOutsideRefl(buf0, dst.start, dst.stride, R, C);
    var i := 1;
    while i < src.rows - 1
      invariant 1 <= i <= if R >= 2 then R - 1 else 1
      invariant Progress(dst.Elems(), target, init, R, C, i, 1)
      invariant SameOutside(buf0, dst.data[..], dst.start, dst.stride, R, C)
    {
      JacobiRow(src, b, mask, dst, i, target, init, buf0);
      i := i + 1;
    }
    if i < R {
      ProgressSkip(dst.Elems(), target, init, R, C, i, 1, R, 0);
    }
    ProgressDone(dst.Elems(), target, init, R, C);
  }

  /** One row of jacobi_iteration, j = 1 .. cols - 2. */
  method JacobiRow(src: MatView<Vec3>, b: MatView<Vec3>, mask: MatView<Byte>, dst: MatView<Vec3>, i: nat,
                   ghost target: Grid<Vec3>, ghost init: Grid<Vec3>, ghost buf0: seq<Vec3>)
    requires src.Valid() && b.Valid() && mask.Valid() && dst.Valid()
    requires src.rows == mask.rows && src.cols == mask.cols && b.rows == mask.rows && b.cols == mask.cols
    requires dst.rows == mask.rows && dst.cols == mask.cols && 1 <= i < mask.rows - 1
    requires dst.data != src.data && dst.data != b.data
    requires IsGrid(init, mask.rows, mask.cols)
    requires target == JacobiGrid(src.Elems(), b.Elems(), mask.Elems(), init, mask.rows, mask.cols)
    requires Progress(dst.Elems(), target, init, mask.rows, mask.cols, i, 1)
    requires SameOutside(buf0, dst.data[..], dst.start, dst.stride, dst.rows, dst.cols)
    modifies dst.data
    ensures Progress(dst.Elems(), target, init, mask.rows, mask.cols, i + 1, 1)
    ensures SameOutside(buf0, dst.data[..], dst.start, dst.stride, dst.rows, dst.cols)
  {
    var j := 1;
    while j < src.cols - 1
      invariant 1 <= j <= if mask.cols >= 2 then mask.cols - 1 else 1
      invariant Progress(dst.Elems(), target, init, mask.rows, mask.cols, i, j)
      invariant SameOutside(buf0, dst.data[..], dst.start, dst.stride, dst.rows, dst.cols)
    {
      if mask.At(i, j) >= 128 {
        var v := Divide(Plus(Plus(Plus(Plus(b.At(i, j), src.At(i, j - 1)), src.At(i, j + 1)), src.At(i - 1, j)), src.At(i + 1, j)), 4.0);
        dst.SetInScan(i, j, v, target, init, buf0);
      } else {
        ProgressKeep(dst.Elems(), target, init, mask.rows, mask.cols, i, j);
      }
      j := j + 1;
    }
    ProgressSkip(dst.Elems(), target, init, mask.rows, mask.cols, i, j, i + 1, 1);
  }

  /**
   * apply_remainder(src, mask, dst): each interior Ω pixel of dst becomes the
   * plain 4-neighbour sum of src; everything else is left alone.
   */
  method ApplyRemainder(src: MatView<Vec3>, mask: MatView<Byte>, dst: MatView<Vec3>)
    requires src.Valid() && mask.Valid() && dst.Valid()
    requires src.rows == mask.rows && src.cols == mask.cols && dst.rows == mask.rows && dst.cols == mask.cols
    requires mask.rows >= 1 && mask.cols >= 1
    requires dst.data != src.data
    modifies dst.data
    ensures dst.Elems() == RemainderGrid(src.Elems(), mask.Elems(), old(dst.Elems()), mask.rows, mask.cols)
    ensures SameOutside(old(dst.data[..]), dst.data[..], dst.start, dst.stride, dst.rows, dst.cols)
  {
    ghost var R, C := mask.rows, mask.cols;
    ghost var init := dst.Elems();
    ghost var target := RemainderGrid(src.Elems(), mask.Elems(), init, R, C);
    ghost var buf0 := dst.data[..];
    ProgressStart(target, init, R, C, 1, 1);
    SameOutsideRefl(buf0, dst.start, dst.stride, R, C);
    var i := 1;
    while i < src.rows - 1
      invariant 1 <= i <= if R >= 2 then R - 1 else 1
      invariant Progress(dst.Elems(), target, init, R, C, i, 1)
      invariant SameOutside(buf0, dst.data[..], dst.start, dst.stride, R, C)
    {
      RemainderRow(src, mask, dst, i, target, init, buf0);
      i := i + 1;
    }
    if i < R {
      ProgressSkip(dst.Elems(), target, init, R, C, i, 1, R, 0);
    }
    ProgressDone(dst.Elems(), target, init, R, C);
  }

  /** One row of apply_remainder, j = 1 .. cols - 2. */
  method RemainderRow(src: MatView<Vec3>, mask: MatView<Byte>, dst: MatView<Vec3>, i: nat,
                      ghost target: Grid<Vec3>, ghost init: Grid<Vec3>, ghost buf0: seq<Vec3>)
    requires src.Valid() && mask.Valid() && dst.Valid()
    requires src.rows == mask.rows && src.cols == mask.cols && dst.rows == mask.rows && dst.cols == mask.cols
    requires 1 <= i < mask.rows - 1 && dst.data != src.data
    requires IsGrid(init, mask.rows, mask.cols)
    requires target == RemainderGrid(src.Elems(), mask.Elems(), init, mask.rows, mask.cols)
    requires Progress(dst.Elems(), target, init, mask.rows, mask.cols, i, 1)
    requires SameOutside(buf0, dst.data[..], dst.start, dst.stride, dst.rows, dst.cols)
    modifies dst.data
    ensures Progress(dst.Elems(), target, init, mask.rows, mask.cols, i + 1, 1)
    ensures SameOutside(buf0, dst.data[..], dst.start, dst.stride, dst.rows, dst.cols)
  {
    var j := 1;
    while j < src.cols - 1
      invariant 1 <= j <= if mask.cols >= 2 then mask.cols - 1 else 1
      invariant Progress(dst.Elems(), target, init, mask.rows, mask.cols, i, j)
      invariant SameOutside(buf0, dst.data[..], dst.start, dst.stride, dst.rows, dst.cols)
    {
      if mask.At(i, j) >= 128 {
        var v := Plus(Plus(Plus(src.At(i, j - 1), src.At(i, j + 1)), src.At(i - 1, j)), src.At(i + 1, j));
        dst.SetInScan(i, j, v, target, init, buf0);
      } else {
        ProgressKeep(dst.Elems(), target, init, mask.rows, mask.cols, i, j);
      }
      j := j + 1;
    }
    ProgressSkip(dst.Elems(), target, init, mask.rows, mask.cols, i, j, i + 1, 1);
  }

  // ----- copy, apply_mask -----

  /** copy(src, mask, dst): every Ω pixel of dst, frame included, takes src's value. */
  method Copy(src: MatView<Vec3>, mask: MatView<Byte>, dst: MatView<Vec3>)
    requires src.Valid() && mask.Valid() && dst.Valid()
    requires src.rows == mask.rows && src.cols == mask.cols && dst.rows == mask.rows && dst.cols == mask.cols
    requires dst.data != src.data
    modifies dst.data
    ensures dst.Elems() == CopyGrid(src.Elems(), mask.Elems(), old(dst.Elems()), mask.rows, mask.cols)
    ensures SameOutside(old(dst.data[..]), dst.data[..], dst.start, dst.stride, dst.rows, dst.cols)
  {
    ghost var R, C := mask.rows, mask.cols;
    ghost var init := dst.Elems();
    ghost var target := CopyGrid(src.Elems(), mask.Elems(), init, R, C);
    ghost var buf0 := dst.data[..];
    ProgressStart(target, init, R, C, 0, 0);
    SameOutsideRefl(buf0, dst.start, dst.stride, R, C);
    var i := 0;
    while i < mask.rows
      invariant 0 <= i <= R
      invariant Progress(dst.Elems(), target, init, R, C, i, 0)
      invariant SameOutside(buf0, dst.data[..], dst.start, dst.stride, R, C)
    {
      CopyRow(src, mask, dst, i, target, init, buf0);
      i := i + 1;
    }
    ProgressDone(dst.Elems(), target, init, R, C);
  }

  /** One row of copy: the Ω pixels of row i take src's value. */
  method CopyRow(src: MatView<Vec3>, mask: MatView<Byte>, dst: MatView<Vec3>, i: nat,
                 ghost target: Grid<Vec3>, ghost init: Grid<Vec3>, ghost buf0: seq<Vec3>)
    requires src.Valid() && mask.Valid() && dst.Valid()
    requires src.rows == mask.rows && src.cols == mask.cols && dst.rows == mask.rows && dst.cols == mask.cols
    requires i < mask.rows && dst.data != src.data
    requires IsGrid(init, mask.rows, mask.cols)
    requires target == CopyGrid(src.Elems(), mask.Elems(), init, mask.rows, mask.cols)
    requires Progress(dst.Elems(), target, init, mask.rows, mask.cols, i, 0)
    requires SameOutside(buf0, dst.data[..], dst.start, dst.stride, dst.rows, dst.cols)
    modifies dst.data
    ensures Progress(dst.Elems(), target, init, mask.rows, mask.cols, i + 1, 0)
    ensures SameOutside(buf0, dst.data[..], dst.start, dst.stride, dst.rows, dst.cols)
  {
    var j := 0;
    while j < mask.cols
      invariant 0 <= j <= mask.cols
      invariant Progress(dst.Elems(), target, init, mask.rows, mask.cols, i, j)
      invariant SameOutside(buf0, dst.data[..], dst.start, dst.stride, dst.rows, dst.cols)
    {
      if mask.At(i, j) >= 128 {
        dst.SetInScan(i, j, src.At(i, j), target, init, buf0);
      } else {
        ProgressKeep(dst.Elems(), target, init, mask.rows, mask.cols, i, j);
      }
      j := j + 1;
    }
    ProgressNextRow(dst.Elems(), target, init, mask.rows, mask.cols, i);
  }

  /**
   * apply_mask(mask, f): scanning f's rows x cols positions and reading the
   * mask at the same (i, j), every pixel whose mask value is below 128 is set
   * to the value-initialised zero of its type.
   */
  method ApplyMask<T>(mask: MatView<Byte>, f: MatView<T>, zero: T)
    requires mask.Valid() && f.Valid() && f.rows <= mask.rows && f.cols <= mask.cols
    requires mask.data as object != f.data as object
    modifies f.data
    ensures f.Elems() == MaskGrid(mask.Elems(), old(f.Elems()), f.rows, f.cols, zero)
    ensures SameOutside(old(f.data[..]), f.data[..], f.start, f.stride, f.rows, f.cols)
  {
    ghost var R, C := f.rows, f.cols;
    ghost var init := f.Elems();
    ghost var target := MaskGrid(mask.Elems(), init, R, C, zero);
    ghost var buf0 := f.data[..];
    ProgressStart(target, init, R, C, 0, 0);
    SameOutsideRefl(buf0, f.start, f.stride, R, C);
    var i := 0;
    while i < f.rows
      invariant 0 <= i <= R
      invariant Progress(f.Elems(), target, init, R, C, i, 0)
      invariant SameOutside(buf0, f.data[..], f.start, f.stride, R, C)
    {
      var j := 0;
      while j < f.cols
        invariant 0 <= j <= C
        invariant Progress(f.Elems(), target, init, R, C, i, j)
        invariant SameOutside(buf0, f.data[..], f.start, f.stride, R, C)
      {
        ghost var d := f.Elems();
        if mask.At(i, j) < 128 {
          ghost var buf := f.data[..];
          f.Set(i, j, zero);
          ProgressWrite(d, target, init, R, C, i, j);
          SameOutsideTrans(buf0, buf, f.data[..], f.start, f.stride, R, C);
        } else {
          ProgressSkip(d, target, init, R, C, i, j, i, j + 1);
        }
        j := j + 1;
      }
      ProgressNextRow(f.Elems(), target, init, R, C, i);
      i := i + 1;
    }
    ProgressDone(f.Elems(), target, init, R, C);
  }
}
