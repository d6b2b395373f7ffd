/**
 * The solve sequence of main.cpp: boundary, guidance, masking of the guidance
 * and of the destination, zeroing of the scratch buffer, a fixed number of
 * Jacobi passes with the two buffers swapped after each, and the final copy
 * of Ω into the destination image.
 */
module Pipeline {
  import opened Algorithm
  import opened Vec
  import opened Grids
  import opened Mat
  import opened PoissonSpec
  import opened PoissonSerial

  /** The loop runs exactly this many passes; there is no convergence test. */
  const Iterations: nat := 200

  /** The two ping-pong buffers: f holds the newest iterate, g the scratch one. */
  datatype Buffers = Buffers(f: Grid<Vec3>, g: Grid<Vec3>)

  /** jacobi_iteration(f, b, mask, g) followed by g.swap(f). */
  ghost function Pass(s: Buffers, b: Grid<Vec3>, mask: Grid<Byte>, rows: nat, cols: nat): (r: Buffers)
    requires IsGrid(s.f, rows, cols) && IsGrid(s.g, rows, cols) && IsGrid(b, rows, cols) && IsGrid(mask, rows, cols)
    ensures IsGrid(r.f, rows, cols) && IsGrid(r.g, rows, cols)
    ensures r.f == JacobiGrid(s.f, b, mask, s.g, rows, cols) && r.g == s.f
  {
    Buffers(JacobiGrid(s.f, b, mask, s.g, rows, cols), s.f)
  }

  /** n passes from s. */
  ghost function Passes(n: nat, s: Buffers, b: Grid<Vec3>, mask: Grid<Byte>, rows: nat, cols: nat): (r: Buffers)
    requires IsGrid(s.f, rows, cols) && IsGrid(s.g, rows, cols) && IsGrid(b, rows, cols) && IsGrid(mask, rows, cols)
    ensures IsGrid(r.f, rows, cols) && IsGrid(r.g, rows, cols)
  {
    if n == 0 then s else Pass(Passes(n - 1, s, b, mask, rows, cols), b, mask, rows, cols)
  }

  /** Both buffers stay zero outside Ω through any number of passes: a pass writes only Ω pixels. */
  lemma {:induction false} PassesKeepZeroOutside(n: nat, s: Buffers, b: Grid<Vec3>, mask: Grid<Byte>, rows: nat, cols: nat)
    requires IsGrid(s.f, rows, cols) && IsGrid(s.g, rows, cols) && IsGrid(b, rows, cols) && IsGrid(mask, rows, cols)
    requires ZeroOutside(mask, s.f, rows, cols, Zero3) && ZeroOutside(mask, s.g, rows, cols, Zero3)
    ensures ZeroOutside(mask, Passes(n, s, b, mask, rows, cols).f, rows, cols, Zero3)
    ensures ZeroOutside(mask, Passes(n, s, b, mask, rows, cols).g, rows, cols, Zero3)
  {
    if n > 0 {
      var p := Passes(n - 1, s, b, mask, rows, cols);
      PassesKeepZeroOutside(n - 1, s, b, mask, rows, cols);
      JacobiKeepsZeroOutside(p.f, b, mask, p.g, rows, cols);
    }
  }

  /** Once both buffers hold a solution of the discrete equation, further passes change nothing. */
  lemma {:induction false} PassesStayAtSolution(n: nat, x: Grid<Vec3>, b: Grid<Vec3>, mask: Grid<Byte>, rows: nat, cols: nat)
    requires IsGrid(x, rows, cols) && IsGrid(b, rows, cols) && IsGrid(mask, rows, cols)
    requires SolvesPoisson(x, b, mask, rows, cols)
    ensures Passes(n, Buffers(x, x), b, mask, rows, cols) == Buffers(x, x)
  {
    if n > 0 {
      PassesStayAtSolution(n - 1, x, b, mask, rows, cols);
      JacobiFixedPoint(x, b, mask, rows, cols);
    }
  }

  /** The right-hand side b: the guidance field of make_guidance, masked to Ω. */
  ghost function RightHandSide(f: Grid<Vec3>, g: Grid<Vec3>, mask: Grid<Byte>, rows: nat, cols: nat): (b: Grid<Vec3>)
    requires IsGrid(f, rows, cols) && IsGrid(g, rows, cols) && IsGrid(mask, rows, cols)
    ensures IsGrid(b, rows, cols) && ZeroOutside(mask, b, rows, cols, Zero3)
  {
    var F := Fields(f, g, mask, BoundaryGrid(mask, rows, cols), rows, cols);
    MaskGridZeroOutside(mask, GuidanceGrid(F, Plain), rows, cols, Zero3);
    MaskGrid(mask, GuidanceGrid(F, Plain), rows, cols, Zero3)
  }

  /** The buffers when the pass loop starts: f masked to Ω, g all zero. */
  ghost function StartBuffers(f: Grid<Vec3>, mask: Grid<Byte>, rows: nat, cols: nat): (s: Buffers)
    requires IsGrid(f, rows, cols) && IsGrid(mask, rows, cols)
    ensures IsGrid(s.f, rows, cols) && IsGrid(s.g, rows, cols)
    ensures ZeroOutside(mask, s.f, rows, cols, Zero3) && ZeroOutside(mask, s.g, rows, cols, Zero3)
  {
    MaskGridZeroOutside(mask, f, rows, cols, Zero3);
    Buffers(MaskGrid(mask, f, rows, cols, Zero3), Constant(rows, cols, Zero3))
  }

  /**
   * main.cpp lines 21-22: the boundary and the guidance field of f (the
   * destination image) and g (the source image), masked to Ω.
   */
  method BuildRightHandSide(f: Mat<Vec3>, g: Mat<Vec3>, mask: Mat<Byte>) returns (b: Mat<Vec3>)
    requires f.Valid() && g.Valid() && mask.Valid()
    requires f.rows == mask.rows && f.cols == mask.cols && g.rows == mask.rows && g.cols == mask.cols
    requires mask.rows >= 1 && mask.cols >= 1
    ensures fresh(b) && fresh(b.data) && b.Valid() && b.rows == mask.rows && b.cols == mask.cols
    ensures b.Elems() == RightHandSide(f.Elems(), g.Elems(), mask.Elems(), mask.rows, mask.cols)
  {
    ghost var R, C, M := mask.rows, mask.cols, mask.Elems();
    ghost var f0, g0 := f.Elems(), g.Elems();
    var mv := mask.View();
    var fv := f.View();
    var gv := g.View();
    var boundary := MakeBoundary(mv);
    var bound := boundary.View();
    ghost var F := Fields(f0, g0, M, BoundaryGrid(M, R, C), R, C);
    assert FieldsOf(fv, gv, mv, bound) == F;
    b := MakeGuidance(fv, gv, mv, bound);
    var bv := b.View();
    ApplyMask(mv, bv, Zero3);
    assert b.Elems() == RightHandSide(f0, g0, M, R, C);
  }

  /**
   * main.cpp lines 21-24: the right-hand side b is built, the destination f
   * is masked to Ω, and g is cleared to serve as the scratch buffer.
   */
  method Prepare(f: Mat<Vec3>, g: Mat<Vec3>, mask: Mat<Byte>) returns (b: Mat<Vec3>)
    requires f.Valid() && g.Valid() && mask.Valid()
    requires f.rows == mask.rows && f.cols == mask.cols && g.rows == mask.rows && g.cols == mask.cols
    requires mask.rows >= 1 && mask.cols >= 1 && f.data != g.data
    modifies f.data, g.data
    ensures fresh(b) && fresh(b.data) && b.Valid() && b.rows == mask.rows && b.cols == mask.cols
    ensures b.Elems() == RightHandSide(old(f.Elems()), old(g.Elems()), mask.Elems(), mask.rows, mask.cols)
    ensures Buffers(f.Elems(), g.Elems()) == StartBuffers(old(f.Elems()), mask.Elems(), mask.rows, mask.cols)
  {
    ghost var R, C, M := mask.rows, mask.cols, mask.Elems();
    ghost var f0 := f.Elems();
    b := BuildRightHandSide(f, g, mask);
    ghost var B := b.Elems();
    var mv := mask.View();
    var fv := f.View();
    ApplyMask(mv, fv, Zero3);
    assert f.Elems() == MaskGrid(M, f0, R, C, Zero3);
    g.Fill(Zero3);
    assert b.Elems() == B && mask.Elems() == M;
  }

  /** One iteration of main.cpp lines 26-27: jacobi_iteration(f, b, mask, g), then g.swap(f). */
  method PassOnce(f: Mat<Vec3>, g: Mat<Vec3>, b: Mat<Vec3>, mask: Mat<Byte>)
    requires f.Valid() && g.Valid() && b.Valid() && mask.Valid()
    requires f.rows == mask.rows && f.cols == mask.cols && g.rows == mask.rows && g.cols == mask.cols
    requires b.rows == mask.rows && b.cols == mask.cols && mask.rows >= 1 && mask.cols >= 1
    requires f.data != g.data && b.data != f.data && b.data != g.data
    modifies f, g, g.data
    ensures f.Valid() && g.Valid() && f.rows == mask.rows && f.cols == mask.cols && g.rows == mask.rows && g.cols == mask.cols
    ensures f.data == old(g.data) && g.data == old(f.data)
    ensures Buffers(f.Elems(), g.Elems())
      == Pass(Buffers(old(f.Elems()), old(g.Elems())), b.Elems(), mask.Elems(), mask.rows, mask.cols)
  {
    ghost var R, C, M, B := mask.rows, mask.cols, mask.Elems(), b.Elems();
    ghost var s := Buffers(f.Elems(), g.Elems());
    var src := f.View();
    var rhs := b.View();
    var m := mask.View();
    var out := g.View();
    JacobiIteration(src, rhs, m, out);
    assert g.Elems() == JacobiGrid(s.f, B, M, s.g, R, C);
    assert f.Elems() == s.f && b.Elems() == B && mask.Elems() == M;
    g.Swap(f);
  }

  /**
   * main.cpp lines 25-28: n passes of jacobi_iteration(f, b, mask, g) each
   * followed by g.swap(f), so that f always holds the newest iterate.
   */
  method RunPasses(n: nat, f: Mat<Vec3>, g: Mat<Vec3>, b: Mat<Vec3>, mask: Mat<Byte>)
    requires f.Valid() && g.Valid() && b.Valid() && mask.Valid()
    requires f.rows == mask.rows && f.cols == mask.cols && g.rows == mask.rows && g.cols == mask.cols
    requires b.rows == mask.rows && b.cols == mask.cols && mask.rows >= 1 && mask.cols >= 1
    requires f.data != g.data && b.data != f.data && b.data != g.data
    modifies f, g, f.data, g.data
    ensures f.Valid() && g.Valid() && f.rows == mask.rows && f.cols == mask.cols && g.rows == mask.rows && g.cols == mask.cols
    ensures (f.data == old(f.data) && g.data == old(g.data)) || (f.data == old(g.data) && g.data == old(f.data))
    ensures Buffers(f.Elems(), g.Elems())
      == Passes(n, Buffers(old(f.Elems()), old(g.Elems())), b.Elems(), mask.Elems(), mask.rows, mask.cols)
  {
    ghost var R, C, M, B := mask.rows, mask.cols, mask.Elems(), b.Elems();
    ghost var fd, gd := f.data, g.data;
    ghost var s0 := Buffers(f.Elems(), g.Elems());
    var i := 0;
    while i < n
      invariant 0 <= i <= n
      invariant f.Valid() && g.Valid() && f.rows == R && f.cols == C && g.rows == R && g.cols == C
      invariant (f.data == fd && g.data == gd) || (f.data == gd && g.data == fd)
      invariant b.Elems() == B
      invariant Buffers(f.Elems(), g.Elems()) == Passes(i, s0, B, M, R, C)
      modifies f, g, fd, gd
    {
      PassOnce(f, g, b, mask);
      i := i + 1;
    }
  }

  /** main.cpp line 33: copy(f, mask, dst) on the two mats. */
  method CopyOut(f: Mat<Vec3>, mask: Mat<Byte>, dst: Mat<Vec3>)
    requires f.Valid() && mask.Valid() && dst.Valid()
    requires f.rows == mask.rows && f.cols == mask.cols && dst.rows == mask.rows && dst.cols == mask.cols
    requires f.data != dst.data
    modifies dst.data
    ensures dst.Elems() == CopyGrid(f.Elems(), mask.Elems(), old(dst.Elems()), mask.rows, mask.cols)
  {
    var last := f.View();
    var m := mask.View();
    var out := dst.View();
    Copy(last, m, out);
  }

  /**
   * main.cpp lines 21-33 on f (the destination image), g (the source image),
   * the mask and the output image: the iterate after the last pass lives in f,
   * it and the scratch buffer are zero outside Ω, and only the Ω pixels of the
   * output change.
   */
  method Solve(f: Mat<Vec3>, g: Mat<Vec3>, mask: Mat<Byte>, dst: Mat<Vec3>)
    requires f.Valid() && g.Valid() && mask.Valid() && dst.Valid()
    requires f.rows == mask.rows && f.cols == mask.cols && g.rows == mask.rows && g.cols == mask.cols
    requires dst.rows == mask.rows && dst.cols == mask.cols && mask.rows >= 1 && mask.cols >= 1
    requires f.data != g.data && f.data != dst.data && g.data != dst.data
    modifies f, g, f.data, g.data, dst.data
    ensures f.Valid() && g.Valid() && f.rows == mask.rows && f.cols == mask.cols && g.rows == mask.rows && g.cols == mask.cols
    ensures Buffers(f.Elems(), g.Elems()) == Passes(Iterations, StartBuffers(old(f.Elems()), mask.Elems(), mask.rows, mask.cols),
      RightHandSide(old(f.Elems()), old(g.Elems()), mask.Elems(), mask.rows, mask.cols), mask.Elems(), mask.rows, mask.cols)
    ensures ZeroOutside(mask.Elems(), f.Elems(), mask.rows, mask.cols, Zero3)
    ensures ZeroOutside(mask.Elems(), g.Elems(), mask.rows, mask.cols, Zero3)
    ensures dst.Elems() == CopyGrid(f.Elems(), mask.Elems(), old(dst.Elems()), mask.rows, mask.cols)
  {
    ghost var R, C, M := mask.rows, mask.cols, mask.Elems();
    ghost var f0, g0 := f.Elems(), g.Elems();
    var b := Prepare(f, g, mask);
    ghost var s0 := StartBuffers(f0, M, R, C);
    ghost var B := RightHandSide(f0, g0, M, R, C);
    RunPasses(Iterations, f, g, b, mask);
    ghost var S := Buffers(f.Elems(), g.Elems());
    assert S == Passes(Iterations, s0, B, M, R, C);
    PassesKeepZeroOutside(Iterations, s0, B, M, R, C);
    CopyOut(f, mask, dst);
    assert f.Elems() == S.f && g.Elems() == S.g && mask.Elems() == M;
  }
}
