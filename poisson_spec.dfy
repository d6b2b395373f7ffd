/**
 * The per-pixel rules of the gradient-domain solver, as pure functions on
 * grids: the region Ω (mask >= 128), its boundary, the guidance field, one
 * Jacobi sweep, the remainder, the masked copy and masking.  The loops of
 * poisson_serial.cpp and poisson_tbb.cpp are proved against these.
 */
module PoissonSpec {
  import opened Algorithm
  import opened Vec
  import opened Grids

  /** The boundary map's mark. */
  const Mark: Byte := 255

  /** A mask value selects Ω when it is at least 128. */
  predicate InOmega(v: Byte)
  {
    v >= 128
  }

  /** (i, j) lies off the one-pixel frame, where every 4-neighbour exists. */
  predicate Interior(rows: nat, cols: nat, i: int, j: int)
  {
    1 <= i < rows - 1 && 1 <= j < cols - 1
  }

  /** Some 4-neighbour of (i, j) inside the grid is in Ω. */
  ghost predicate HasOmegaNeighbour(m: Grid<Byte>, rows: nat, cols: nat, i: nat, j: nat)
    requires IsGrid(m, rows, cols) && i < rows && j < cols
  {
    || (j >= 1 && InOmega(m[i][j - 1]))
    || (j + 1 < cols && InOmega(m[i][j + 1]))
    || (i >= 1 && InOmega(m[i - 1][j]))
    || (i + 1 < rows && InOmega(m[i + 1][j]))
  }

  // ----- make_boundary (poisson_serial.cpp) -----

  /** The iterations of make_boundary: 0 <= i <= rows - 2 and 0 <= j <= cols - 2. */
  predicate InBoundaryScan(rows: nat, cols: nat, p: int, q: int)
  {
    0 <= p < rows - 1 && 0 <= q < cols - 1
  }

  /** Iteration (p, q) marks (p, q) itself: it is outside Ω and its right or lower neighbour is inside. */
  ghost predicate MarksSelf(m: Grid<Byte>, rows: nat, cols: nat, p: int, q: int)
    requires IsGrid(m, rows, cols)
  {
    InBoundaryScan(rows, cols, p, q) && !InOmega(m[p][q]) && (InOmega(m[p][q + 1]) || InOmega(m[p + 1][q]))
  }

  /** Iteration (p, q) marks its right neighbour (p, q + 1): (p, q) is inside Ω and the neighbour is not. */
  ghost predicate MarksRight(m: Grid<Byte>, rows: nat, cols: nat, p: int, q: int)
    requires IsGrid(m, rows, cols)
  {
    InBoundaryScan(rows, cols, p, q) && InOmega(m[p][q]) && !InOmega(m[p][q + 1])
  }

  /** Iteration (p, q) marks its lower neighbour (p + 1, q): (p, q) is inside Ω and the neighbour is not. */
  ghost predicate MarksBelow(m: Grid<Byte>, rows: nat, cols: nat, p: int, q: int)
    requires IsGrid(m, rows, cols)
  {
    InBoundaryScan(rows, cols, p, q) && InOmega(m[p][q]) && !InOmega(m[p + 1][q])
  }

  /** Cell (a, c) has been marked by one of the iterations that come before (i, j). */
  ghost predicate MarkedBefore(m: Grid<Byte>, rows: nat, cols: nat, i: int, j: int, a: int, c: int)
    requires IsGrid(m, rows, cols)
  {
    || (MarksSelf(m, rows, cols, a, c) && Before(a, c, i, j))
    || (MarksRight(m, rows, cols, a, c - 1) && Before(a, c - 1, i, j))
    || (MarksBelow(m, rows, cols, a - 1, c) && Before(a - 1, c, i, j))
  }

  /** The boundary map as make_boundary has built it when it is about to run iteration (i, j). */
  ghost function BoundaryBefore(m: Grid<Byte>, rows: nat, cols: nat, i: int, j: int): (b: Grid<Byte>)
    requires IsGrid(m, rows, cols)
    ensures IsGrid(b, rows, cols)
  {
    seq(rows, a requires 0 <= a < rows =>
      seq(cols, c requires 0 <= c < cols => if MarkedBefore(m, rows, cols, i, j, a, c) then Mark else 0))
  }

  /** Cell (a, c) is marked by some iteration of make_boundary. */
  ghost predicate BoundaryMarked(m: Grid<Byte>, rows: nat, cols: nat, a: int, c: int)
    requires IsGrid(m, rows, cols)
  {
    MarksSelf(m, rows, cols, a, c) || MarksRight(m, rows, cols, a, c - 1) || MarksBelow(m, rows, cols, a - 1, c)
  }

  /** The map make_boundary returns: Mark at the cells some iteration marks, 0 elsewhere. */
  ghost function BoundaryGrid(m: Grid<Byte>, rows: nat, cols: nat): (b: Grid<Byte>)
    requires IsGrid(m, rows, cols)
    ensures IsGrid(b, rows, cols)
  {
    seq(rows, a requires 0 <= a < rows =>
      seq(cols, c requires 0 <= c < cols => if BoundaryMarked(m, rows, cols, a, c) then Mark else 0))
  }

  /** b with cell (a, c) set to Mark when cond holds: one `*bound_it = 255` under its test. */
  function MarkIf(b: Grid<Byte>, cond: bool, a: nat, c: nat): (r: Grid<Byte>)
    requires a < |b| && c < |b[a]|
    ensures |r| == |b| && forall x :: 0 <= x < |b| ==> |r[x]| == |b[x]|
  {
    var row: seq<Byte> := b[a][c := Mark];
    if cond then b[a := row] else b
  }

  /** The body of make_boundary's inner loop at (i, j): its four tests, in order. */
  ghost function BoundaryStep(b: Grid<Byte>, m: Grid<Byte>, rows: nat, cols: nat, i: nat, j: nat): Grid<Byte>
    requires IsGrid(b, rows, cols) && IsGrid(m, rows, cols) && InBoundaryScan(rows, cols, i, j)
  {
    BelowTests(RightTests(b, m, rows, cols, i, j), m, rows, cols, i, j)
  }

  /** The first two tests, on the pixel and its right neighbour. */
  ghost function RightTests(b: Grid<Byte>, m: Grid<Byte>, rows: nat, cols: nat, i: nat, j: nat): (r: Grid<Byte>)
    requires IsGrid(b, rows, cols) && IsGrid(m, rows, cols) && InBoundaryScan(rows, cols, i, j)
    ensures IsGrid(r, rows, cols)
  {
    var b1 := MarkIf(b, !InOmega(m[i][j]) && InOmega(m[i][j + 1]), i, j);
    MarkIf(b1, InOmega(m[i][j]) && !InOmega(m[i][j + 1]), i, j + 1)
  }

  /** The last two tests, on the pixel and its lower neighbour. */
  ghost function BelowTests(b: Grid<Byte>, m: Grid<Byte>, rows: nat, cols: nat, i: nat, j: nat): (r: Grid<Byte>)
    requires IsGrid(b, rows, cols) && IsGrid(m, rows, cols) && InBoundaryScan(rows, cols, i, j)
    ensures IsGrid(r, rows, cols)
  {
    var b3 := MarkIf(b, !InOmega(m[i][j]) && InOmega(m[i + 1][j]), i, j);
    MarkIf(b3, InOmega(m[i][j]) && !InOmega(m[i + 1][j]), i + 1, j)
  }

  /** Before the first iteration nothing is marked: the map is the zero-filled mat. */
  lemma BoundaryBeforeStart(m: Grid<Byte>, rows: nat, cols: nat)
    requires IsGrid(m, rows, cols)
    ensures BoundaryBefore(m, rows, cols, 0, 0) == Constant(rows, cols, 0 as Byte)
  {
    GridExt(BoundaryBefore(m, rows, cols, 0, 0), Constant(rows, cols, 0 as Byte), rows, cols);
  }

  /** Running iteration (i, j) moves the partial map one iteration on. */
  lemma BoundaryStepAdvances(m: Grid<Byte>, rows: nat, cols: nat, i: nat, j: nat)
    requires IsGrid(m, rows, cols) && InBoundaryScan(rows, cols, i, j)
    ensures BoundaryStep(BoundaryBefore(m, rows, cols, i, j), m, rows, cols, i, j)
         == BoundaryBefore(m, rows, cols, i, j + 1)
  {
    var x := BoundaryStep(BoundaryBefore(m, rows, cols, i, j), m, rows, cols, i, j);
    var y := BoundaryBefore(m, rows, cols, i, j + 1);
    forall a, c | 0 <= a < rows && 0 <= c < cols
      ensures x[a][c] == y[a][c]
    {
    }
    GridExt(x, y, rows, cols);
  }

  /** The end of a row of iterations is the start of the next. */
  lemma BoundaryNextRow(m: Grid<Byte>, rows: nat, cols: nat, i: nat)
    requires IsGrid(m, rows, cols) && cols >= 1
    ensures BoundaryBefore(m, rows, cols, i, cols - 1) == BoundaryBefore(m, rows, cols, i + 1, 0)
  {
    var x := BoundaryBefore(m, rows, cols, i, cols - 1);
    var y := BoundaryBefore(m, rows, cols, i + 1, 0);
    forall a, c | 0 <= a < rows && 0 <= c < cols
      ensures x[a][c] == y[a][c]
    {
    }
    GridExt(x, y, rows, cols);
  }

  /** After the last row of iterations the map is BoundaryGrid. */
  lemma BoundaryDone(m: Grid<Byte>, rows: nat, cols: nat, i: nat)
    requires IsGrid(m, rows, cols) && rows >= 1 && i >= rows - 1
    ensures BoundaryBefore(m, rows, cols, i, 0) == BoundaryGrid(m, rows, cols)
  {
    var x := BoundaryBefore(m, rows, cols, i, 0);
    var y := BoundaryGrid(m, rows, cols);
    forall a, c | 0 <= a < rows && 0 <= c < cols
      ensures x[a][c] == y[a][c]
    {
    }
    GridExt(x, y, rows, cols);
  }

  /**
   * The boundary map holds only 0 and Mark, and a marked pixel lies outside Ω
   * with a 4-neighbour inside it; no pixel of Ω is ever marked.
   */
  lemma BoundarySound(m: Grid<Byte>, rows: nat, cols: nat, a: nat, c: nat)
    requires IsGrid(m, rows, cols) && a < rows && c < cols
    ensures BoundaryGrid(m, rows, cols)[a][c] == 0 || BoundaryGrid(m, rows, cols)[a][c] == Mark
    ensures BoundaryGrid(m, rows, cols)[a][c] == Mark ==> !InOmega(m[a][c]) && HasOmegaNeighbour(m, rows, cols, a, c)
    ensures InOmega(m[a][c]) ==> BoundaryGrid(m, rows, cols)[a][c] == 0
  {
  }

  /**
   * Every straddling pair make_boundary examines gets its outside pixel marked:
   * horizontal pairs (a, c)-(a, c + 1) with a <= rows - 2, and vertical pairs
   * (a, c)-(a + 1, c) with c <= cols - 2.
   */
  lemma BoundaryMarksExaminedPairs(m: Grid<Byte>, rows: nat, cols: nat, a: nat, c: nat)
    requires IsGrid(m, rows, cols) && a + 1 < rows && c + 1 < cols
    ensures InOmega(m[a][c]) != InOmega(m[a][c + 1]) ==>
      BoundaryGrid(m, rows, cols)[a][if InOmega(m[a][c]) then c + 1 else c] == Mark
    ensures InOmega(m[a][c]) != InOmega(m[a + 1][c]) ==>
      BoundaryGrid(m, rows, cols)[if InOmega(m[a][c]) then a + 1 else a][c] == Mark
  {
  }

  /**
   * Pairs in the last row and in the last column are never examined: a pixel of
   * the last row is marked only by the vertical test of the iteration above it
   * (so never in the last column), and a pixel of the last column only by the
   * horizontal test of the iteration to its left (so never in the last row).
   */
  lemma BoundaryLastRowAndColumn(m: Grid<Byte>, rows: nat, cols: nat, a: nat, c: nat)
    requires IsGrid(m, rows, cols) && a < rows && c < cols
    ensures a == rows - 1 ==>
      (BoundaryGrid(m, rows, cols)[a][c] == Mark <==> rows >= 2 && c + 1 < cols && InOmega(m[a - 1][c]) && !InOmega(m[a][c]))
    ensures c == cols - 1 ==>
      (BoundaryGrid(m, rows, cols)[a][c] == Mark <==> cols >= 2 && a + 1 < rows && InOmega(m[a][c - 1]) && !InOmega(m[a][c]))
  {
    assert BoundaryGrid(m, rows, cols)[a][c] == Mark <==> BoundaryMarked(m, rows, cols, a, c);
  }

  /**
   * Two instances of BoundaryLastRowAndColumn.  In the
   * first 2 x 2 mask, (1, 1) is outside Ω beside its Ω neighbour (1, 0) in the
   * last row; in the second, (1, 1) is outside Ω below its Ω neighbour (0, 1)
   * in the last column.  Neither is marked.
   */
  lemma BoundaryMissesLastRowAndColumn()
    ensures var m := [[0, 0], [Mark, 0]];
      && IsGrid(m, 2, 2)
      && !InOmega(m[1][1]) && InOmega(m[1][0])
      && BoundaryGrid(m, 2, 2)[1][1] == 0
    ensures var m := [[0, Mark], [0, 0]];
      && IsGrid(m, 2, 2)
      && !InOmega(m[1][1]) && InOmega(m[0][1])
      && BoundaryGrid(m, 2, 2)[1][1] == 0
  {
    var m1: Grid<Byte> := [[0, 0], [Mark, 0]];
    assert IsGrid(m1, 2, 2);
    assert !BoundaryMarked(m1, 2, 2, 1, 1);
    var m2: Grid<Byte> := [[0, Mark], [0, 0]];
    assert IsGrid(m2, 2, 2);
    assert !BoundaryMarked(m2, 2, 2, 1, 1);
  }

  // ----- the guidance field (make_guidance, make_guidance2, the tbb variants) -----

  /** The four inputs of a guidance computation, all of one extent. */
  datatype Fields = Fields(f: Grid<Vec3>, g: Grid<Vec3>, mask: Grid<Byte>, boundary: Grid<Byte>, rows: nat, cols: nat)
  {
    ghost predicate Valid()
    {
      IsGrid(f, rows, cols) && IsGrid(g, rows, cols) && IsGrid(mask, rows, cols) && IsGrid(boundary, rows, cols)
    }
  }

  /** The gradients x_p - x_q of a field towards the left, right, upper and lower neighbour. */
  function GradLeft(x: Grid<Vec3>, rows: nat, cols: nat, i: nat, j: nat): Vec3
    requires IsGrid(x, rows, cols) && Interior(rows, cols, i, j)
  {
    Minus(x[i][j], x[i][j - 1])
  }

  function GradRight(x: Grid<Vec3>, rows: nat, cols: nat, i: nat, j: nat): Vec3
    requires IsGrid(x, rows, cols) && Interior(rows, cols, i, j)
  {
    Minus(x[i][j], x[i][j + 1])
  }

  function GradUp(x: Grid<Vec3>, rows: nat, cols: nat, i: nat, j: nat): Vec3
    requires IsGrid(x, rows, cols) && Interior(rows, cols, i, j)
  {
    Minus(x[i][j], x[i - 1][j])
  }

  function GradDown(x: Grid<Vec3>, rows: nat, cols: nat, i: nat, j: nat): Vec3
    requires IsGrid(x, rows, cols) && Interior(rows, cols, i, j)
  {
    Minus(x[i][j], x[i + 1][j])
  }

  /** 4.0 * g_p - (g_left + g_right + g_up + g_down): the discrete Laplacian of the source. */
  function Laplacian(x: Grid<Vec3>, rows: nat, cols: nat, i: nat, j: nat): Vec3
    requires IsGrid(x, rows, cols) && Interior(rows, cols, i, j)
  {
    Minus(Times(x[i][j], 4.0), Plus(Plus(Plus(x[i][j - 1], x[i][j + 1]), x[i - 1][j]), x[i + 1][j]))
  }

  /**
   * The choice of tbb_make_guidance_mixed_gradient: the source gradient a only
   * when norm2(a) > norm2(b), so a tie takes the destination gradient b.
   */
  function NormPick(a: Vec3, b: Vec3): (r: Vec3)
    ensures r == a || r == b
    ensures SumSquares(b) < SumSquares(a) ==> r == a
    ensures SumSquares(a) <= SumSquares(b) ==> r == b
  {
    if SumSquares(a) > SumSquares(b) then a else b
  }

  /** What an Ω pixel adds to its own guidance value, one variant per guidance function. */
  datatype SelfRule =
    | Plain                 // make_guidance, ParallelGuidance: the source Laplacian
    | MaxMixedAsWritten     // make_guidance2 as written: its right term uses f_p - f_left
    | MaxMixed              // make_guidance2 with the right term f_p - f_right
    | NormMixed             // tbb_make_guidance_mixed_gradient

  /** The gradients of x at (i, j) in the order of the v[.][k] table: left, right, up, down. */
  function Grads(x: Grid<Vec3>, rows: nat, cols: nat, i: nat, j: nat): (v: seq<Vec3>)
    requires IsGrid(x, rows, cols) && Interior(rows, cols, i, j)
    ensures |v| == 4
  {
    [GradLeft(x, rows, cols, i, j), GradRight(x, rows, cols, i, j), GradUp(x, rows, cols, i, j), GradDown(x, rows, cols, i, j)]
  }

  /** x after `x += v[pick][k]` for k = 0 .. n - 1, each pick made by NormPick. */
  function AddPicks(x: Vec3, a: seq<Vec3>, b: seq<Vec3>, n: nat): Vec3
    requires n <= |a| && n <= |b|
  {
    if n == 0 then x else Plus(AddPicks(x, a, b, n - 1), NormPick(a[n - 1], b[n - 1]))
  }

  /**
   * x after the `*dst_it += ...` statements an Ω pixel (i, j) performs on its
   * own guidance value, in the order the source performs them.
   */
  function SelfUpdate(f: Grid<Vec3>, g: Grid<Vec3>, rows: nat, cols: nat, rule: SelfRule, i: nat, j: nat, x: Vec3): Vec3
    requires IsGrid(f, rows, cols) && IsGrid(g, rows, cols) && Interior(rows, cols, i, j)
  {
    var R, C := rows, cols;
    match rule
    case Plain => Plus(x, Laplacian(g, R, C, i, j))
    case MaxMixedAsWritten =>
      var x1: Vec3 := Plus(x, MaxByNorm(GradLeft(g, R, C, i, j), GradLeft(f, R, C, i, j)));
      var x2: Vec3 := Plus(x1, MaxByNorm(GradRight(g, R, C, i, j), GradLeft(f, R, C, i, j)));
      var x3: Vec3 := Plus(x2, MaxByNorm(GradUp(g, R, C, i, j), GradUp(f, R, C, i, j)));
      Plus(x3, MaxByNorm(GradDown(g, R, C, i, j), GradDown(f, R, C, i, j)))
    case MaxMixed =>
      var x1: Vec3 := Plus(x, MaxByNorm(GradLeft(g, R, C, i, j), GradLeft(f, R, C, i, j)));
      var x2: Vec3 := Plus(x1, MaxByNorm(GradRight(g, R, C, i, j), GradRight(f, R, C, i, j)));
      var x3: Vec3 := Plus(x2, MaxByNorm(GradUp(g, R, C, i, j), GradUp(f, R, C, i, j)));
      Plus(x3, MaxByNorm(GradDown(g, R, C, i, j), GradDown(f, R, C, i, j)))
    case NormMixed => AddPicks(x, Grads(g, R, C, i, j), Grads(f, R, C, i, j), 4)
  }

  /** SelfUpdate as a function of the pixel and the value, for the push scan. */
  ghost function OwnUpdate(f: Grid<Vec3>, g: Grid<Vec3>, rows: nat, cols: nat, rule: SelfRule): (int, int, Vec3) -> Vec3
  {
    (a: int, c: int, x: Vec3) =>
      if IsGrid(f, rows, cols) && IsGrid(g, rows, cols) && 0 <= a && 0 <= c && Interior(rows, cols, a, c)
      then SelfUpdate(f, g, rows, cols, rule, a, c, x) else x
  }

  /** Iteration (p, q) of the push scan has run, and (p, q) is a boundary pixel pushing f_pq to its neighbours. */
  ghost predicate Injects(F: Fields, i: int, j: int, p: int, q: int)
    requires F.Valid()
  {
    Interior(F.rows, F.cols, p, q) && Before(p, q, i, j) && F.boundary[p][q] == Mark
  }

  ghost function AddInjection(F: Fields, i: int, j: int, x: Vec3, p: int, q: int): Vec3
    requires F.Valid()
  {
    if Injects(F, i, j, p, q) then Plus(x, F.f[p][q]) else x
  }

  /**
   * Guidance cell (a, c) when the push scan is about to run iteration (i, j):
   * starting from zero, the contributions of the iterations already run, in
   * the order they run: the upper neighbour's push, the left neighbour's push,
   * the pixel's own update, the right neighbour's push, the lower neighbour's push.
   */
  ghost function PushedCell(F: Fields, own: (int, int, Vec3) -> Vec3, i: int, j: int, a: nat, c: nat): Vec3
    requires F.Valid() && a < F.rows && c < F.cols
  {
    var x1 := AddInjection(F, i, j, Zero3, a - 1, c);
    var x2 := AddInjection(F, i, j, x1, a, c - 1);
    var x3 := if Interior(F.rows, F.cols, a, c) && Before(a, c, i, j) && InOmega(F.mask[a][c])
              then own(a, c, x2) else x2;
    var x4 := AddInjection(F, i, j, x3, a, c + 1);
    AddInjection(F, i, j, x4, a + 1, c)
  }

  ghost function PushedBefore(F: Fields, own: (int, int, Vec3) -> Vec3, i: int, j: int): (d: Grid<Vec3>)
    requires F.Valid()
    ensures IsGrid(d, F.rows, F.cols)
    ensures forall a, c :: 0 <= a < F.rows && 0 <= c < F.cols ==> d[a][c] == PushedCell(F, own, i, j, a, c)
  {
    seq(F.rows, a requires 0 <= a < F.rows =>
      seq(F.cols, c requires 0 <= c < F.cols => PushedCell(F, own, i, j, a, c)))
  }

  /** The guidance field of a push-form scan: every interior iteration has run. */
  ghost function GuidanceGrid(F: Fields, rule: SelfRule): (d: Grid<Vec3>)
    requires F.Valid()
    ensures IsGrid(d, F.rows, F.cols)
  {
    PushedBefore(F, OwnUpdate(F.f, F.g, F.rows, F.cols, rule), F.rows, 0)
  }

  /** d with v added to cell (a, c): one `dst_it[...] += *f_it`. */
  function AddAt(d: Grid<Vec3>, a: nat, c: nat, v: Vec3): (r: Grid<Vec3>)
    requires a < |d| && c < |d[a]|
    ensures |r| == |d| && forall x :: 0 <= x < |d| ==> |r[x]| == |d[x]|
    ensures forall x, y :: 0 <= x < |d| && 0 <= y < |d[x]| ==> r[x][y] == if x == a && y == c then Plus(d[a][c], v) else d[x][y]
  {
    var cell: Vec3 := Plus(d[a][c], v);
    var row: seq<Vec3> := d[a][c := cell];
    d[a := row]
  }

  /** (a, c) is one of the four neighbours of (i, j). */
  predicate IsNeighbour(a: int, c: int, i: int, j: int)
  {
    (a == i && (c == j - 1 || c == j + 1)) || (c == j && (a == i - 1 || a == i + 1))
  }

  /** The own update of an Ω pixel (i, j): `*dst_it += ...`. */
  ghost function OwnStep(d: Grid<Vec3>, mask: Grid<Byte>, rows: nat, cols: nat, own: (int, int, Vec3) -> Vec3, i: nat, j: nat)
    : (r: Grid<Vec3>)
    requires IsGrid(d, rows, cols) && IsGrid(mask, rows, cols) && i < rows && j < cols
    ensures IsGrid(r, rows, cols)
  {
    var cell: Vec3 := own(i, j, d[i][j]);
    var row: seq<Vec3> := d[i][j := cell];
    if InOmega(mask[i][j]) then d[i := row] else d
  }

  /** A boundary pixel's pushes dst_it[-1], dst_it[1], dst_it[-dst_step], dst_it[dst_step] += f_p. */
  function PushFour(d: Grid<Vec3>, boundary: Grid<Byte>, f: Grid<Vec3>, rows: nat, cols: nat, i: nat, j: nat): (r: Grid<Vec3>)
    requires IsGrid(d, rows, cols) && IsGrid(boundary, rows, cols) && IsGrid(f, rows, cols) && Interior(rows, cols, i, j)
    ensures IsGrid(r, rows, cols)
  {
    if boundary[i][j] == Mark then
      AddAt(AddAt(AddAt(AddAt(d, i, j - 1, f[i][j]), i, j + 1, f[i][j]), i - 1, j, f[i][j]), i + 1, j, f[i][j])
    else d
  }

  /** The body of the push scan at interior (i, j): the own update of an Ω pixel, then a boundary pixel's four pushes. */
  ghost function GuidanceStep(F: Fields, own: (int, int, Vec3) -> Vec3, d: Grid<Vec3>, i: nat, j: nat): (r: Grid<Vec3>)
    requires F.Valid() && IsGrid(d, F.rows, F.cols) && Interior(F.rows, F.cols, i, j)
    ensures IsGrid(r, F.rows, F.cols)
    ensures forall a, c :: 0 <= a < F.rows && 0 <= c < F.cols ==> r[a][c] == StepCell(F, own, d, i, j, a, c)
  {
    PushFour(OwnStep(d, F.mask, F.rows, F.cols, own, i, j), F.boundary, F.f, F.rows, F.cols, i, j)
  }

  /** Cell (a, c) after the body of the push scan at (i, j). */
  ghost function StepCell(F: Fields, own: (int, int, Vec3) -> Vec3, d: Grid<Vec3>, i: nat, j: nat, a: nat, c: nat): Vec3
    requires F.Valid() && IsGrid(d, F.rows, F.cols) && Interior(F.rows, F.cols, i, j)
    requires a < F.rows && c < F.cols
  {
    var here := if a == i && c == j && InOmega(F.mask[i][j]) then own(i, j, d[a][c]) else d[a][c];
    if F.boundary[i][j] == Mark && IsNeighbour(a, c, i, j) then Plus(here, F.f[i][j]) else here
  }

  /** One cell of GuidanceStepAdvances, by the position of (a, c) relative to (i, j). */
  lemma PushedCellAdvances(F: Fields, own: (int, int, Vec3) -> Vec3, i: nat, j: nat, a: nat, c: nat)
    requires F.Valid() && Interior(F.rows, F.cols, i, j) && a < F.rows && c < F.cols
    ensures StepCell(F, own, PushedBefore(F, own, i, j), i, j, a, c) == PushedCell(F, own, i, j + 1, a, c)
  {
    if a == i && c == j {
      PushedSelfAdvances(F, own, i, j);
    } else if IsNeighbour(a, c, i, j) {
      PushedNeighbourAdvances(F, own, i, j, a, c);
    } else {
      PushedFarAdvances(F, own, i, j, a, c);
    }
  }

  /** PushedCellAdvances at (i, j) itself: its own update joins the pushes it has already received. */
  lemma PushedSelfAdvances(F: Fields, own: (int, int, Vec3) -> Vec3, i: nat, j: nat)
    requires F.Valid() && Interior(F.rows, F.cols, i, j)
    ensures StepCell(F, own, PushedBefore(F, own, i, j), i, j, i, j) == PushedCell(F, own, i, j + 1, i, j)
  {
    assert Injects(F, i, j, i - 1, j) == Injects(F, i, j + 1, i - 1, j);
    assert Injects(F, i, j, i, j - 1) == Injects(F, i, j + 1, i, j - 1);
    assert !Injects(F, i, j, i, j + 1) && !Injects(F, i, j + 1, i, j + 1);
    assert !Injects(F, i, j, i + 1, j) && !Injects(F, i, j + 1, i + 1, j);
    assert !IsNeighbour(i, j, i, j);
  }

  /** PushedCellAdvances at the four neighbours of (i, j), which receive its push. */
  lemma PushedNeighbourAdvances(F: Fields, own: (int, int, Vec3) -> Vec3, i: nat, j: nat, a: nat, c: nat)
    requires F.Valid() && Interior(F.rows, F.cols, i, j) && a < F.rows && c < F.cols
    requires IsNeighbour(a, c, i, j)
    ensures StepCell(F, own, PushedBefore(F, own, i, j), i, j, a, c) == PushedCell(F, own, i, j + 1, a, c)
  {
    if a == i {
      PushedRowNeighbourAdvances(F, own, i, j, c);
    } else {
      PushedColumnNeighbourAdvances(F, own, i, j, a);
    }
  }

  /** PushedNeighbourAdvances at the left and right neighbours. */
  lemma PushedRowNeighbourAdvances(F: Fields, own: (int, int, Vec3) -> Vec3, i: nat, j: nat, c: nat)
    requires F.Valid() && Interior(F.rows, F.cols, i, j) && c < F.cols
    requires c + 1 == j || c == j + 1
    ensures StepCell(F, own, PushedBefore(F, own, i, j), i, j, i, c) == PushedCell(F, own, i, j + 1, i, c)
  {
  }

  /** PushedNeighbourAdvances at the upper and lower neighbours. */
  lemma PushedColumnNeighbourAdvances(F: Fields, own: (int, int, Vec3) -> Vec3, i: nat, j: nat, a: nat)
    requires F.Valid() && Interior(F.rows, F.cols, i, j) && a < F.rows
    requires a + 1 == i || a == i + 1
    ensures StepCell(F, own, PushedBefore(F, own, i, j), i, j, a, j) == PushedCell(F, own, i, j + 1, a, j)
  {
  }

  /** PushedCellAdvances away from (i, j): iteration (i, j) leaves the cell alone. */
  lemma PushedFarAdvances(F: Fields, own: (int, int, Vec3) -> Vec3, i: nat, j: nat, a: nat, c: nat)
    requires F.Valid() && Interior(F.rows, F.cols, i, j) && a < F.rows && c < F.cols
    requires !(a == i && c == j) && !IsNeighbour(a, c, i, j)
    ensures StepCell(F, own, PushedBefore(F, own, i, j), i, j, a, c) == PushedCell(F, own, i, j + 1, a, c)
  {
  }

  /** Before the first iteration the field is the zero-filled mat. */
  lemma GuidanceStart(F: Fields, own: (int, int, Vec3) -> Vec3)
    requires F.Valid()
    ensures PushedBefore(F, own, 1, 1) == Constant(F.rows, F.cols, Zero3)
  {
    GridExt(PushedBefore(F, own, 1, 1), Constant(F.rows, F.cols, Zero3), F.rows, F.cols);
  }

  /** Running interior iteration (i, j) moves the partial field one iteration on. */
  lemma GuidanceStepAdvances(F: Fields, own: (int, int, Vec3) -> Vec3, i: nat, j: nat)
    requires F.Valid() && Interior(F.rows, F.cols, i, j)
    ensures GuidanceStep(F, own, PushedBefore(F, own, i, j), i, j) == PushedBefore(F, own, i, j + 1)
  {
    var x := GuidanceStep(F, own, PushedBefore(F, own, i, j), i, j);
    var y := PushedBefore(F, own, i, j + 1);
    forall a, c | 0 <= a < F.rows && 0 <= c < F.cols
      ensures x[a][c] == y[a][c]
    {
      PushedCellAdvances(F, own, i, j, a, c);
    }
    GridExt(x, y, F.rows, F.cols);
  }

  /** Scan positions with the same interior iterations behind them describe the same field. */
  lemma GuidanceSkip(F: Fields, own: (int, int, Vec3) -> Vec3, i: int, j: int, i2: int, j2: int)
    requires F.Valid()
    requires forall p, q :: Interior(F.rows, F.cols, p, q) ==> (Before(p, q, i, j) <==> Before(p, q, i2, j2))
    ensures PushedBefore(F, own, i, j) == PushedBefore(F, own, i2, j2)
  {
    var x := PushedBefore(F, own, i, j);
    var y := PushedBefore(F, own, i2, j2);
    forall a, c | 0 <= a < F.rows && 0 <= c < F.cols
      ensures x[a][c] == y[a][c]
    {
    }
    GridExt(x, y, F.rows, F.cols);
  }

  // ----- the closed form of make_guidance -----

  /** What interior pixel (p, q) pushes into each of its neighbours: f_pq when it is a boundary pixel, else nothing. */
  ghost function Injection(F: Fields, p: int, q: int): Vec3
    requires F.Valid()
  {
    if Interior(F.rows, F.cols, p, q) && F.boundary[p][q] == Mark then F.f[p][q] else Zero3
  }

  /** Σ f_q over the interior boundary pixels q among the four neighbours of (a, c). */
  ghost function InjectionSum(F: Fields, a: int, c: int): Vec3
    requires F.Valid()
  {
    Plus(Plus(Plus(Injection(F, a, c - 1), Injection(F, a, c + 1)), Injection(F, a - 1, c)), Injection(F, a + 1, c))
  }

  /** The source term 4 g_p - Σ g_q of an interior Ω pixel; zero at every other pixel. */
  ghost function SourceTerm(F: Fields, a: int, c: int): Vec3
    requires F.Valid()
  {
    if Interior(F.rows, F.cols, a, c) && InOmega(F.mask[a][c]) then Laplacian(F.g, F.rows, F.cols, a, c) else Zero3
  }

  /** Once the scan is over, a push from (p, q) happened exactly when (p, q) is an interior boundary pixel. */
  lemma AddInjectionDone(F: Fields, x: Vec3, p: int, q: int)
    requires F.Valid()
    ensures AddInjection(F, F.rows, 0, x, p, q) == Plus(x, Injection(F, p, q))
  {
    PlusZero(x);
  }

  /**
   * make_guidance's result: at an interior Ω pixel, 4 g_p - Σ g_q plus the
   * injection sum; at every other pixel, the injection sum alone.
   */
  lemma GuidanceClosedForm(F: Fields, a: nat, c: nat)
    requires F.Valid() && a < F.rows && c < F.cols
    ensures GuidanceGrid(F, Plain)[a][c] == Plus(SourceTerm(F, a, c), InjectionSum(F, a, c))
    ensures !(Interior(F.rows, F.cols, a, c) && InOmega(F.mask[a][c])) ==> GuidanceGrid(F, Plain)[a][c] == InjectionSum(F, a, c)
  {
    var own := OwnUpdate(F.f, F.g, F.rows, F.cols, Plain);
    var r := GuidanceGrid(F, Plain)[a][c];
    assert r == PushedCell(F, own, F.rows, 0, a, c);
    var x1 := Plus(Zero3, Injection(F, a - 1, c));
    var x2 := Plus(x1, Injection(F, a, c - 1));
    var x3 := if Interior(F.rows, F.cols, a, c) && InOmega(F.mask[a][c]) then Plus(x2, Laplacian(F.g, F.rows, F.cols, a, c)) else x2;
    var x4 := Plus(x3, Injection(F, a, c + 1));
    AddInjectionDone(F, Zero3, a - 1, c);
    AddInjectionDone(F, x1, a, c - 1);
    AddInjectionDone(F, x3, a, c + 1);
    AddInjectionDone(F, x4, a + 1, c);
    assert r == Plus(x4, Injection(F, a + 1, c));
    var want := Plus(SourceTerm(F, a, c), InjectionSum(F, a, c));
    assert r == want by {
      forall k | 0 <= k < 3 ensures r[k] == want[k] { }
    }
    PlusZero(InjectionSum(F, a, c));
  }

  // ----- the mixed-gradient variants -----

  /**
   * Where f and g coincide the corrected make_guidance2 rule reduces to the
   * plain one: each std::max has two equal arguments, and the four
   * gradients add up to 4 g_p - Σ g_q.
   */
  lemma MaxMixedSameFieldsIsPlain(f: Grid<Vec3>, rows: nat, cols: nat, i: nat, j: nat, x: Vec3)
    requires IsGrid(f, rows, cols) && Interior(rows, cols, i, j)
    ensures SelfUpdate(f, f, rows, cols, MaxMixed, i, j, x) == SelfUpdate(f, f, rows, cols, Plain, i, j, x)
  {
    var l, r, u, d := GradLeft(f, rows, cols, i, j), GradRight(f, rows, cols, i, j), GradUp(f, rows, cols, i, j), GradDown(f, rows, cols, i, j);
    var y := Plus(Plus(Plus(Plus(x, l), r), u), d);
    var z := Plus(x, Laplacian(f, rows, cols, i, j));
    assert SelfUpdate(f, f, rows, cols, MaxMixed, i, j, x) == y;
    assert y == z by {
      forall k | 0 <= k < 3 ensures y[k] == z[k] { }
    }
  }

  /** A 3 x 3 field that is zero except for (1, 0), which holds (1, 0, 0). */
  function OneLeft(): (x: Grid<Vec3>)
    ensures IsGrid(x, 3, 3)
  {
    [[Zero3, Zero3, Zero3], [[1.0, 0.0, 0.0], Zero3, Zero3], [Zero3, Zero3, Zero3]]
  }

  /**
   * make_guidance2's right term pairs g_p - g_right with f_p - f_left.  With
   * f == g == OneLeft the pixel (1, 1) gets (-2, 0, 0) as written, where the
   * corrected rule, like the plain Laplacian, gives (-1, 0, 0).
   */
  lemma MaxMixedRightTermAsWritten()
    ensures SelfUpdate(OneLeft(), OneLeft(), 3, 3, MaxMixedAsWritten, 1, 1, Zero3) == [-2.0, 0.0, 0.0]
    ensures SelfUpdate(OneLeft(), OneLeft(), 3, 3, MaxMixed, 1, 1, Zero3) == [-1.0, 0.0, 0.0]
    ensures SelfUpdate(OneLeft(), OneLeft(), 3, 3, Plain, 1, 1, Zero3) == [-1.0, 0.0, 0.0]
  {
    var m := OneLeft();
    var l: Vec3 := [-1.0, 0.0, 0.0];
    assert GradLeft(m, 3, 3, 1, 1) == l;
    assert GradRight(m, 3, 3, 1, 1) == Zero3;
    assert GradUp(m, 3, 3, 1, 1) == Zero3;
    assert GradDown(m, 3, 3, 1, 1) == Zero3;
    assert SumSquares(l) == 1.0 && SumSquares(Zero3) == 0.0 by { SumSquares3(l); SumSquares3(Zero3); }
    assert MaxByNorm(Zero3, l) == l;
    assert MaxByNorm(Zero3, Zero3) == Zero3;
    assert MaxByNorm(l, l) == l;
    PlusZero(l);
    assert Plus(l, l) == [-2.0, 0.0, 0.0];
    PlusZero([-2.0, 0.0, 0.0]);
    MaxMixedSameFieldsIsPlain(m, 3, 3, 1, 1, Zero3);
  }

  /**
   * On a tie of squared norms make_guidance2 keeps the source gradient (std::max
   * under operator<) while tbb_make_guidance_mixed_gradient takes the
   * destination gradient (norm2(g) > norm2(f) fails): with g = OneLeft and f
   * holding (0, 1, 0) at (1, 0), the left gradients (-1, 0, 0) and (0, -1, 0)
   * tie and the two rules disagree at (1, 1).
   */
  lemma MixedRulesBreakTiesApart()
    ensures var f: Grid<Vec3> := [[Zero3, Zero3, Zero3], [[0.0, 1.0, 0.0], Zero3, Zero3], [Zero3, Zero3, Zero3]];
      && IsGrid(f, 3, 3)
      && SelfUpdate(f, OneLeft(), 3, 3, MaxMixed, 1, 1, Zero3) == [-1.0, 0.0, 0.0]
      && SelfUpdate(f, OneLeft(), 3, 3, NormMixed, 1, 1, Zero3) == [0.0, -1.0, 0.0]
  {
    var f: Grid<Vec3> := [[Zero3, Zero3, Zero3], [[0.0, 1.0, 0.0], Zero3, Zero3], [Zero3, Zero3, Zero3]];
    var g := OneLeft();
    assert IsGrid(f, 3, 3);
    var gl: Vec3 := [-1.0, 0.0, 0.0];
    var fl: Vec3 := [0.0, -1.0, 0.0];
    assert GradLeft(g, 3, 3, 1, 1) == gl && GradLeft(f, 3, 3, 1, 1) == fl;
    assert GradRight(g, 3, 3, 1, 1) == Zero3 && GradRight(f, 3, 3, 1, 1) == Zero3;
    assert GradUp(g, 3, 3, 1, 1) == Zero3 && GradUp(f, 3, 3, 1, 1) == Zero3;
    assert GradDown(g, 3, 3, 1, 1) == Zero3 && GradDown(f, 3, 3, 1, 1) == Zero3;
    assert SumSquares(gl) == 1.0 && SumSquares(fl) == 1.0 && SumSquares(Zero3) == 0.0 by {
      SumSquares3(gl); SumSquares3(fl); SumSquares3(Zero3);
    }
    assert MaxByNorm(gl, fl) == gl && NormPick(gl, fl) == fl;
    assert MaxByNorm(Zero3, Zero3) == Zero3 && NormPick(Zero3, Zero3) == Zero3;
    PlusZero(gl);
    PlusZero(fl);
    assert Grads(g, 3, 3, 1, 1) == [gl, Zero3, Zero3, Zero3];
    assert Grads(f, 3, 3, 1, 1) == [fl, Zero3, Zero3, Zero3];
    var a, b := [gl, Zero3, Zero3, Zero3], [fl, Zero3, Zero3, Zero3];
    assert AddPicks(Zero3, a, b, 1) == fl;
    assert AddPicks(Zero3, a, b, 2) == fl;
    assert AddPicks(Zero3, a, b, 3) == fl;
    assert AddPicks(Zero3, a, b, 4) == fl;
  }

  // ----- ParallelGuidance: the pull form -----

  /**
   * temp of ParallelGuidance at interior (i, j): 4 g_p - Σ g_q when p is in
   * Ω, then f_q added for each neighbour q the boundary map marks, in the
   * order left, right, up, down.
   */
  ghost function PullTemp(F: Fields, i: nat, j: nat): Vec3
    requires F.Valid() && Interior(F.rows, F.cols, i, j)
  {
    var t1: Vec3 := if InOmega(F.mask[i][j]) then Plus(Zero3, Laplacian(F.g, F.rows, F.cols, i, j)) else Zero3;
    var t2: Vec3 := if F.boundary[i][j - 1] == Mark then Plus(t1, F.f[i][j - 1]) else t1;
    var t3: Vec3 := if F.boundary[i][j + 1] == Mark then Plus(t2, F.f[i][j + 1]) else t2;
    var t4: Vec3 := if F.boundary[i - 1][j] == Mark then Plus(t3, F.f[i - 1][j]) else t3;
    if F.boundary[i + 1][j] == Mark then Plus(t4, F.f[i + 1][j]) else t4
  }

  /** `*guidance_it += temp` at the interior columns of a row; other columns keep their value. */
  ghost function PullRule(F: Fields): (int, int, Vec3) -> Vec3
  {
    (a: int, c: int, x: Vec3) =>
      if F.Valid() && 0 <= a && 0 <= c && Interior(F.rows, F.cols, a, c) then Plus(x, PullTemp(F, a, c)) else x
  }

  /** tbb_make_guidance's result: the zero-filled mat with ParallelGuidance run over rows 1 .. rows - 2. */
  ghost function PullGuidanceGrid(F: Fields): (d: Grid<Vec3>)
    requires F.Valid()
    ensures IsGrid(d, F.rows, F.cols)
  {
    RowsUpdate(Constant(F.rows, F.cols, Zero3), 1, F.rows - 1, PullRule(F))
  }

  /** What the pull form adds for neighbour (p, q): f_q when the boundary map marks q, whether or not q is interior. */
  ghost function Pulled(F: Fields, p: nat, q: nat): Vec3
    requires F.Valid() && p < F.rows && q < F.cols
  {
    if F.boundary[p][q] == Mark then F.f[p][q] else Zero3
  }

  /**
   * The pull form's result: at an interior pixel, the Ω source term plus Σ f_q
   * over the marked neighbours q; the one-pixel frame stays zero.
   */
  lemma PullClosedForm(F: Fields, a: nat, c: nat)
    requires F.Valid() && a < F.rows && c < F.cols
    ensures !Interior(F.rows, F.cols, a, c) ==> PullGuidanceGrid(F)[a][c] == Zero3
    ensures Interior(F.rows, F.cols, a, c) ==>
      (PullGuidanceGrid(F)[a][c]
       == Plus(SourceTerm(F, a, c), Plus(Plus(Plus(Pulled(F, a, c - 1), Pulled(F, a, c + 1)), Pulled(F, a - 1, c)), Pulled(F, a + 1, c))))
  {
    var r := PullGuidanceGrid(F)[a][c];
    if Interior(F.rows, F.cols, a, c) {
      assert r == Plus(Zero3, PullTemp(F, a, c));
      var want := Plus(SourceTerm(F, a, c), Plus(Plus(Plus(Pulled(F, a, c - 1), Pulled(F, a, c + 1)), Pulled(F, a - 1, c)), Pulled(F, a + 1, c)));
      assert r == want by {
        forall k | 0 <= k < 3 ensures r[k] == want[k] { }
      }
    }
  }

  /**
   * ParallelGuidance agrees with make_guidance at every pixel whose four
   * neighbours are all interior, 2 <= a <= rows - 3 and 2 <= c <= cols - 3.
   */
  lemma PullAgreesWithPush(F: Fields, a: nat, c: nat)
    requires F.Valid() && 2 <= a < F.rows - 2 && 2 <= c < F.cols - 2
    ensures PullGuidanceGrid(F)[a][c] == GuidanceGrid(F, Plain)[a][c]
  {
    PullClosedForm(F, a, c);
    GuidanceClosedForm(F, a, c);
  }

  /**
   * Next to the frame the two differ: a marked frame pixel is pulled by its
   * interior neighbour but never pushes.  In a 3 x 3 image whose only marked
   * pixel is (0, 1), with f = OneUp, the pull form gives (1, 1) the value f_01
   * and the push form gives it nothing.
   */
  lemma PullDiffersNextToFrame()
    ensures var F := Fields(OneUp(), Constant(3, 3, Zero3), Constant(3, 3, 0 as Byte), [[0, Mark, 0], [0, 0, 0], [0, 0, 0]], 3, 3);
      && F.Valid()
      && PullGuidanceGrid(F)[1][1] == [1.0, 0.0, 0.0]
      && GuidanceGrid(F, Plain)[1][1] == Zero3
  {
    var F := Fields(OneUp(), Constant(3, 3, Zero3), Constant(3, 3, 0 as Byte), [[0, Mark, 0], [0, 0, 0], [0, 0, 0]], 3, 3);
    assert F.Valid();
    PullClosedForm(F, 1, 1);
    GuidanceClosedForm(F, 1, 1);
    var o: Vec3 := [1.0, 0.0, 0.0];
    assert Pulled(F, 0, 1) == o;
    assert Pulled(F, 1, 0) == Zero3 && Pulled(F, 1, 2) == Zero3 && Pulled(F, 2, 1) == Zero3;
    assert Injection(F, 0, 1) == Zero3 && Injection(F, 1, 0) == Zero3;
    assert Injection(F, 1, 2) == Zero3 && Injection(F, 2, 1) == Zero3;
    assert SourceTerm(F, 1, 1) == Zero3;
    PlusZero(o);
    PlusZero(Zero3);
  }

  /** A 3 x 3 field that is zero except for (0, 1), which holds (1, 0, 0). */
  function OneUp(): (x: Grid<Vec3>)
    ensures IsGrid(x, 3, 3)
  {
    [[Zero3, [1.0, 0.0, 0.0], Zero3], [Zero3, Zero3, Zero3], [Zero3, Zero3, Zero3]]
  }

  // ----- ParallelBoundary -----

  /**
   * ParallelBoundary's test at (i, j), an outside pixel next to an inside
   * neighbour.  Its left neighbour is read as mask_it[-1]: for j = 0 that is
   * the element stored just before row i, pre[i], which is no pixel of row i.
   */
  ghost predicate TbbMarks(m: Grid<Byte>, pre: seq<Byte>, rows: nat, cols: nat, i: int, j: int)
    requires IsGrid(m, rows, cols) && |pre| == rows
  {
    if 1 <= i < rows - 1 && 0 <= j < cols - 1 then
      var here := m[i][j];
      var left := if j == 0 then pre[i] else m[i][j - 1];
      || (InOmega(left) && !InOmega(here))
      || (!InOmega(here) && InOmega(m[i][j + 1]))
      || (InOmega(m[i - 1][j]) && !InOmega(here))
      || (!InOmega(here) && InOmega(m[i + 1][j]))
    else false
  }

  /** `*bound_it = 255` when the test holds; everything else keeps its value. */
  ghost function BoundaryRule(m: Grid<Byte>, pre: seq<Byte>, rows: nat, cols: nat): (int, int, Byte) -> Byte
  {
    (a: int, c: int, x: Byte) => if IsGrid(m, rows, cols) && |pre| == rows && TbbMarks(m, pre, rows, cols, a, c) then Mark else x
  }

  /** tbb_make_boundary's result: the zero-filled mat with ParallelBoundary run over rows 1 .. rows - 2. */
  ghost function TbbBoundaryGrid(m: Grid<Byte>, pre: seq<Byte>, rows: nat, cols: nat): (b: Grid<Byte>)
    requires IsGrid(m, rows, cols) && |pre| == rows
    ensures IsGrid(b, rows, cols)
  {
    RowsUpdate(Constant(rows, cols, 0 as Byte), 1, rows - 1, BoundaryRule(m, pre, rows, cols))
  }

  /** What mask_it[-1] reads at j = 0 in compact storage: the last pixel of the previous row. */
  ghost function CompactPre(m: Grid<Byte>, rows: nat, cols: nat): (pre: seq<Byte>)
    requires IsGrid(m, rows, cols)
    ensures |pre| == rows
  {
    seq(rows, i requires 0 <= i < rows => if i >= 1 && cols >= 1 then m[i - 1][cols - 1] else 0)
  }

  /** The corrected test: at j = 0 there is no left neighbour, as if it were outside Ω. */
  ghost function NoPre(rows: nat): (pre: seq<Byte>)
    ensures |pre| == rows
  {
    seq(rows, _ => 0 as Byte)
  }

  /**
   * On interior pixels ParallelBoundary marks exactly what make_boundary
   * marks: the pixels outside Ω with a neighbour inside it, whatever pre holds.
   */
  lemma TbbBoundaryAgreesOnInterior(m: Grid<Byte>, pre: seq<Byte>, rows: nat, cols: nat, a: nat, c: nat)
    requires IsGrid(m, rows, cols) && |pre| == rows && Interior(rows, cols, a, c)
    ensures TbbBoundaryGrid(m, pre, rows, cols)[a][c] == BoundaryGrid(m, rows, cols)[a][c]
    ensures TbbBoundaryGrid(m, pre, rows, cols)[a][c] == Mark <==> !InOmega(m[a][c]) && HasOmegaNeighbour(m, rows, cols, a, c)
  {
  }

  /**
   * The corrected ParallelBoundary, over rows 1 .. rows - 2 and columns
   * 0 .. cols - 2, marks a pixel if and only if it lies outside Ω with a
   * neighbour inside it; it writes only 0 and Mark.
   */
  lemma TbbBoundaryIntendedSound(m: Grid<Byte>, rows: nat, cols: nat, a: nat, c: nat)
    requires IsGrid(m, rows, cols) && a < rows && c < cols
    ensures var b := TbbBoundaryGrid(m, NoPre(rows), rows, cols);
      && (b[a][c] == 0 || b[a][c] == Mark)
      && (b[a][c] == Mark <==> 1 <= a < rows - 1 && c < cols - 1 && !InOmega(m[a][c]) && HasOmegaNeighbour(m, rows, cols, a, c))
  {
    var pre := NoPre(rows);
    var z := Constant(rows, cols, 0 as Byte);
    var b := TbbBoundaryGrid(m, pre, rows, cols);
    assert b == RowsUpdate(z, 1, rows - 1, BoundaryRule(m, pre, rows, cols));
    if 1 <= a < rows - 1 {
      assert b[a][c] == BoundaryRule(m, pre, rows, cols)(a, c, z[a][c]);
      if c < cols - 1 {
        assert pre[a] == 0;
        assert TbbMarks(m, pre, rows, cols, a, c) <==> !InOmega(m[a][c]) && HasOmegaNeighbour(m, rows, cols, a, c);
      } else {
        assert !TbbMarks(m, pre, rows, cols, a, c);
      }
    } else {
      assert b[a] == z[a];
    }
  }

  /**
   * As written, ParallelBoundary at j = 0 tests the element before the row.
   * In a compact 3 x 3 mask whose only Ω pixel is (0, 2), pixel (1, 0) has no
   * neighbour in Ω, yet it is marked because (0, 2) is stored just before it;
   * make_boundary leaves it 0.
   */
  lemma TbbBoundaryReadsPreviousRow()
    ensures var m: Grid<Byte> := [[0, 0, Mark], [0, 0, 0], [0, 0, 0]];
      && IsGrid(m, 3, 3)
      && !HasOmegaNeighbour(m, 3, 3, 1, 0)
      && TbbBoundaryGrid(m, CompactPre(m, 3, 3), 3, 3)[1][0] == Mark
      && BoundaryGrid(m, 3, 3)[1][0] == 0
  {
    var m: Grid<Byte> := [[0, 0, Mark], [0, 0, 0], [0, 0, 0]];
    assert IsGrid(m, 3, 3);
    var pre := CompactPre(m, 3, 3);
    assert pre[1] == Mark;
    assert TbbMarks(m, pre, 3, 3, 1, 0);
    assert TbbBoundaryGrid(m, pre, 3, 3)[1][0] == BoundaryRule(m, pre, 3, 3)(1, 0, 0);
    assert !BoundaryMarked(m, 3, 3, 1, 0);
  }

  // ----- jacobi_iteration, apply_remainder -----

  /** (b_p + src_left + src_right + src_up + src_down) / 4.0, summed in the source's order. */
  function JacobiCell(src: Grid<Vec3>, b: Grid<Vec3>, rows: nat, cols: nat, i: nat, j: nat): Vec3
    requires IsGrid(src, rows, cols) && IsGrid(b, rows, cols) && Interior(rows, cols, i, j)
  {
    Divide(Plus(Plus(Plus(Plus(b[i][j], src[i][j - 1]), src[i][j + 1]), src[i - 1][j]), src[i + 1][j]), 4.0)
  }

  /** One Jacobi sweep into dst: each interior Ω pixel gets JacobiCell, every other pixel of dst keeps its value. */
  ghost function JacobiGrid(src: Grid<Vec3>, b: Grid<Vec3>, mask: Grid<Byte>, dst: Grid<Vec3>, rows: nat, cols: nat)
    : (r: Grid<Vec3>)
    requires IsGrid(src, rows, cols) && IsGrid(b, rows, cols) && IsGrid(mask, rows, cols) && IsGrid(dst, rows, cols)
    ensures IsGrid(r, rows, cols)
    ensures forall a, c :: 0 <= a < rows && 0 <= c < cols ==>
      r[a][c] == if Interior(rows, cols, a, c) && InOmega(mask[a][c]) then JacobiCell(src, b, rows, cols, a, c) else dst[a][c]
  {
    seq(rows, a requires 0 <= a < rows => seq(cols, c requires 0 <= c < cols =>
      if Interior(rows, cols, a, c) && InOmega(mask[a][c]) then JacobiCell(src, b, rows, cols, a, c) else dst[a][c]))
  }

  /** src solves the discrete Poisson equation 4 src_p = b_p + Σ src_q at every interior Ω pixel. */
  ghost predicate SolvesPoisson(src: Grid<Vec3>, b: Grid<Vec3>, mask: Grid<Byte>, rows: nat, cols: nat)
    requires IsGrid(src, rows, cols) && IsGrid(b, rows, cols) && IsGrid(mask, rows, cols)
  {
    forall a, c :: Interior(rows, cols, a, c) && InOmega(mask[a][c]) ==>
      Times(src[a][c], 4.0) == Plus(Plus(Plus(Plus(b[a][c], src[a][c - 1]), src[a][c + 1]), src[a - 1][c]), src[a + 1][c])
  }

  /** A solution of the discrete equation is a fixed point of the sweep. */
  lemma JacobiFixedPoint(src: Grid<Vec3>, b: Grid<Vec3>, mask: Grid<Byte>, rows: nat, cols: nat)
    requires IsGrid(src, rows, cols) && IsGrid(b, rows, cols) && IsGrid(mask, rows, cols)
    requires SolvesPoisson(src, b, mask, rows, cols)
    ensures JacobiGrid(src, b, mask, src, rows, cols) == src
  {
    var r := JacobiGrid(src, b, mask, src, rows, cols);
    forall a, c | 0 <= a < rows && 0 <= c < cols ensures r[a][c] == src[a][c] {
      if Interior(rows, cols, a, c) && InOmega(mask[a][c]) {
        TimesDivideRoundTrip(src[a][c], 4.0);
      }
    }
    GridExt(r, src, rows, cols);
  }

  /** src_left + src_right + src_up + src_down: the plain 4-neighbour sum, with no b and no division. */
  function RemainderCell(src: Grid<Vec3>, rows: nat, cols: nat, i: nat, j: nat): Vec3
    requires IsGrid(src, rows, cols) && Interior(rows, cols, i, j)
  {
    Plus(Plus(Plus(src[i][j - 1], src[i][j + 1]), src[i - 1][j]), src[i + 1][j])
  }

  /** apply_remainder into dst: interior Ω pixels get RemainderCell, every other pixel keeps its value. */
  ghost function RemainderGrid(src: Grid<Vec3>, mask: Grid<Byte>, dst: Grid<Vec3>, rows: nat, cols: nat): (r: Grid<Vec3>)
    requires IsGrid(src, rows, cols) && IsGrid(mask, rows, cols) && IsGrid(dst, rows, cols)
    ensures IsGrid(r, rows, cols)
    ensures forall a, c :: 0 <= a < rows && 0 <= c < cols ==>
      r[a][c] == if Interior(rows, cols, a, c) && InOmega(mask[a][c]) then RemainderCell(src, rows, cols, a, c) else dst[a][c]
  {
    seq(rows, a requires 0 <= a < rows => seq(cols, c requires 0 <= c < cols =>
      if Interior(rows, cols, a, c) && InOmega(mask[a][c]) then RemainderCell(src, rows, cols, a, c) else dst[a][c]))
  }

  /** The Jacobi value is (b_p + remainder_p) / 4: the two stencils share the neighbour sum. */
  lemma JacobiIsRemainderPlusB(src: Grid<Vec3>, b: Grid<Vec3>, rows: nat, cols: nat, i: nat, j: nat)
    requires IsGrid(src, rows, cols) && IsGrid(b, rows, cols) && Interior(rows, cols, i, j)
    ensures JacobiCell(src, b, rows, cols, i, j) == Divide(Plus(b[i][j], RemainderCell(src, rows, cols, i, j)), 4.0)
  {
    var x := Plus(Plus(Plus(Plus(b[i][j], src[i][j - 1]), src[i][j + 1]), src[i - 1][j]), src[i + 1][j]);
    var y := Plus(b[i][j], RemainderCell(src, rows, cols, i, j));
    assert x == y by {
      forall k | 0 <= k < 3 ensures x[k] == y[k] { }
    }
  }

  // ----- copy, apply_mask -----

  /** copy(src, mask, dst): every Ω pixel of dst, frame included, takes src's value; the others keep dst's. */
  ghost function CopyGrid<T>(src: Grid<T>, mask: Grid<Byte>, dst: Grid<T>, rows: nat, cols: nat): (r: Grid<T>)
    requires IsGrid(src, rows, cols) && IsGrid(mask, rows, cols) && IsGrid(dst, rows, cols)
    ensures IsGrid(r, rows, cols)
    ensures forall a, c :: 0 <= a < rows && 0 <= c < cols ==> r[a][c] == if InOmega(mask[a][c]) then src[a][c] else dst[a][c]
  {
    seq(rows, a requires 0 <= a < rows => seq(cols, c requires 0 <= c < cols =>
      if InOmega(mask[a][c]) then src[a][c] else dst[a][c]))
  }

  /** Copying twice is copying once. */
  lemma CopyIdempotent<T>(src: Grid<T>, mask: Grid<Byte>, dst: Grid<T>, rows: nat, cols: nat)
    requires IsGrid(src, rows, cols) && IsGrid(mask, rows, cols) && IsGrid(dst, rows, cols)
    ensures CopyGrid(src, mask, CopyGrid(src, mask, dst, rows, cols), rows, cols) == CopyGrid(src, mask, dst, rows, cols)
  {
    GridExt(CopyGrid(src, mask, CopyGrid(src, mask, dst, rows, cols), rows, cols), CopyGrid(src, mask, dst, rows, cols), rows, cols);
  }

  /** The mask covers the rows x cols window of f read at the same (i, j). */
  ghost predicate Covers(mask: Grid<Byte>, rows: nat, cols: nat)
  {
    rows <= |mask| && forall a :: 0 <= a < rows ==> cols <= |mask[a]|
  }

  /**
   * apply_mask(mask, f): every pixel of f whose mask value is below 128 becomes
   * the value-initialised zero; the others keep their value.
   */
  ghost function MaskGrid<T>(mask: Grid<Byte>, f: Grid<T>, rows: nat, cols: nat, zero: T): (r: Grid<T>)
    requires Covers(mask, rows, cols) && IsGrid(f, rows, cols)
    ensures IsGrid(r, rows, cols)
    ensures forall a, c :: 0 <= a < rows && 0 <= c < cols ==> r[a][c] == if InOmega(mask[a][c]) then f[a][c] else zero
  {
    seq(rows, a requires 0 <= a < rows => seq(cols, c requires 0 <= c < cols =>
      if InOmega(mask[a][c]) then f[a][c] else zero))
  }

  /** Every pixel outside Ω holds zero. */
  ghost predicate ZeroOutside<T>(mask: Grid<Byte>, f: Grid<T>, rows: nat, cols: nat, zero: T)
    requires Covers(mask, rows, cols) && IsGrid(f, rows, cols)
  {
    forall a, c :: 0 <= a < rows && 0 <= c < cols && !InOmega(mask[a][c]) ==> f[a][c] == zero
  }

  /** Masking leaves zero outside Ω, and a field that is zero outside Ω is its own masking: masking is idempotent. */
  lemma MaskGridZeroOutside<T>(mask: Grid<Byte>, f: Grid<T>, rows: nat, cols: nat, zero: T)
    requires Covers(mask, rows, cols) && IsGrid(f, rows, cols)
    ensures ZeroOutside(mask, MaskGrid(mask, f, rows, cols, zero), rows, cols, zero)
    ensures ZeroOutside(mask, f, rows, cols, zero) <==> MaskGrid(mask, f, rows, cols, zero) == f
    ensures MaskGrid(mask, MaskGrid(mask, f, rows, cols, zero), rows, cols, zero) == MaskGrid(mask, f, rows, cols, zero)
  {
    var m := MaskGrid(mask, f, rows, cols, zero);
    if ZeroOutside(mask, f, rows, cols, zero) {
      GridExt(m, f, rows, cols);
    }
    GridExt(MaskGrid(mask, m, rows, cols, zero), m, rows, cols);
  }

  /** A sweep writes only interior Ω pixels, so it keeps dst zero outside Ω. */
  lemma JacobiKeepsZeroOutside(src: Grid<Vec3>, b: Grid<Vec3>, mask: Grid<Byte>, dst: Grid<Vec3>, rows: nat, cols: nat)
    requires IsGrid(src, rows, cols) && IsGrid(b, rows, cols) && IsGrid(mask, rows, cols) && IsGrid(dst, rows, cols)
    requires ZeroOutside(mask, dst, rows, cols, Zero3)
    ensures ZeroOutside(mask, JacobiGrid(src, b, mask, dst, rows, cols), rows, cols, Zero3)
  {
  }
}
