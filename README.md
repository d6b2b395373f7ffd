# Poisson image editing: a verified model of the stencil core

This project models the core of a gradient-domain ("Poisson image editing")
solver that seamlessly clones a masked region of a source image into a
destination image. The region Ω is the set of pixels whose mask value is at
least 128. The solver works in these stages:

1. It builds the boundary map of Ω: a 0/255 byte grid that `make_boundary`
   and the tbb `ParallelBoundary` functor compute.
2. It computes the guidance field `b` from the source gradients plus the
   destination values pushed in from the boundary. There are four variants:
   - `make_guidance`, the plain push form;
   - `ParallelGuidance`, the pull form;
   - `make_guidance2`, mixing by `std::max`;
   - `tbb_make_guidance_mixed_gradient`, mixing by norm.
3. It masks `b` and the destination `f`, and clears the scratch buffer `g`.
4. It runs exactly 200 Jacobi passes, swapping `f` and `g` after each.
5. It copies the Ω pixels of the last iterate into the output image.

These stages rest on three small libraries, which are modelled too:
- the strided containers `gil::mat` and `gil::mat_view`;
- the fixed-size vectors of `gil::vec`;
- the clamp `saturate`.

The model has one Dafny module per source file:

| module | file | models |
|---|---|---|
| `Algorithm` | `algorithm.dfy` | acier/algorithm.hpp: `saturate` and the 8-bit clamp, as functions |
| `Vec` | `vec.dfy` | gil/vec.hpp (see below) |
| `Grids` | `grids.dfy` | the pure side of gil/mat.hpp (see below) |
| `Mat` | `mat.dfy` | gil/mat.hpp as classes `MatView<T>` and `Mat<T>` (see below) |
| `PoissonSpec` | `poisson_spec.dfy` | the per-pixel rules of every stage, as ghost functions on grids, and the lemmas about them |
| `PoissonSerial` | `poisson_serial.dfy` | poisson_serial.cpp and poisson_serial.hpp (see below) |
| `PoissonTbb` | `poisson_tbb.dfy` | poisson_tbb.cpp (see below) |
| `Pipeline` | `pipeline.dfy` | the solve sequence of main.cpp (see below) |

More on the modules the table marks "see below":

- **`Vec`.** A pixel is a sequence of three reals. The value-building operators are functions. `apply` and `norm2` are loops. The in-place operators are loops on an `array<real>`.
- **`Grids`.** It holds the strided offset `stride * i + j` and the abstract value of a view (`ViewOf`). It also holds the row-major scan bookkeeping (`Progress`) used to prove the nested loops, and the row-block algebra (`RowsUpdate`, `RunBlocks`) used for the tbb functors.
- **`Mat`.** Both classes sit over an `array`. A view's abstract value is `Elems()`. Every method that writes through a view states its new `Elems()` and that the buffer outside the view is unchanged (`SameOutside`); so do the per-cell helpers of `PoissonSerial`. A `Mat`'s storage holds exactly its rows * cols elements, so its `Apply` and `Fill` state the whole new storage through `Elems()`.
- **`PoissonSerial`.** Each nested row/column loop is a method over mat views. It is proved to produce its `PoissonSpec` rule.
- **`PoissonTbb`.** `ParallelBoundary` and `ParallelGuidance` are modelled as the classes `BoundaryFunctor` and `GuidanceFunctor`:
  - `Run(lo, hi)` is `operator()(range)`;
  - `parallel_for` is `ForBlocks(cuts)`, a sequential fold over a partition of the rows that the caller chooses.
- **`Pipeline`.** The two ping-pong buffers are the datatype `Buffers`. `Passes(n, ...)` is the state after `n` passes.

Pixel arithmetic is exact (`real`). Mask and boundary bytes are `int`s in
[0, 256).

A transition between Ω and its outside could be marked on both sides;
poisson_serial.cpp:13-20 and poisson_tbb.cpp:25-28 mark only the pixel
outside Ω, and the model follows the code.

## Model

| member | source | states |
|---|---|---|
| Algorithm.StdMax | acier/algorithm.hpp:7 | `std::max(a, b)` is one of its arguments and at least both |
| Algorithm.StdMin | acier/algorithm.hpp:7 | `std::min(a, b)` is one of its arguments and at most both |
| Algorithm.Saturate | acier/algorithm.hpp:5-8 | `saturate(val, lo, hi)` is `hi` when `hi < lo`, otherwise `val` clamped to [lo, hi]; it lies in [lo, hi] when lo <= hi, and a value already in range is returned unchanged |
| Algorithm.SaturateIdempotent | acier/algorithm.hpp:7 | clamping twice equals clamping once |
| Algorithm.SaturateToByte | acier/algorithm.hpp:10-13 | `saturate<uint8_t>` clamps to [0, 255] and truncates: 0 at or below 0, 255 at or above 255, otherwise the floor of the value |
| Algorithm.SaturateToByteKeepsBytes | acier/algorithm.hpp:10-13 | an integral value in [0, 255] passes through unchanged |
| Vec.Apply | gil/vec.hpp:27-36 | `apply(a, fcn)` returns a vector of a's length whose k-th component is fcn(a[k]) |
| Vec.Apply2 | gil/vec.hpp:38-48 | `apply(a, b, fcn)` returns a vector whose k-th component is fcn(a[k], b[k]) |
| Vec.Plus | gil/vec.hpp:86-89 | `a + b` has a's length and k-th component a[k] + b[k] |
| Vec.Minus | gil/vec.hpp:97-100 | `a - b` has a's length and k-th component a[k] - b[k] |
| Vec.PlusScalar | gil/vec.hpp:91-95 | `a + s` for a scalar s has a's length and k-th component a[k] + s |
| Vec.MinusScalar | gil/vec.hpp:102-106 | `a - s` for a scalar s has a's length and k-th component a[k] - s |
| Vec.Times | gil/vec.hpp:134-143 | `a * s` (and `s * a`, which is defined as `a * s`) has a's length and k-th component a[k] * s |
| Vec.Divide | gil/vec.hpp:152-156 | `a / s` for s != 0 has a's length and k-th component a[k] / s |
| Vec.PlusByApply | gil/vec.hpp:86-89 | binary + through `apply` is the componentwise sum `Plus` |
| Vec.MinusByApply | gil/vec.hpp:97-100 | binary - through `apply` is the componentwise difference `Minus` |
| Vec.MinusPlusRoundTrip | gil/vec.hpp:86-100 | (a - b) + b == a and (a + b) - b == a |
| Vec.PlusCommutes | gil/vec.hpp:86-89 | a + b == b + a |
| Vec.PlusAssociates | gil/vec.hpp:86-89 | (a + b) + c == a + (b + c), so accumulation order does not matter |
| Vec.PlusZero | gil/vec.hpp:86-89 | the value-initialised vector {} is neutral for + on both sides |
| Vec.ScalarIsBroadcast | gil/vec.hpp:91-106 | a + s and a - s for a scalar s equal + and - with the vector (s, ..., s) |
| Vec.TimesDivideRoundTrip | gil/vec.hpp:134-156 | (a * s) / s == a for s != 0 |
| Vec.Norm2 | gil/vec.hpp:67-74 | the accumulator loop returns the sum of squares of the components, which is >= 0 |
| Vec.SumSquares | gil/vec.hpp:67-74 | the value norm2 computes, the sum of the squared components, is never negative |
| Vec.SumSquares3 | gil/vec.hpp:67-74 | for a 3-vector, norm2 is v0² + v1² + v2² |
| Vec.LessIsStrictWeakOrder | gil/vec.hpp:76-79 | `<` by norm2 is irreflexive, asymmetric and transitive, and incomparability (equal norm2) is transitive, so it is a strict weak order as `std::max` requires |
| Vec.GreaterIsNotStrict | gil/vec.hpp:81-84 | `a > b`, written `!(b < a)`, holds exactly when norm2(a) <= norm2(b); a > a always holds |
| Vec.GreaterAsWrittenDisagrees | gil/vec.hpp:83 | for a = (0) and b = (1), both a < b and a > b hold as written, while the intended a > b fails |
| Vec.GreaterIntendedTrichotomy | gil/vec.hpp:81-84 | the intended `a > b` (that is, b < a) excludes a < b and b > a, and a pair is neither < nor > exactly when the norm2 values are equal |
| Vec.MaxByNorm | gil/vec.hpp:76-79 | `std::max` under that `<` returns b exactly when norm2(a) < norm2(b), so a tie keeps a |
| Vec.SaturateCast | gil/vec.hpp:165-168 | `saturate_cast<uint8_t>` applies the byte clamp to each component independently |
| Vec.PlusAssign | gil/vec.hpp:108-112 | `a += b` updates a in place to the componentwise sum |
| Vec.PlusAssignScalar | gil/vec.hpp:114-119 | `a += s` adds s to every component in place |
| Vec.MinusAssign | gil/vec.hpp:121-125 | `a -= b` updates a in place to the componentwise difference |
| Vec.MinusAssignScalar | gil/vec.hpp:127-132 | `a -= s` subtracts s from every component in place |
| Vec.DivideAssign | gil/vec.hpp:158-163 | `a /= s` divides every component by s in place |
| Vec.TimesAssign | gil/vec.hpp:145-150 | `a *= s` as written leaves a unchanged |
| Vec.TimesAssignIntended | gil/vec.hpp:145-150 | `a *= s` with the assigning functor scales every component by s |
| Vec.TimesAssignDisagrees | gil/vec.hpp:145-150 | on (1) scaled by 2, the as-written and intended `*=` give (1) and (2) |
| Grids.OffsetInBounds | gil/mat.hpp:53-54 | every element (i, j) of a view that fits its buffer lies at an index inside the buffer |
| Grids.OffsetInjective | gil/mat.hpp:53-54 | two positions with column below the stride have the same offset `stride * i + j` only when they are the same position |
| Grids.ViewOfUpdate | gil/mat.hpp:53-54 | writing the buffer at a view element's offset changes exactly that cell of the view's grid |
| Grids.SubViewOf | gil/mat.hpp:145-147 | the sub-view {r0, c0, h, w} fits the buffer, and its element (i, j) is the parent's element (r0 + i, c0 + j) |
| Grids.CompactFits | gil/mat.hpp:95-98 | compact storage of rows * cols elements with stride cols holds a rows x cols view |
| Grids.ConstantBufferView | gil/mat.hpp:95-98 | a compact buffer holding `value` everywhere reads back as the constant grid |
| Grids.FlattenViewOf | gil/mat.hpp:109-118 | the rows of a grid laid end to end, read as compact storage, give the same grid back |
| Grids.RowsUpdateConcat | poisson_tbb.cpp:21 | processing rows [lo, mid) and then [mid, hi) equals processing [lo, hi) |
| Grids.RowsUpdateCommute | poisson_tbb.cpp:20-33 | two disjoint row blocks can be processed in either order |
| Grids.RunBlocksIsOneScan | poisson_tbb.cpp:50 | running a row functor block by block over any partition equals one scan of the whole range |
| Mat.MatView.constructor | gil/mat.hpp:20-24 | `mat_view(size, stride, data)` stores the extent, stride and data pointer it is given |
| Mat.MatView.RowSpan | gil/mat.hpp:53-56 | [row_begin(i), row_end(i)) spans exactly cols elements inside the buffer, and they are row i of the view |
| Mat.MatView.At | gil/mat.hpp:53 | the element at offset stride * i + j from the view's start is cell (i, j) of its grid |
| Mat.MatView.Set | gil/mat.hpp:53-54 | writing element (i, j) changes that cell of the grid and nothing else in the buffer |
| Mat.MatView.Apply | gil/mat.hpp:60-67 | `apply(fcn)` replaces every element x of the rows x cols view with fcn(x) and touches nothing outside the view |
| Mat.MatView.Fill | gil/mat.hpp:41-44 | `operator=(value)` makes every element of the view `value` and touches nothing outside it |
| Mat.MatView.Assign | gil/mat.hpp:33-40 | the element-copying `operator=(mat_view<U>)` with equal sizes makes every (i, j) equal the source's and leaves the buffer outside the view untouched; in C++ this template runs only for U != T (a const view, say), since a same-type assignment is the implicit copy assignment, which rebinds the view as Swap's field exchange does |
| Mat.MatView.Swap | gil/mat.hpp:69-74 | `swap` exchanges extents, stride and data pointer of the two views |
| Mat.SwapViewsTwice | gil/mat.hpp:69-74 | swapping two views twice restores both |
| Mat.Mat.At | gil/mat.hpp:152-153 | element (i, j) of a mat is at offset cols * i + j in its storage |
| Mat.Mat.Filled | gil/mat.hpp:95-98 | `mat(size, value)` has the given extent and holds `value` in all rows * cols elements |
| Mat.Mat.FromView | gil/mat.hpp:109-118 | `mat(mat_view)` copies the view row by row into fresh compact storage; the result equals the view at every (i, j) |
| Mat.Mat.View | gil/mat.hpp:134-136 | the view conversion shows the same grid over the same storage, with stride cols |
| Mat.Mat.Sub | gil/mat.hpp:145-147 | `m[{r0, c0, h, w}]` is an h x w view with the mat's stride whose (i, j) is m(r0 + i, c0 + j) |
| Mat.Mat.Apply | gil/mat.hpp:162-169 | `apply(fcn)` replaces every element x with fcn(x) |
| Mat.Mat.Fill | gil/mat.hpp:126-129 | `operator=(value)` makes every element `value` |
| Mat.Mat.Swap | gil/mat.hpp:171-175 | `swap` exchanges extents and storage, copying no element |
| Mat.SwapMatsTwice | gil/mat.hpp:171-175 | swapping two mats twice restores both |
| Mat.ForEach | gil/mat.hpp:183-193 | `for_each(a, b, fcn)` on views of equal size sets each a(i, j) to fcn(a(i, j), b(i, j)) and touches nothing outside a |
| Mat.PlusAssign | gil/mat.hpp:195-199 | view `+=` view is `for_each` with `plus_assign`: a's new grid is the componentwise sum of its old grid and b's, every a(i, j) gains b(i, j), and the buffer outside a is unchanged |
| Mat.MinusAssign | gil/mat.hpp:220-224 | view `-=` view is `for_each` with `minus_assign`: a's new grid is the componentwise difference of its old grid and b's, every a(i, j) loses b(i, j), and the buffer outside a is unchanged |
| PoissonSpec.BoundaryBeforeStart | poisson_serial.cpp:6 | before the first iteration the boundary map is the zero-filled mat |
| PoissonSpec.BoundaryStepAdvances | poisson_serial.cpp:13-20 | the four tests of iteration (i, j) turn the map built so far into the map after (i, j) |
| PoissonSpec.BoundaryNextRow | poisson_serial.cpp:9-12 | the end of one row of iterations is the start of the next |
| PoissonSpec.BoundaryDone | poisson_serial.cpp:9 | after the last row of iterations the map is the boundary grid |
| PoissonSpec.BoundarySound | poisson_serial.cpp:13-20 | the boundary map holds only 0 and 255; a marked pixel is outside Ω with a 4-neighbour in Ω; no Ω pixel is marked |
| PoissonSpec.BoundaryMarksExaminedPairs | poisson_serial.cpp:9-20 | in every straddling horizontal pair with row <= rows-2 and every vertical pair with column <= cols-2, the outside pixel is marked |
| PoissonSpec.BoundaryLastRowAndColumn | poisson_serial.cpp:9-20 | for every mask, a pixel of the last row is marked iff it is outside Ω, not in the last column, and the pixel above it is in Ω; a pixel of the last column likewise with its left neighbour; so a transition along the last row or column is never marked |
| PoissonSpec.BoundaryMissesLastRowAndColumn | poisson_serial.cpp:9-12 | two instances of BoundaryLastRowAndColumn: 2 x 2 masks where an outside pixel of the last row or column with an Ω neighbour in that row or column stays 0 |
| PoissonSpec.NormPick | poisson_tbb.cpp:167 | the source gradient a only when norm2(a) > norm2(b); on a tie the destination gradient b |
| PoissonSpec.AddAt | poisson_serial.cpp:47-50 | one `dst_it[...] += v` adds v at that cell and leaves every other cell alone |
| PoissonSpec.GuidanceStep | poisson_serial.cpp:43-51 | after the body at (i, j), a cell gains the own update when it is the Ω pixel (i, j), and f_ij when (i, j) is a boundary pixel and the cell is one of its four neighbours |
| PoissonSpec.PushedCellAdvances | poisson_serial.cpp:43-51 | running iteration (i, j) moves every cell of the partial guidance field one iteration on |
| PoissonSpec.PushedSelfAdvances | poisson_serial.cpp:43-45 | the same, at (i, j) itself, which adds its own update after the pushes it already received |
| PoissonSpec.PushedNeighbourAdvances | poisson_serial.cpp:46-51 | the same, at the four neighbours, which receive f_ij when (i, j) is a boundary pixel |
| PoissonSpec.PushedRowNeighbourAdvances | poisson_serial.cpp:47-48 | the same, at the left and right neighbours |
| PoissonSpec.PushedColumnNeighbourAdvances | poisson_serial.cpp:49-50 | the same, at the upper and lower neighbours |
| PoissonSpec.PushedFarAdvances | poisson_serial.cpp:42-52 | the same, at every other cell, which iteration (i, j) leaves alone |
| PoissonSpec.GuidanceStart | poisson_serial.cpp:33 | before the first interior iteration the field is the zero-filled mat |
| PoissonSpec.GuidanceStepAdvances | poisson_serial.cpp:42-52 | running interior iteration (i, j) moves the whole partial field one iteration on |
| PoissonSpec.GuidanceSkip | poisson_serial.cpp:36-42 | scan positions with the same interior iterations behind them describe the same field |
| PoissonSpec.AddInjectionDone | poisson_serial.cpp:46-51 | once the scan is over, a push from (p, q) happened exactly when (p, q) is an interior boundary pixel |
| PoissonSpec.GuidanceClosedForm | poisson_serial.cpp:33-53 | make_guidance at an interior Ω pixel is 4 g_p - Σ g_q plus Σ f_q over interior boundary neighbours q; at every other pixel it is that injection sum alone |
| PoissonSpec.MaxMixedSameFieldsIsPlain | poisson_serial.cpp:76-79 | with the right term corrected, the make_guidance2 rule on f == g is the plain Laplacian rule |
| PoissonSpec.MaxMixedRightTermAsWritten | poisson_serial.cpp:77 | as written the right term pairs g_p - g_right with f_p - f_left: on a 3 x 3 field it gives (-2, 0, 0) where the corrected and plain rules give (-1, 0, 0) |
| PoissonSpec.MixedRulesBreakTiesApart | poisson_tbb.cpp:157-169 | on a tie of norm2, make_guidance2 keeps the source gradient and the tbb mixed-gradient rule takes the destination gradient, giving different values |
| PoissonSpec.PullClosedForm | poisson_tbb.cpp:85-106 | the pull form adds, at an interior pixel, the Ω source term plus Σ f_q over the neighbours q the boundary map marks; the frame stays zero |
| PoissonSpec.PullAgreesWithPush | poisson_tbb.cpp:85-106 | the pull form equals make_guidance at every pixel whose four neighbours are interior (2 <= i <= rows-3, 2 <= j <= cols-3) |
| PoissonSpec.PullDiffersNextToFrame | poisson_tbb.cpp:93-104 | next to the frame they differ: a marked frame pixel is pulled but never pushed (a 3 x 3 example) |
| PoissonSpec.TbbBoundaryAgreesOnInterior | poisson_tbb.cpp:25-28 | on interior pixels ParallelBoundary marks exactly what make_boundary marks: the pixels outside Ω with a neighbour in Ω |
| PoissonSpec.TbbBoundaryIntendedSound | poisson_tbb.cpp:24-30 | with no left neighbour tested at j = 0, ParallelBoundary over rows 1..rows-2 and columns 0..cols-2 writes only 0 and 255 and marks a pixel iff it is outside Ω with a neighbour in Ω |
| PoissonSpec.TbbBoundaryReadsPreviousRow | poisson_tbb.cpp:25 | as written, at j = 0 the test reads the last pixel of the previous row: a 3 x 3 mask where (1, 0) is marked with no Ω neighbour |
| PoissonSpec.JacobiFixedPoint | poisson_serial.cpp:107 | a src with 4 src_p = b_p + Σ src_q at every interior Ω pixel is unchanged by a sweep into dst == src |
| PoissonSpec.JacobiIsRemainderPlusB | poisson_serial.cpp:107-123 | the Jacobi value is (b_p + remainder_p) / 4, remainder_p being apply_remainder's neighbour sum |
| PoissonSpec.CopyIdempotent | poisson_serial.cpp:135-144 | copying twice equals copying once |
| PoissonSpec.MaskGridZeroOutside | poisson_serial.hpp:44-52 | masking leaves every non-Ω pixel zero; a field is its own masking iff it is already zero outside Ω; masking is idempotent |
| PoissonSpec.JacobiKeepsZeroOutside | poisson_serial.cpp:106 | a sweep into a dst that is zero outside Ω keeps it zero outside Ω |
| PoissonSerial.MakeBoundary | poisson_serial.cpp:5-24 | make_boundary returns a fresh mat of the mask's extent equal to the boundary grid (the cells some iteration marks are 255, all others 0) |
| PoissonSerial.BoundaryRow | poisson_serial.cpp:12-21 | one row of iterations j = 0..cols-2 moves the map from the start of row i to the start of row i + 1 |
| PoissonSerial.BoundaryTests | poisson_serial.cpp:13-20 | the loop body at (i, j) applies the four tests, in order, to the map |
| PoissonSerial.RightTestsAt | poisson_serial.cpp:13-16 | the first two tests, on the pixel and its right neighbour |
| PoissonSerial.BelowTestsAt | poisson_serial.cpp:17-20 | the last two tests, on the pixel and its lower neighbour |
| PoissonSerial.MarkWhere | poisson_serial.cpp:13-14 | `*bound_it = 255` under its test: the cell is marked iff the test holds |
| PoissonSerial.PushGuidance | poisson_serial.cpp:33-54 | the push scan returns a fresh mat of the mask's extent equal to the guidance grid of the given Ω rule |
| PoissonSerial.GuidanceRow | poisson_serial.cpp:42-52 | one row j = 1..cols-2 moves the partial field from row i to row i + 1 |
| PoissonSerial.GuidanceBody | poisson_serial.cpp:43-51 | the loop body at interior (i, j) is the own update followed by the four pushes |
| PoissonSerial.OwnPart | poisson_serial.cpp:43-45 | an Ω pixel adds its rule's update to its own value; a non-Ω pixel changes nothing |
| PoissonSerial.PushPart | poisson_serial.cpp:46-51 | a boundary pixel adds f_p to its left, right, upper and lower neighbour, in that order; otherwise nothing changes |
| PoissonSerial.PushNeighbours | poisson_serial.cpp:47-50 | the four `+=` statements add v at the left, right, upper and lower neighbour and write nothing outside the view |
| PoissonSerial.AddTo | poisson_serial.cpp:47 | `dst(a, c) += v` adds v at that cell only |
| PoissonSerial.SelfTerm | poisson_serial.cpp:75-80 | the `*dst_it += ...` statements of an Ω pixel for each variant (plain Laplacian, make_guidance2 as written and corrected, the tbb norm rule with its k loop): the result is the variant's update of x |
| PoissonSerial.GradsAt | poisson_tbb.cpp:157-164 | the v table row for one field: the gradients p - left, p - right, p - up, p - down |
| PoissonSerial.MakeGuidance | poisson_serial.cpp:26-55 | make_guidance returns the plain guidance grid (whose closed form is GuidanceClosedForm) |
| PoissonSerial.MakeGuidance2 | poisson_serial.cpp:57-90 | make_guidance2 as written returns the guidance grid whose Ω rule uses f_p - f_left in its right term |
| PoissonSerial.MakeGuidance2Intended | poisson_serial.cpp:57-90 | make_guidance2 with the right term f_p - f_right returns the corrected max-mixed guidance grid |
| PoissonSerial.JacobiIteration | poisson_serial.cpp:92-111 | each interior Ω pixel of dst becomes (b_p + Σ src_q) / 4; every other pixel of dst, and the rest of its buffer, is unchanged; src, b and mask are only read; tbb_jacobi_iteration (poisson_tbb.cpp:191-215) has the same text, so this row covers it too |
| PoissonSerial.JacobiRow | poisson_serial.cpp:104-109 | one row of the sweep moves the scan from (i, 1) to (i + 1, 1) |
| PoissonSerial.ApplyRemainder | poisson_serial.cpp:113-127 | each interior Ω pixel of dst becomes the plain 4-neighbour sum of src, with no b and no division; all else unchanged |
| PoissonSerial.RemainderRow | poisson_serial.cpp:120-125 | one row of apply_remainder moves the scan one row on |
| PoissonSerial.Copy | poisson_serial.cpp:129-145 | every Ω pixel of dst, frame included, takes src's value; the others and the rest of the buffer are unchanged; tbb_copy for vec3f (poisson_tbb.cpp:222-238) has the same text, so this row covers it too |
| PoissonSerial.CopyRow | poisson_serial.cpp:136-143 | one row of copy moves the scan one row on |
| PoissonSerial.ApplyMask | poisson_serial.hpp:42-53 | over f's rows x cols positions, reading the mask at the same (i, j), every pixel with mask < 128 becomes zero and every other pixel keeps its value; tbb_apply_mask (poisson_tbb.hpp:33-44) has the same text, so it gives the same result on every input |
| PoissonTbb.CompactStoredBefore | poisson_tbb.cpp:25 | in compact storage the element read as mask_it[-1] at j = 0 is the last pixel of the previous row |
| PoissonTbb.BoundaryFunctor.constructor | poisson_tbb.cpp:15-18 | the functor keeps the mask view and the boundary view it is given |
| PoissonTbb.BoundaryFunctor.Test | poisson_tbb.cpp:25-28 | the test at (i, j) reads the element stored before the pixel, the right, upper and lower neighbours, and holds iff the pixel is outside Ω and one of them is in Ω |
| PoissonTbb.BoundaryFunctor.Cell | poisson_tbb.cpp:25-30 | the loop body at (i, j) writes 255 where the test holds and moves the row scan one cell on, touching nothing outside the view |
| PoissonTbb.BoundaryFunctor.Row | poisson_tbb.cpp:22-31 | one row j = 0..cols-2 updates exactly row i by the functor's rule |
| PoissonTbb.BoundaryFunctor.Run | poisson_tbb.cpp:20-33 | `operator()(range)` updates exactly the rows lo..hi-1 by the rule and writes nothing else |
| PoissonTbb.BoundaryFunctor.ForBlocks | poisson_tbb.cpp:50 | parallel_for over any partition of the rows gives the same grid as one scan of the whole range |
| PoissonTbb.TbbMakeBoundary | poisson_tbb.cpp:47-52 | tbb_make_boundary returns a fresh mat equal to the zero-filled mat with ParallelBoundary run over rows 1..rows-2 |
| PoissonTbb.GuidanceFunctor.constructor | poisson_tbb.cpp:69-75 | the functor keeps the five views it is given |
| PoissonTbb.GuidanceFunctor.Temp | poisson_tbb.cpp:85-104 | temp is the Ω source term, then f_q added for each neighbour q marked in the boundary map, in the order left, right, up, down |
| PoissonTbb.GuidanceFunctor.Cell | poisson_tbb.cpp:106 | `*guidance_it += temp` moves the row scan one cell on, touching nothing outside the view |
| PoissonTbb.GuidanceFunctor.Row | poisson_tbb.cpp:79-107 | one row j = 1..cols-2 updates exactly row i by the pull rule |
| PoissonTbb.GuidanceFunctor.Run | poisson_tbb.cpp:77-109 | `operator()(range)` updates exactly the rows lo..hi-1 by the pull rule and writes nothing else |
| PoissonTbb.GuidanceFunctor.ForBlocks | poisson_tbb.cpp:125 | parallel_for over any partition of the rows gives the same grid as one scan of the whole range |
| PoissonTbb.TbbMakeGuidance | poisson_tbb.cpp:116-127 | tbb_make_guidance returns a fresh mat equal to the pull-form guidance grid over rows 1..rows-2 |
| PoissonTbb.TbbMakeGuidanceMixedGradient | poisson_tbb.cpp:136-182 | the push scan whose Ω pixels add, per direction, the source gradient only when its norm2 is strictly larger, using the right neighbour f_it[1] |
| Pipeline.PassesKeepZeroOutside | main.cpp:22-27 | if both buffers are zero outside Ω, they stay so through any number of passes |
| Pipeline.PassesStayAtSolution | main.cpp:25-28 | once both buffers hold a solution of the discrete equation, further passes change nothing |
| Pipeline.RightHandSide | main.cpp:21-22 | the masked guidance field b is zero outside Ω |
| Pipeline.StartBuffers | main.cpp:23-24 | after masking f and clearing g, both buffers are zero outside Ω |
| Pipeline.BuildRightHandSide | main.cpp:21-22 | the guidance of f and g with the boundary of the mask, masked to Ω, in a fresh mat |
| Pipeline.Prepare | main.cpp:21-24 | b is built from the original f and g; then f is masked and g is cleared |
| Pipeline.PassOnce | main.cpp:26-27 | a pass writes the sweep of f into g and swaps the two mats: the storages trade places with no copy, and f holds the newest iterate |
| Pipeline.RunPasses | main.cpp:25-28 | n passes leave the buffers equal to Passes(n) of the initial ones; the storages are the originals or swapped |
| Pipeline.CopyOut | main.cpp:33 | the final copy changes only the Ω pixels of the output image, which take f's values |
| Pipeline.Solve | main.cpp:21-33 | the stages in order end with f and g equal to 200 passes from the masked start with the masked guidance as b; both are zero outside Ω; the output differs from its old value only at Ω pixels, which hold f's |

## Left out

- Floating point: pixel components are exact `real`s, so no rounding, overflow or NaN is modelled.
- TBB scheduling: `parallel_for` is a sequential fold over a partition of the rows that the caller chooses; threads, work stealing and the grain size are not modelled.
- I/O and timing: the image loads and the save (main.cpp:13-15 and 34-35), the chrono timing and the console output (main.cpp:20 and 29-31) are left out. gil/image_file.hpp is not part of this model.
- Pipeline.Solve: the conversions from `vec3b` to `vec3f` (main.cpp:17-18) and back (main.cpp:33) are left out; the output image is a `vec3f` mat.
- PoissonTbb.TbbMakeBoundary: it dispatches rows 1..rows-2, not rows 0..rows-2 as poisson_tbb.cpp:50 does. At row 0 the test reads `mask_it[-mask_step_]`, one row before the buffer, which has no value to model.
- PoissonTbb.TbbMakeGuidance: it dispatches rows 1..rows-2, not the rows 0..rows-1 of poisson_tbb.cpp:125, for the same reason. At rows 0 and rows-1 the stencil reads row -1 and row rows, outside the image.
- PoissonSerial.JacobiIteration: requires dst's buffer to differ from src's and b's. An aliased call would read values the sweep has already overwritten; the source never makes one.
- PoissonSerial.ApplyRemainder: requires dst's buffer to differ from src's, for the same reason.
- PoissonSerial.Copy: requires dst's buffer to differ from src's; views sharing a buffer (identical ones, or ones with different start or stride that overlap) are not modelled.
- PoissonSerial.ApplyMask: requires the mask's buffer to differ from f's; the element types differ in every call of the source.
- Mat.ForEach: requires a's buffer to differ from b's; aliased views are not modelled.
- Mat.MatView.Assign: requires the two buffers to differ; overlapping copies are not modelled.
- Mat.PlusAssign: only for views of `vec3f` pixels, the one element type the core uses; the scalar overloads of mat `+=` (gil/mat.hpp:207-218) are left out.
- Mat.MinusAssign: only for views of `vec3f` pixels; the scalar overloads of mat `-=` (gil/mat.hpp:232-243) are left out.
- Mat.Mat.FromView: copies a view of the same element type; the converting template for `mat_view<U>` with U != T is not modelled.
- Vec.Divide: requires s != 0, as does Vec.DivideAssign; a floating-point division by zero (an infinity or NaN) has no `real` counterpart. The only division of the core is by 4.
- Vec.PlusAssign: works on an `array<real>` of any length rather than on `vec<T, N>`, with no mixed element types. The same applies to Vec.MinusAssign, Vec.PlusAssignScalar, Vec.MinusAssignScalar, Vec.DivideAssign and Vec.TimesAssign.
- PoissonSerial.MakeBoundary: requires rows >= 1 and cols >= 1, since `rows() - 1` and `cols() - 1` are unsigned and wrap at 0. The other stages carry the same precondition where the source subtracts 1 from a size.
- The stride fields (`mask_step`, `f_step_` and the like) are not stored: the model reads neighbours through the views' own strides, which is what those fields hold.
- The vec4f `copy` and `tbb_copy` overloads (poisson_serial.cpp:147-163, poisson_tbb.cpp:245-261): they assign a 3-component saturated vector to a 4-component one, a conversion gil/vec.hpp does not define.
- `mat::row_cbegin` and `row_cend` (gil/mat.hpp:156-157), which call themselves, and the const `mat::operator[]` (gil/mat.hpp:148-150), which passes four values to a three-argument constructor.
- The raw-byte constructor `mat(size, pitch, data)` (gil/mat.hpp:99-108), which relies on `reinterpret_cast`.
- The `mat` overloads of `+=` and `-=` (gil/mat.hpp:201-205, 226-230) are the view operators applied through the view conversion, so they are not modelled separately.
- `make_guidance_mixed_gradient` and `make_guidance_mixed_gradient_avg`: they are declared in poisson_serial.hpp but defined in no file of this source tree.
- The OpenCL binding under cl/, MaskMaker.py, and acier/operators.hpp, acier/type_traits.hpp and acier/compressed_member.hpp are not part of this model. The effects of `assign`, `plus_assign` and `multiplies` are inlined where the core uses them.
- The corrected ParallelBoundary exists only as the grid rule of PoissonSpec.TbbBoundaryIntendedSound; no corrected functor class is written.

## Findings

| source | as written | input that shows it | evidently intended | confidence | as-written member | corrected member |
|---|---|---|---|---|---|---|
| poisson_serial.cpp:77 | make_guidance2's right-neighbour term compares g_p - g_right with f_p - f_left | f == g, zero except (1, 0) = (1, 0, 0), 3 x 3, pixel (1, 1): the result is (-2, 0, 0) | compare with f_p - f_right, giving (-1, 0, 0), which is the plain Laplacian when f == g | not executed | PoissonSpec.MaxMixedRightTermAsWritten | PoissonSpec.MaxMixedSameFieldsIsPlain |
| gil/vec.hpp:83 | `operator>` returns `!(b < a)`, which holds when norm2(a) <= norm2(b) | a = (0), b = (1): both a < b and a > b hold; a > a holds for every a | `b < a`, so that > is strict and the converse of < | not executed | Vec.GreaterAsWrittenDisagrees | Vec.GreaterIntendedTrichotomy |
| gil/vec.hpp:148 | `operator*=` applies the non-assigning `multiplies` to each component and discards the product, so the vector is unchanged | the vector (1) times 2 stays (1) | the assigning functor, giving (2) | not executed | Vec.TimesAssignDisagrees | Vec.TimesAssignIntended |
| poisson_tbb.cpp:25 | at j = 0, ParallelBoundary's left test reads `mask_it[-1]`, the element stored before the row, which in compact storage is the last pixel of the previous row | a compact 3 x 3 mask whose only Ω pixel is (0, 2): pixel (1, 0) is marked with no Ω neighbour, where make_boundary leaves it 0 | no left-neighbour test at j = 0 | not executed | PoissonSpec.TbbBoundaryReadsPreviousRow | PoissonSpec.TbbBoundaryIntendedSound |
