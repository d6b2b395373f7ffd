/**
 * The fixed-size vectors of gil/vec.hpp.  A vec<float, N> is a sequence of N
 * reals; floating-point rounding is not modelled.
 */
module Vec {
  import opened Algorithm

  /** vec3f, the pixel type of the colour fields. */
  type Vec3 = v: seq<real> | |v| == 3 witness [0.0, 0.0, 0.0]

  /** vec3f{} and vec3f({0, 0, 0}). */
  const Zero3: Vec3 := [0.0, 0.0, 0.0]

  /** apply(a, fcn): a fresh vector whose k-th component is fcn(a[k]). */
  method Apply<U, R>(a: seq<U>, fcn: U -> R) returns (x: seq<R>)
    ensures |x| == |a|
    ensures forall k :: 0 <= k < |a| ==> x[k] == fcn(a[k])
  {
    x := [];
    var k := 0;
    while k < |a|
      invariant 0 <= k <= |a|
      invariant |x| == k
      invariant forall m :: 0 <= m < k ==> x[m] == fcn(a[m])
    {
      x := x + [fcn(a[k])];
      k := k + 1;
    }
  }

  /** apply(a, b, fcn): a fresh vector whose k-th component is fcn(a[k], b[k]). */
  method Apply2<T, U, R>(a: seq<T>, b: seq<U>, fcn: (T, U) -> R) returns (x: seq<R>)
    requires |a| == |b|
    ensures |x| == |a|
    ensures forall k :: 0 <= k < |a| ==> x[k] == fcn(a[k], b[k])
  {
    x := [];
    var k := 0;
    while k < |a|
      invariant 0 <= k <= |a|
      invariant |x| == k
      invariant forall m :: 0 <= m < k ==> x[m] == fcn(a[m], b[m])
    {
      x := x + [fcn(a[k], b[k])];
      k := k + 1;
    }
  }

  /** a + b, a - b: apply(a, b, plus) and apply(a, b, minus). */
  function Plus(a: seq<real>, b: seq<real>): (r: seq<real>)
    requires |a| == |b|
    ensures |r| == |a|
    ensures forall k :: 0 <= k < |a| ==> r[k] == a[k] + b[k]
  {
    seq(|a|, k requires 0 <= k < |a| => a[k] + b[k])
  }

  function Minus(a: seq<real>, b: seq<real>): (r: seq<real>)
    requires |a| == |b|
    ensures |r| == |a|
    ensures forall k :: 0 <= k < |a| ==> r[k] == a[k] - b[k]
  {
    seq(|a|, k requires 0 <= k < |a| => a[k] - b[k])
  }

  /** a + s, a - s, a * s, a / s and s * a for a scalar s. */
  function PlusScalar(a: seq<real>, s: real): (r: seq<real>)
    ensures |r| == |a|
    ensures forall k :: 0 <= k < |a| ==> r[k] == a[k] + s
  {
    seq(|a|, k requires 0 <= k < |a| => a[k] + s)
  }

  function MinusScalar(a: seq<real>, s: real): (r: seq<real>)
    ensures |r| == |a|
    ensures forall k :: 0 <= k < |a| ==> r[k] == a[k] - s
  {
    seq(|a|, k requires 0 <= k < |a| => a[k] - s)
  }

  function Times(a: seq<real>, s: real): (r: seq<real>)
    ensures |r| == |a|
    ensures forall k :: 0 <= k < |a| ==> r[k] == a[k] * s
  {
    seq(|a|, k requires 0 <= k < |a| => a[k] * s)
  }

  function Divide(a: seq<real>, s: real): (r: seq<real>)
    requires s != 0.0
    ensures |r| == |a|
    ensures forall k :: 0 <= k < |a| ==> r[k] == a[k] / s
  {
    seq(|a|, k requires 0 <= k < |a| => a[k] / s)
  }

  /** Binary + and - are the componentwise operations that apply computes. */
  method PlusByApply(a: seq<real>, b: seq<real>) returns (x: seq<real>)
    requires |a| == |b|
    ensures x == Plus(a, b)
  {
    x := Apply2(a, b, (s: real, t: real) => s + t);
  }

  method MinusByApply(a: seq<real>, b: seq<real>) returns (x: seq<real>)
    requires |a| == |b|
    ensures x == Minus(a, b)
  {
    x := Apply2(a, b, (s: real, t: real) => s - t);
  }

  /** Subtracting and then adding back the same vector is the identity, in both orders. */
  lemma MinusPlusRoundTrip(a: seq<real>, b: seq<real>)
    requires |a| == |b|
    ensures Plus(Minus(a, b), b) == a
    ensures Minus(Plus(a, b), b) == a
  {
    assert forall k :: 0 <= k < |a| ==> Plus(Minus(a, b), b)[k] == a[k];
    assert forall k :: 0 <= k < |a| ==> Minus(Plus(a, b), b)[k] == a[k];
  }

  /** Addition commutes and is associative, so an accumulation order never matters. */
  lemma PlusCommutes(a: seq<real>, b: seq<real>)
    requires |a| == |b|
    ensures Plus(a, b) == Plus(b, a)
  {
    assert forall k :: 0 <= k < |a| ==> Plus(a, b)[k] == Plus(b, a)[k];
  }

  lemma PlusAssociates(a: seq<real>, b: seq<real>, c: seq<real>)
    requires |a| == |b| == |c|
    ensures Plus(Plus(a, b), c) == Plus(a, Plus(b, c))
  {
    assert forall k :: 0 <= k < |a| ==> Plus(Plus(a, b), c)[k] == Plus(a, Plus(b, c))[k];
  }

  /** The zero pixel {} is neutral for +, on either side. */
  lemma PlusZero(a: Vec3)
    ensures Plus(a, Zero3) == a && Plus(Zero3, a) == a
  {
    assert forall k :: 0 <= k < 3 ==> Plus(a, Zero3)[k] == a[k];
    assert forall k :: 0 <= k < 3 ==> Plus(Zero3, a)[k] == a[k];
  }

  /** The scalar overloads add the scalar to every component: a + s == a + (s, ..., s). */
  lemma ScalarIsBroadcast(a: seq<real>, s: real)
    ensures PlusScalar(a, s) == Plus(a, seq(|a|, _ => s))
    ensures MinusScalar(a, s) == Minus(a, seq(|a|, _ => s))
  {
    assert forall k :: 0 <= k < |a| ==> PlusScalar(a, s)[k] == Plus(a, seq(|a|, _ => s))[k];
    assert forall k :: 0 <= k < |a| ==> MinusScalar(a, s)[k] == Minus(a, seq(|a|, _ => s))[k];
  }

  /** Dividing by s undoes multiplying by s. */
  lemma TimesDivideRoundTrip(a: seq<real>, s: real)
    requires s != 0.0
    ensures Divide(Times(a, s), s) == a
  {
    assert forall k :: 0 <= k < |a| ==> Divide(Times(a, s), s)[k] == a[k];
  }

  /** The sum of squares of the components, accumulated from the first one; never negative. */
  function SumSquares(x: seq<real>): (r: real)
    ensures r >= 0.0
  {
    if |x| == 0 then 0.0 else SumSquares(x[..|x| - 1]) + x[|x| - 1] * x[|x| - 1]
  }

  /** norm2(x): the accumulator loop computes the sum of squares. */
  method Norm2(x: seq<real>) returns (n: real)
    ensures n == SumSquares(x)
    ensures n >= 0.0
  {
    n := 0.0;
    var k := 0;
    while k < |x|
      invariant 0 <= k <= |x|
      invariant n == SumSquares(x[..k])
    {
      assert x[..k + 1][..k] == x[..k];
      n := n + x[k] * x[k];
      k := k + 1;
    }
    assert x[..|x|] == x;
  }

  lemma SumSquares3(v: Vec3)
    ensures SumSquares(v) == v[0] * v[0] + v[1] * v[1] + v[2] * v[2]
  {
    assert v[..3] == v;
    assert v[..2][..1] == v[..1];
    assert v[..1][..0] == [];
    assert SumSquares(v[..1]) == v[0] * v[0];
    assert SumSquares(v[..2]) == v[0] * v[0] + v[1] * v[1];
  }

  /** operator<: compares the squared norms only. */
  predicate Less(a: seq<real>, b: seq<real>)
  {
    SumSquares(a) < SumSquares(b)
  }

  /**
   * operator< is a strict weak ordering, as std::max requires of its
   * comparison: irreflexive, asymmetric, transitive, and two vectors neither of
   * which is less than the other (equal norm2) are interchangeable.
   */
  lemma LessIsStrictWeakOrder(a: seq<real>, b: seq<real>, c: seq<real>)
    ensures !Less(a, a)
    ensures Less(a, b) ==> !Less(b, a)
    ensures Less(a, b) && Less(b, c) ==> Less(a, c)
    ensures !Less(a, b) && !Less(b, a) && !Less(b, c) && !Less(c, b) ==> !Less(a, c) && !Less(c, a)
  {
  }

  /** operator>(a, b) as written, !(b < a): it holds when norm2(a) <= norm2(b). */
  predicate Greater(a: seq<real>, b: seq<real>)
  {
    !Less(b, a)
  }

  /** operator>(a, b) as evidently intended: b < a. */
  predicate GreaterIntended(a: seq<real>, b: seq<real>)
  {
    Less(b, a)
  }

  lemma GreaterIsNotStrict(a: seq<real>, b: seq<real>)
    ensures Greater(a, b) <==> SumSquares(a) <= SumSquares(b)
    ensures Greater(a, a)
  {
  }

  /**
   * As written, a < b and a > b can hold together: with a = (0) and b = (1)
   * both are true, while the intended a > b is false.
   */
  lemma GreaterAsWrittenDisagrees()
    ensures Less([0.0], [1.0]) && Greater([0.0], [1.0])
    ensures !GreaterIntended([0.0], [1.0])
  {
    assert [0.0][..0] == [] && [1.0][..0] == [];
  }

  /**
   * The intended operator> is the converse of operator<: for any two vectors
   * exactly one of a < b, a > b and "equal norm2" holds.
   */
  lemma GreaterIntendedTrichotomy(a: seq<real>, b: seq<real>)
    ensures GreaterIntended(a, b) <==> Less(b, a)
    ensures GreaterIntended(a, b) ==> !Less(a, b) && !GreaterIntended(b, a)
    ensures !Less(a, b) && !GreaterIntended(a, b) <==> SumSquares(a) == SumSquares(b)
  {
  }

  /** std::max(a, b) under operator<: b only when a < b, so a tie keeps a. */
  function MaxByNorm(a: seq<real>, b: seq<real>): (r: seq<real>)
    ensures r == a || r == b
    ensures SumSquares(a) < SumSquares(b) <==> r == b && r != a
    ensures SumSquares(b) <= SumSquares(a) ==> r == a
  {
    if Less(a, b) then b else a
  }

  /** saturate_cast<uint8_t>(x): each component clamped to [0, 255] and truncated, independently. */
  method SaturateCast(x: seq<real>) returns (r: seq<Byte>)
    ensures |r| == |x|
    ensures forall k :: 0 <= k < |x| ==> r[k] == SaturateToByte(x[k])
    ensures forall k :: 0 <= k < |x| && 0.0 <= x[k] <= 255.0 ==> r[k] as real <= x[k] < r[k] as real + 1.0
  {
    r := Apply(x, SaturateToByte);
  }

  /** a += b, a -= b: the left operand is updated componentwise in place (for_each). */
  method PlusAssign(a: array<real>, b: seq<real>)
    requires a.Length == |b|
    modifies a
    ensures a[..] == Plus(old(a[..]), b)
  {
    var k := 0;
    while k < a.Length
      invariant 0 <= k <= a.Length
      invariant forall m :: 0 <= m < k ==> a[m] == old(a[m]) + b[m]
      invariant forall m :: k <= m < a.Length ==> a[m] == old(a[m])
    {
      a[k] := a[k] + b[k];
      k := k + 1;
    }
  }

  method MinusAssign(a: array<real>, b: seq<real>)
    requires a.Length == |b|
    modifies a
    ensures a[..] == Minus(old(a[..]), b)
  {
    var k := 0;
    while k < a.Length
      invariant 0 <= k <= a.Length
      invariant forall m :: 0 <= m < k ==> a[m] == old(a[m]) - b[m]
      invariant forall m :: k <= m < a.Length ==> a[m] == old(a[m])
    {
      a[k] := a[k] - b[k];
      k := k + 1;
    }
  }

  /** a += s, a -= s for a scalar s. */
  method PlusAssignScalar(a: array<real>, s: real)
    modifies a
    ensures a[..] == PlusScalar(old(a[..]), s)
  {
    var k := 0;
    while k < a.Length
      invariant 0 <= k <= a.Length
      invariant forall m :: 0 <= m < k ==> a[m] == old(a[m]) + s
      invariant forall m :: k <= m < a.Length ==> a[m] == old(a[m])
    {
      a[k] := a[k] + s;
      k := k + 1;
    }
  }

  method MinusAssignScalar(a: array<real>, s: real)
    modifies a
    ensures a[..] == MinusScalar(old(a[..]), s)
  {
    var k := 0;
    while k < a.Length
      invariant 0 <= k <= a.Length
      invariant forall m :: 0 <= m < k ==> a[m] == old(a[m]) - s
      invariant forall m :: k <= m < a.Length ==> a[m] == old(a[m])
    {
      a[k] := a[k] - s;
      k := k + 1;
    }
  }

  /** a /= s. */
  method DivideAssign(a: array<real>, s: real)
    requires s != 0.0
    modifies a
    ensures a[..] == Divide(old(a[..]), s)
  {
    var k := 0;
    while k < a.Length
      invariant 0 <= k <= a.Length
      invariant forall m :: 0 <= m < k ==> a[m] == old(a[m]) / s
      invariant forall m :: k <= m < a.Length ==> a[m] == old(a[m])
    {
      a[k] := a[k] / s;
      k := k + 1;
    }
  }

  /**
   * a *= s as written: for_each applies the non-assigning multiplies functor
   * to each component and discards the product, so nothing changes.
   */
  method TimesAssign(a: array<real>, s: real)
    modifies a
    ensures a[..] == old(a[..])
  {
    var k := 0;
    while k < a.Length
      invariant 0 <= k <= a.Length
    {
      var discarded := a[k] * s;
      k := k + 1;
    }
  }

  /** a *= s as evidently intended (multiplies_assign): every component scaled. */
  method TimesAssignIntended(a: array<real>, s: real)
    modifies a
    ensures a[..] == Times(old(a[..]), s)
  {
    var k := 0;
    while k < a.Length
      invariant 0 <= k <= a.Length
      invariant forall m :: 0 <= m < k ==> a[m] == old(a[m]) * s
      invariant forall m :: k <= m < a.Length ==> a[m] == old(a[m])
    {
      a[k] := a[k] * s;
      k := k + 1;
    }
    assert forall m :: 0 <= m < a.Length ==> a[..][m] == Times(old(a[..]), s)[m];
  }

  /** On the vector (1) scaled by 2, operator*= as written and as intended disagree. */
  method TimesAssignDisagrees() returns (asWritten: seq<real>, intended: seq<real>)
    ensures asWritten == [1.0] && intended == [2.0]
    ensures asWritten != intended
  {
    var a := new real[1](_ => 1.0);
    TimesAssign(a, 2.0);
    asWritten := a[..];
    var b := new real[1](_ => 1.0);
    TimesAssignIntended(b, 2.0);
    intended := b[..];
    assert intended[0] == 2.0;
  }
}
