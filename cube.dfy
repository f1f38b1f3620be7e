/// The geometry of main.cpp: the interpolation helpers, the `2^N` vertices of
/// the cube and the edge test between them, `Point::getRealPos`, and the
/// `rotPlane` / `rotation` state the mouse handlers update.
module Cube {
  import opened Matrices
  import opened Inversion
  import opened Rotations
  import opened Planes

  // ---------------------------------------------------------------------------
  // Interpolation.

  /// `flerp`: the point a fraction `p` of the way from `a` to `b`.
  function Flerp(a: real, b: real, p: real): (r: real)
    ensures p == 0.0 ==> r == a
    ensures p == 1.0 ==> r == b
    ensures a == b ==> r == a
  {
    p * (b - a) + a
  }

  /// Division by a nonzero `d` cancels multiplication by it.
  lemma Cancel(x: real, d: real)
    requires d != 0.0
    ensures x / d * d == x && x * d / d == x
    ensures d / d == 1.0 && 0.0 / d == 0.0
  {
  }

  /// Real division, named so that the quotient is one term wherever it occurs.
  function Quotient(x: real, d: real): (q: real)
    requires d != 0.0
    ensures q * d == x
  {
    Cancel(x, d);
    x / d
  }

  /// `delerp`: the fraction of the way from `a` to `b` at which `v` lies. When
  /// `a == b` the division has no finite result.
  function Delerp(a: real, b: real, v: real): (r: Option<real>)
    ensures r.Some? <==> a != b
    ensures r.Some? ==> Flerp(a, b, r.value) == v
  {
    if a == b then None
    else
      Some(Quotient(v - a, b - a))
  }

  /// `delerp` undoes `flerp`.
  lemma DelerpFlerp(a: real, b: real, p: real)
    requires a != b
    ensures Delerp(a, b, Flerp(a, b, p)) == Some(p)
  {
    var d := b - a;
    assert Flerp(a, b, p) - a == p * d;
    Cancel(p, d);
  }

  /// `rerange`: map `v` from the range `a1 .. b1` onto `a0 .. b0`. When
  /// `a1 == b1` the division has no finite result.
  function Rerange(a0: real, b0: real, a1: real, b1: real, v: real): (r: Option<real>)
    ensures r.Some? <==> a1 != b1
    ensures r.Some? && v == a1 ==> r.value == a0
    ensures r.Some? && v == b1 ==> r.value == b0
  {
    if a1 == b1 then None
    else
      Cancel(1.0, b1 - a1);
      Some(Quotient(v - a1, b1 - a1) * (b0 - a0) + a0)
  }

  /// `rerange` is `delerp` on the old range followed by `flerp` on the new one.
  lemma RerangeIsFlerpOfDelerp(a0: real, b0: real, a1: real, b1: real, v: real)
    requires a1 != b1
    ensures Rerange(a0, b0, a1, b1, v) == Some(Flerp(a0, b0, Delerp(a1, b1, v).value))
  {
    var p := Quotient(v - a1, b1 - a1);
    assert Delerp(a1, b1, v) == Some(p);
    assert Rerange(a0, b0, a1, b1, v) == Some(Flerp(a0, b0, p));
  }

  /// The `coords` overload of `flerp`: interpolate every coordinate.
  method FlerpCoords(a: seq<real>, b: seq<real>, p: real) returns (r: seq<real>)
    requires |a| == |b|
    ensures |r| == |a|
    ensures forall d :: 0 <= d < |r| ==> r[d] == Flerp(a[d], b[d], p)
    ensures p == 0.0 ==> r == a
    ensures p == 1.0 ==> r == b
  {
    var ans := new real[|a|];
    for d := 0 to |a|
      invariant forall e :: 0 <= e < d ==> ans[e] == Flerp(a[e], b[e], p)
    {
      ans[d] := Flerp(a[d], b[d], p);
    }
    r := ans[..];
  }

  // ---------------------------------------------------------------------------
  // The vertices.

  /// `verticesAmount = pow(2, N)`.
  function Pow2(n: nat): (r: nat)
    ensures r >= 1
  {
    if n == 0 then 1 else 2 * Pow2(n - 1)
  }

  /// Bit `d` of `i`, as `std::bitset` reads it.
  function Bit(i: nat, d: nat): bool
  {
    if d == 0 then i % 2 == 1 else Bit(i / 2, d - 1)
  }

  /// Vertex `i` of the cube: coordinate `d` is `radius` if bit `d` of `i` is
  /// set and `-radius` otherwise.
  function Vertex(n: nat, radius: real, i: nat): (v: seq<real>)
    ensures |v| == n
  {
    seq(n, d requires 0 <= d < n => if Bit(i, d) then radius else -radius)
  }

  /// The vertex loop of `init`.
  method GenerateVertices(n: nat, radius: real) returns (points: seq<seq<real>>)
    ensures |points| == Pow2(n)
    ensures forall i :: 0 <= i < |points| ==> |points[i]| == n
    ensures forall i, d :: 0 <= i < |points| && 0 <= d < n ==>
      points[i][d] == if Bit(i, d) then radius else -radius
  {
    points := [];
    var amount := Pow2(n);
    for i := 0 to amount
      invariant |points| == i
      invariant forall k :: 0 <= k < i ==> points[k] == Vertex(n, radius, k)
    {
      var vertex := new real[n];
      for d := 0 to n
        invariant forall e :: 0 <= e < d ==> vertex[e] == if Bit(i, e) then radius else -radius
      {
        vertex[d] := if Bit(i, d) then radius else -radius;
      }
      points := points + [vertex[..]];
    }
  }

  /// Two different indices below `2^n` differ in some bit below `n`.
  lemma {:induction false} BitsDiffer(n: nat, i: nat, j: nat) returns (d: nat)
    requires i < Pow2(n) && j < Pow2(n) && i != j
    ensures d < n && Bit(i, d) != Bit(j, d)
  {
    if i % 2 != j % 2 {
      d := 0;
    } else {
      assert n > 0;
      var d' := BitsDiffer(n - 1, i / 2, j / 2);
      d := d' + 1;
    }
  }

  /// With a nonzero radius no two vertices coincide.
  lemma VerticesDistinct(n: nat, radius: real, i: nat, j: nat)
    requires radius != 0.0 && i < Pow2(n) && j < Pow2(n) && i != j
    ensures Vertex(n, radius, i) != Vertex(n, radius, j)
  {
    var d := BitsDiffer(n, i, j);
    assert Vertex(n, radius, i)[d] != Vertex(n, radius, j)[d];
  }

  // ---------------------------------------------------------------------------
  // The edge test.

  /// The number of coordinates below `k` in which `a` and `b` agree.
  function SameAxes(a: seq<real>, b: seq<real>, k: nat): (r: nat)
    requires k <= |a| && k <= |b|
    ensures r <= k
  {
    if k == 0 then 0 else SameAxes(a, b, k - 1) + if a[k - 1] == b[k - 1] then 1 else 0
  }

  /// A point agrees with itself in every coordinate.
  lemma {:induction false} SameAxesSelf(a: seq<real>, k: nat)
    requires k <= |a|
    ensures SameAxes(a, a, k) == k
  {
    if k > 0 { SameAxesSelf(a, k - 1); }
  }

  /// `sameAxesCount`, counted coordinate by coordinate.
  method CountSameAxes(a: seq<real>, b: seq<real>) returns (count: nat)
    requires |a| == |b|
    ensures count == SameAxes(a, b, |a|)
  {
    count := 0;
    for d := 0 to |a|
      invariant count == SameAxes(a, b, d)
    {
      if a[d] == b[d] {
        count := count + 1;
      }
    }
  }

  /// Two points are joined by an edge when they agree in exactly `N-1` coordinates.
  function Joined(a: seq<real>, b: seq<real>, n: nat): (r: bool)
    requires |a| == n && |b| == n
    ensures r ==> 0 < n && a != b
  {
    SameAxesSelf(a, n);
    SameAxes(a, b, n) == n - 1
  }

  /// The painting loop's pairs `i < j` whose points pass the edge test, in the
  /// order it draws them.
  method Edges(points: seq<seq<real>>, n: nat) returns (edges: seq<(nat, nat)>)
    requires forall i :: 0 <= i < |points| ==> |points[i]| == n
    ensures forall e :: e in edges <==> e.0 < e.1 < |points| && Joined(points[e.0], points[e.1], n)
    ensures forall x, y :: 0 <= x < y < |edges| ==> PairLess(edges[x], edges[y])
  {
    edges := [];
    for i := 0 to |points|
      invariant forall e :: e in edges <==> e.0 < i && e.0 < e.1 < |points| && Joined(points[e.0], points[e.1], n)
      invariant forall x, y :: 0 <= x < y < |edges| ==> PairLess(edges[x], edges[y])
      invariant forall x :: 0 <= x < |edges| ==> edges[x].0 < i
    {
      for j := i + 1 to |points|
        invariant forall e :: e in edges <==>
          (e.0 < i || (e.0 == i && e.1 < j)) && e.0 < e.1 < |points| && Joined(points[e.0], points[e.1], n)
        invariant forall x, y :: 0 <= x < y < |edges| ==> PairLess(edges[x], edges[y])
        invariant forall x :: 0 <= x < |edges| ==> PairLess(edges[x], (i, j))
      {
        var same := CountSameAxes(points[i], points[j]);
        if same == n - 1 {
          edges := edges + [(i, j)];
        }
      }
    }
  }

  /// The number of bits below `k` in which `i` and `j` differ.
  function DifferingBits(i: nat, j: nat, k: nat): (r: nat)
    ensures r <= k
  {
    if k == 0 then 0 else DifferingBits(i, j, k - 1) + if Bit(i, k - 1) != Bit(j, k - 1) then 1 else 0
  }

  lemma {:induction false} SameAndDiffering(n: nat, radius: real, i: nat, j: nat, k: nat)
    requires radius != 0.0 && k <= n
    ensures SameAxes(Vertex(n, radius, i), Vertex(n, radius, j), k) + DifferingBits(i, j, k) == k
  {
    if k > 0 {
      SameAndDiffering(n, radius, i, j, k - 1);
    }
  }

  /// Two generated vertices are joined exactly when their indices differ in a
  /// single bit.
  lemma EdgeIffOneBit(n: nat, radius: real, i: nat, j: nat)
    requires radius != 0.0
    ensures Joined(Vertex(n, radius, i), Vertex(n, radius, j), n) <==> DifferingBits(i, j, n) == 1
  {
    SameAndDiffering(n, radius, i, j, n);
  }

  // ---------------------------------------------------------------------------
  // The rotated position of a point.

  /// Every plane matrix is `n × n`.
  ghost predicate PlaneShapes(planes: seq<Matrix>, n: nat)
  {
    forall i :: 0 <= i < |planes| ==> IsMatrix(planes[i], n, n)
  }

  /// The position after the first `k` plane rotations: `pos` times
  /// `rotationMatrixPart2(planes[i], rotation[i])` for `i = 0 .. k-1` in turn,
  /// with `cossin` giving the cosine and sine of each angle.

  function RealPos(pos: seq<real>, planes: seq<Matrix>, rotation: seq<real>, cossin: real -> CosSin, k: nat): (r: seq<real>)
    requires |pos| >= 2 && PlaneShapes(planes, |pos|) && k <= |planes| && k <= |rotation|
    ensures |r| == |pos|
  {
    if k == 0 then pos
    else
      var t := cossin(rotation[k - 1]);
      Apply(Part2(planes[k - 1], |pos|, t.cos, t.sin), RealPos(pos, planes, rotation, cossin, k - 1))
  }

  /// `Point::getRealPos`: apply each plane's rotation in index order to a copy
  /// of `pos`.
  method GetRealPos(pos: seq<real>, planes: seq<Matrix>, rotation: seq<real>, cossin: real -> CosSin)
    returns (realPos: seq<real>)
    requires |pos| >= 2 && PlaneShapes(planes, |pos|) && |planes| == |rotation|
    ensures realPos == RealPos(pos, planes, rotation, cossin, |planes|)
  {
    realPos := pos;
    for i := 0 to |planes|
      invariant realPos == RealPos(pos, planes, rotation, cossin, i)
    {
      var rotM := RotationPart2(planes[i], |pos|, cossin(rotation[i]));
      realPos := MultiplyVector(realPos, rotM);
    }
  }

  /// When every rotation matrix is the identity the position is unchanged.
  lemma {:induction false} RealPosOfIdentities(pos: seq<real>, planes: seq<Matrix>, rotation: seq<real>, cossin: real -> CosSin, k: nat)
    requires |pos| >= 2 && PlaneShapes(planes, |pos|) && k <= |planes| && k <= |rotation|
    requires forall i :: 0 <= i < k ==>
      Part2(planes[i], |pos|, cossin(rotation[i]).cos, cossin(rotation[i]).sin) == Identity(|pos|, |pos|)
    ensures RealPos(pos, planes, rotation, cossin, k) == pos
  {
    if k > 0 {
      var i := k - 1;
      RealPosOfIdentities(pos, planes, rotation, cossin, i);
      IdentityStep(pos, planes, rotation, cossin, i);
    }
  }

  /// One identity rotation after `i` that left `pos` in place leaves it in place.
  lemma IdentityStep(pos: seq<real>, planes: seq<Matrix>, rotation: seq<real>, cossin: real -> CosSin, i: nat)
    requires |pos| >= 2 && PlaneShapes(planes, |pos|) && i < |planes| && i < |rotation|
    requires RealPos(pos, planes, rotation, cossin, i) == pos
    requires Part2(planes[i], |pos|, cossin(rotation[i]).cos, cossin(rotation[i]).sin) == Identity(|pos|, |pos|)
    ensures RealPos(pos, planes, rotation, cossin, i + 1) == pos
  {
    ApplyIdentity(pos);
  }

  /// At zero angles (cosine 1, sine 0) every plane whose elimination meets no
  /// zero pivot rotates by the identity, so the point stays where it is.
  lemma RealPosAtZeroAngles(pos: seq<real>, planes: seq<Matrix>, rotation: seq<real>, cossin: real -> CosSin)
    requires |pos| >= 2 && PlaneShapes(planes, |pos|) && |planes| == |rotation|
    requires forall i :: 0 <= i < |planes| ==> PivotsNonzero(planes[i], |pos|) && cossin(rotation[i]) == CosSin(1.0, 0.0)
    ensures RealPos(pos, planes, rotation, cossin, |planes|) == pos
  {
    forall i | 0 <= i < |planes|
      ensures Part2(planes[i], |pos|, cossin(rotation[i]).cos, cossin(rotation[i]).sin) == Identity(|pos|, |pos|)
    {
      Part2ZeroAngle(planes[i], |pos|);
    }
    RealPosOfIdentities(pos, planes, rotation, cossin, |planes|);
  }

  /// The rotations compose: the position after `k` planes is the product of
  /// their matrices, the latest leftmost, applied to `pos`.
  function Composite(planes: seq<Matrix>, rotation: seq<real>, cossin: real -> CosSin, n: nat, k: nat): (m: Matrix)
    requires n >= 2 && PlaneShapes(planes, n) && k <= |planes| && k <= |rotation|
    ensures IsMatrix(m, n, n)
  {
    if k == 0 then Identity(n, n)
    else
      var t := cossin(rotation[k - 1]);
      Mul(Part2(planes[k - 1], n, t.cos, t.sin), Composite(planes, rotation, cossin, n, k - 1), n)
  }

  lemma {:induction false} RealPosIsComposite(pos: seq<real>, planes: seq<Matrix>, rotation: seq<real>, cossin: real -> CosSin, k: nat)
    requires |pos| >= 2 && PlaneShapes(planes, |pos|) && k <= |planes| && k <= |rotation|
    ensures RealPos(pos, planes, rotation, cossin, k) == Apply(Composite(planes, rotation, cossin, |pos|, k), pos)
  {
    var n := |pos|;
    if k == 0 {
      ApplyIdentity(pos);
    } else {
      RealPosIsComposite(pos, planes, rotation, cossin, k - 1);
      var t := cossin(rotation[k - 1]);
      ApplyMul(Part2(planes[k - 1], n, t.cos, t.sin), Composite(planes, rotation, cossin, n, k - 1), pos);
    }
  }

  // ---------------------------------------------------------------------------
  // Exact trigonometry against the elimination's running pivots, for N = 3.

  /// What an exact `atan2` gives, as cosine and sine, at the arguments the
  /// three-dimensional indicator bases produce: angle 0 for `atan2(0, 1)` and
  /// `atan2(0, 0)`, a right angle for `atan2(1, 0)`.
  ghost predicate ExactAtUnits(trig: (real, real) -> CosSin)
  {
    trig(0.0, 1.0) == CosSin(1.0, 0.0) &&
    trig(1.0, 0.0) == CosSin(0.0, 1.0) &&
    trig(0.0, 0.0) == CosSin(1.0, 0.0)
  }

  /// Such oracles are among those `Part2FixesHeldAxes` admits.
  lemma ExactAtUnitsZeroes()
    ensures var trig := (y: real, x: real) => if y == 0.0 && x == 0.0 then CosSin(1.0, 0.0) else CosSin(x, y);
      ZeroingTrig(trig) && ExactAtUnits(trig)
  {
  }

  /// `Mul(R, x) == e` from the entries `RotateEntry` gives.
  lemma RotatesTo(n: nat, p: nat, q: nat, c: real, s: real, x: Matrix, w: nat, e: Matrix)
    requires p < n && q < n && p != q && IsMatrix(x, n, w) && IsMatrix(e, n, w)
    requires forall y, k {:trigger e[y][k]} :: 0 <= y < n && 0 <= k < w ==>
      (e[y][k] == if y == p then c * x[p][k] + -s * x[q][k]
        else if y == q then s * x[p][k] + c * x[q][k]
        else x[y][k])
    ensures Mul(PlaneRotation(n, p, q, c, s), x, w) == e
  {
    forall y, k | 0 <= y < n && 0 <= k < w
      ensures Mul(PlaneRotation(n, p, q, c, s), x, w)[y][k] == e[y][k]
    {
      RotateEntry(n, p, q, c, s, x, w, y, k);
    }
    MatrixExt(Mul(PlaneRotation(n, p, q, c, s), x, w), e, n, w);
  }

  /// For N = 3, part 1 is two Givens steps in column 0, rows 2 then 1, and
  /// `M · basis` is the final `v`.
  lemma Part1OfThree(basis: Matrix, trig: (real, real) -> CosSin)
    requires IsMatrix(basis, 3, 1)
    ensures var st := GivensStep(GivensStep(Stage(basis, Identity(3, 3)), 3, trig, 0, 2), 3, trig, 0, 1);
      Part1(basis, 3, trig) == st.m && Mul(st.m, basis, 1) == st.v
  {
    var st := Stage(basis, Identity(3, 3));
    IdentityLeft(basis, 3, 1);
    ColumnsTrack(st, 3, trig, 1, basis);
    assert Sweep(st, 3, trig, 0, 1) == GivensStep(st, 3, trig, 0, 2);
  }

  /// The positions of the ones of a three-element mask.
  lemma SetPositionsOfThree(mask: seq<int>)
    requires |mask| == 3
    ensures SetPositions(mask) ==
      (if mask[0] != 0 then [0] else []) + (if mask[1] != 0 then [1] else []) + (if mask[2] != 0 then [2] else [])
  {
    var two := mask[..2];
    var one := two[..1];
    assert one[..0] == [];
    assert SetPositions(one) == if mask[0] != 0 then [0] else [];
    assert SetPositions(two) == SetPositions(one) + if mask[1] != 0 then [1] else [];
  }

  /// A three-dimensional basis holding the one axis `held`.
  lemma BasisOfThree(held: nat, e: Matrix)
    requires held < 3 && IsMatrix(e, 3, 1)
    requires forall row :: 0 <= row < 3 ==> e[row][0] == if row == held then 1.0 else 0.0
    ensures PartialBasis([held], 3, 1) == e
  {
    MatrixExt(PartialBasis([held], 3, 1), e, 3, 1);
  }

  /// One Givens step, given its angle and the two products it forms.
  lemma GivensStepIs(st: Stage, n: nat, trig: (real, real) -> CosSin, c: nat, r: nat, t: CosSin, st': Stage)
    requires n >= 2 && StageShape(st, n) && c < n - 2 && c < r < n
    requires trig(st.v[r][c], st.v[r - 1][c]) == t
    requires Mul(PlaneRotation(n, r, r - 1, t.cos, t.sin), st.v, n - 2) == st'.v
    requires Mul(PlaneRotation(n, r, r - 1, t.cos, t.sin), st.m, n) == st'.m
    ensures GivensStep(st, n, trig, c, r) == st'
  {
  }

  /// An elimination whose first pivot is zero fails.
  lemma FirstPivotZero(m: Matrix, n: nat)
    requires IsMatrix(m, n, n) && 0 < n && m[0][0] == 0.0
    ensures !PivotsNonzero(m, n)
  {
    var a := Augment(m, n);
    assert Eliminate(a, n, 1).None?;
    NoneStaysNone(a, n, 1, n);
  }

  /// One Givens step of N = 3 in column 0, given its angle and the two
  /// products `RotateEntry` gives.
  lemma StepOfThree(st: Stage, trig: (real, real) -> CosSin, r: nat, t: CosSin, st': Stage)
    requires StageShape(st, 3) && StageShape(st', 3) && 0 < r < 3
    requires trig(st.v[r][0], st.v[r - 1][0]) == t
    requires forall y :: 0 <= y < 3 ==>
      (st'.v[y][0] == if y == r then t.cos * st.v[r][0] + -t.sin * st.v[r - 1][0]
        else if y == r - 1 then t.sin * st.v[r][0] + t.cos * st.v[r - 1][0]
        else st.v[y][0])
    requires forall y, k {:trigger st'.m[y][k]} :: 0 <= y < 3 && 0 <= k < 3 ==>
      (st'.m[y][k] == if y == r then t.cos * st.m[r][k] + -t.sin * st.m[r - 1][k]
        else if y == r - 1 then t.sin * st.m[r][k] + t.cos * st.m[r - 1][k]
        else st.m[y][k])
    ensures GivensStep(st, 3, trig, 0, r) == st'
  {
    RotatesTo(3, r, r - 1, t.cos, t.sin, st.v, 1, st'.v);
    RotatesTo(3, r, r - 1, t.cos, t.sin, st.m, 3, st'.m);
    GivensStepIs(st, 3, trig, 0, r, t, st');
  }

  /// The zero pairs the walk visits for N = 3, in order.
  lemma PairsOfThree()
    ensures Pairs(3) == [(1, 2), (0, 2), (0, 1)]
  {
    assert PairsFrom(3, 0, 1) == [(0, 1)];
    assert PairsFrom(3, 0, 2) == [(0, 2), (0, 1)];
  }

  /// The first plane of N = 3 holds axis 0 and its part 1 is the identity,
  /// whose running pivots are nonzero.
  lemma FirstPlaneOfThree(trig: (real, real) -> CosSin)
    requires ExactAtUnits(trig)
    ensures PlaneMatrix(3, (1, 2), trig) == Identity(3, 3)
    ensures PivotsNonzero(PlaneMatrix(3, (1, 2), trig), 3)
  {
    var mask := MaskOf(3, 1, 2);
    assert mask == [1, 0, 0];
    SetPositionsOfThree(mask);
    assert SetPositions(mask) == [0];
    var basis := IndicatorBasis(mask, 3);
    BasisOfThree(0, [[1.0], [0.0], [0.0]]);
    var id := Identity(3, 3);
    var st := Stage(basis, id);
    StepOfThree(st, trig, 2, CosSin(1.0, 0.0), st);
    StepOfThree(st, trig, 1, CosSin(1.0, 0.0), st);
    Part1OfThree(basis, trig);
    InverseOfDiagonal(id, 3);
  }

  /// A part 1 with a zero running pivot that carries the held axis onto axis 0
  /// makes part 2 carry it there too, at every angle.
  lemma HeldAxisMoves(m: Matrix, basis: Matrix, c: real, s: real)
    requires IsMatrix(m, 3, 3) && IsMatrix(basis, 3, 1) && !PivotsNonzero(m, 3)
    requires Mul(m, basis, 1) == [[1.0], [0.0], [0.0]]
    ensures Mul(Part2(m, 3, c, s), basis, 1) == [[1.0], [0.0], [0.0]]
  {
    var rot := PlaneRotation(3, 1, 2, c, s);
    ZeroPivotGivesIdentity(m, 3);
    IdentityLeft(Mul(rot, m, 3), 3, 3);
    MulAssoc(rot, m, basis, 3, 3, 3, 1);
    RotationFixesUpperRows(3, c, s, [[1.0], [0.0], [0.0]], 1);
  }

  /// Part 1 of the second plane of N = 3, which holds axis 1: rotating axes 2
  /// and 1 by angle 0 and then axes 1 and 0 by a right angle.
  lemma SecondPlanePart1(trig: (real, real) -> CosSin)
    requires ExactAtUnits(trig)
    ensures SetPositions(MaskOf(3, 0, 2)) == [1]
    ensures IndicatorBasis(MaskOf(3, 0, 2), 3) == [[0.0], [1.0], [0.0]]
    ensures PlaneMatrix(3, (0, 2), trig) == [[0.0, 1.0, 0.0], [-1.0, 0.0, 0.0], [0.0, 0.0, 1.0]]
    ensures Mul(PlaneMatrix(3, (0, 2), trig), [[0.0], [1.0], [0.0]], 1) == [[1.0], [0.0], [0.0]]
  {
    var mask := MaskOf(3, 0, 2);
    assert mask == [0, 1, 0];
    SetPositionsOfThree(mask);
    assert SetPositions(mask) == [1];
    var basis := IndicatorBasis(mask, 3);
    BasisOfThree(1, [[0.0], [1.0], [0.0]]);
    var id := Identity(3, 3);
    var st := Stage(basis, id);
    StepOfThree(st, trig, 2, CosSin(1.0, 0.0), st);
    var st2 := Stage([[1.0], [0.0], [0.0]], [[0.0, 1.0, 0.0], [-1.0, 0.0, 0.0], [0.0, 0.0, 1.0]]);
    StepOfThree(st, trig, 1, CosSin(0.0, 1.0), st2);
    Part1OfThree(basis, trig);
  }

  /// With an exact `atan2`, part 1 of the second plane of N = 3 has a zero
  /// first pivot, so the inverse falls back to the identity and the final
  /// rotation carries the held axis 1 onto axis 0 at every angle: the premise
  /// of `Part2FixesHeldAxes` fails, and so does its conclusion.
  lemma SecondPlaneOfThree(trig: (real, real) -> CosSin, c: real, s: real)
    requires ExactAtUnits(trig)
    ensures !PivotsNonzero(PlaneMatrix(3, (0, 2), trig), 3)
    ensures Mul(Part2(PlaneMatrix(3, (0, 2), trig), 3, c, s), [[0.0], [1.0], [0.0]], 1) == [[1.0], [0.0], [0.0]]
  {
    SecondPlanePart1(trig);
    var m := PlaneMatrix(3, (0, 2), trig);
    FirstPivotZero(m, 3);
    HeldAxisMoves(m, [[0.0], [1.0], [0.0]], c, s);
  }

  /// Part 1 of the third plane of N = 3, which holds axis 2: two right-angle
  /// rotations, of axes 2 and 1 and then of axes 1 and 0.
  lemma ThirdPlanePart1(trig: (real, real) -> CosSin)
    requires ExactAtUnits(trig)
    ensures SetPositions(MaskOf(3, 0, 1)) == [2]
    ensures IndicatorBasis(MaskOf(3, 0, 1), 3) == [[0.0], [0.0], [1.0]]
    ensures PlaneMatrix(3, (0, 1), trig) == [[0.0, 0.0, 1.0], [-1.0, 0.0, 0.0], [0.0, -1.0, 0.0]]
    ensures Mul(PlaneMatrix(3, (0, 1), trig), [[0.0], [0.0], [1.0]], 1) == [[1.0], [0.0], [0.0]]
  {
    var mask := MaskOf(3, 0, 1);
    assert mask == [0, 0, 1];
    SetPositionsOfThree(mask);
    assert SetPositions(mask) == [2];
    var basis := IndicatorBasis(mask, 3);
    BasisOfThree(2, [[0.0], [0.0], [1.0]]);
    ThirdPlaneSteps(trig);
    Part1OfThree(basis, trig);
  }

  lemma ThirdPlaneSteps(trig: (real, real) -> CosSin)
    requires ExactAtUnits(trig)
    ensures var st1 := GivensStep(Stage([[0.0], [0.0], [1.0]], Identity(3, 3)), 3, trig, 0, 2);
      GivensStep(st1, 3, trig, 0, 1) ==
        Stage([[1.0], [0.0], [0.0]], [[0.0, 0.0, 1.0], [-1.0, 0.0, 0.0], [0.0, -1.0, 0.0]])
  {
    var st := Stage([[0.0], [0.0], [1.0]], Identity(3, 3));
    var st1 := Stage([[0.0], [1.0], [0.0]], [[1.0, 0.0, 0.0], [0.0, 0.0, 1.0], [0.0, -1.0, 0.0]]);
    StepOfThree(st, trig, 2, CosSin(0.0, 1.0), st1);
    var st2 := Stage([[1.0], [0.0], [0.0]], [[0.0, 0.0, 1.0], [-1.0, 0.0, 0.0], [0.0, -1.0, 0.0]]);
    StepOfThree(st1, trig, 1, CosSin(0.0, 1.0), st2);
  }

  /// The third plane of N = 3 meets a zero first pivot in the same way, and its
  /// held axis 2 is carried onto axis 0 at every angle.
  lemma ThirdPlaneOfThree(trig: (real, real) -> CosSin, c: real, s: real)
    requires ExactAtUnits(trig)
    ensures !PivotsNonzero(PlaneMatrix(3, (0, 1), trig), 3)
    ensures Mul(Part2(PlaneMatrix(3, (0, 1), trig), 3, c, s), [[0.0], [0.0], [1.0]], 1) == [[1.0], [0.0], [0.0]]
  {
    ThirdPlanePart1(trig);
    var m := PlaneMatrix(3, (0, 1), trig);
    FirstPivotZero(m, 3);
    HeldAxisMoves(m, [[0.0], [0.0], [1.0]], c, s);
  }

  /// For N = 3 with an exact `atan2`, only the first of the three planes the
  /// walk builds meets the pivot premise of `Part2FixesHeldAxes` and
  /// `RealPosAtZeroAngles`.
  lemma OnlyFirstPlaneOfThree(trig: (real, real) -> CosSin)
    requires ExactAtUnits(trig)
    ensures forall k :: 0 <= k < 3 ==> (PivotsNonzero(PlaneMatrix(3, Pairs(3)[k], trig), 3) <==> k == 0)
  {
    PairsOfThree();
    FirstPlaneOfThree(trig);
    SecondPlaneOfThree(trig, 1.0, 0.0);
    ThirdPlaneOfThree(trig, 1.0, 0.0);
  }

  /// With an exact `atan2` and every angle at 0, the second plane of N = 3
  /// still moves the point `(0, 1, 0)` to `(1, 0, 0)`: `RealPosAtZeroAngles`
  /// needs its pivot premise.
  lemma ZeroAnglesMovePoint(trig: (real, real) -> CosSin, cossin: real -> CosSin)
    requires ExactAtUnits(trig) && cossin(0.0) == CosSin(1.0, 0.0)
    ensures RealPos([0.0, 1.0, 0.0], [PlaneMatrix(3, (0, 2), trig)], [0.0], cossin, 1) == [1.0, 0.0, 0.0]
  {
    var m := PlaneMatrix(3, (0, 2), trig);
    SecondPlanePart1(trig);
    FirstPivotZero(m, 3);
    Part2ZeroAngle(m, 3);
    ZeroPivotGivesIdentity(m, 3);
    IdentityLeft(m, 3, 3);
    var pos := [0.0, 1.0, 0.0];
    forall y | 0 <= y < 3
      ensures Apply(m, pos)[y] == [1.0, 0.0, 0.0][y]
    {
      DotOfThree(m[y], pos);
    }
  }

  // ---------------------------------------------------------------------------
  // The mouse handlers.

  /// The window's rotation state: the selected plane `rotPlane` and the angle
  /// `rotation[i]` of each plane.
  class Controls {
    var rotPlane: nat
    const rotation: array<real>

    ghost predicate Valid()
      reads this
    {
      0 < rotation.Length && rotPlane < rotation.Length
    }

    /// `rotPlane` starts at the first plane and every angle at zero.
    constructor(dof: nat)
      requires dof > 0
      ensures Valid() && rotPlane == 0 && rotation.Length == dof && fresh(rotation)
      ensures forall i :: 0 <= i < dof ==> rotation[i] == 0.0
    {
      rotPlane := 0;
      rotation := new real[dof](_ => 0.0);
    }

    /// `OnMouseWheel`: turn the selected plane by `0.2` in the direction of the
    /// sign of `d` (a zero `d` counts as positive).
    method OnMouseWheel(d: int)
      requires Valid()
      modifies rotation
      ensures Valid() && rotPlane == old(rotPlane)
      ensures rotation[rotPlane] == old(rotation[rotPlane]) + WheelStep(d)
      ensures forall i :: 0 <= i < rotation.Length && i != rotPlane ==> rotation[i] == old(rotation[i])
    {
      rotation[rotPlane] := rotation[rotPlane] + WheelStep(d);
    }

    /// `OnMousePress`: select the next plane, wrapping around after the last.
    method OnMousePress()
      requires Valid()
      modifies this
      ensures Valid() && rotPlane == NextPlane(old(rotPlane), rotation.Length)
      ensures unchanged(rotation)
    {
      rotPlane := rotPlane + 1;
      rotPlane := rotPlane % rotation.Length;
    }
  }

  /// `copysign(1.0, d) * 0.2`.
  function WheelStep(d: int): (r: real)
    ensures r == 0.2 || r == -0.2
    ensures r > 0.0 <==> d >= 0
  {
    (if d < 0 then -1.0 else 1.0) * 0.2
  }

  /// The plane after `rotPlane` among `dof` planes.
  function NextPlane(p: nat, dof: nat): (r: nat)
    requires p < dof
    ensures r < dof
    ensures r == 0 <==> p == dof - 1
    ensures r != 0 ==> r == p + 1
  {
    (p + 1) % dof
  }

  /// The plane selected after `k` presses starting from `p`.
  function Presses(p: nat, dof: nat, k: nat): (r: nat)
    requires p < dof
    ensures r < dof
  {
    if k == 0 then p else NextPlane(Presses(p, dof, k - 1), dof)
  }

  lemma {:induction false} PressesAdvance(p: nat, dof: nat, k: nat)
    requires p < dof && k <= dof
    ensures Presses(p, dof, k) == if p + k < dof then p + k else p + k - dof
  {
    if k > 0 {
      PressesAdvance(p, dof, k - 1);
    }
  }

  /// Pressing cycles through every plane: from any plane, each plane is reached
  /// within `dof` presses, and `dof` presses come back to the start.
  lemma PressesReachEveryPlane(p: nat, dof: nat, t: nat)
    requires p < dof && t < dof
    ensures exists k: nat :: k < dof && Presses(p, dof, k) == t
    ensures Presses(p, dof, dof) == p
  {
    var k := if p <= t then t - p else dof - p + t;
    PressesAdvance(p, dof, k);
    PressesAdvance(p, dof, dof);
  }
}
