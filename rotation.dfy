/// The two halves of the Aguilera–Pérez general n-dimensional rotation in
/// matrix.h. `rotationMatrixPart1` drives the basis of the held axes into
/// upper-triangular form with elementary two-axis rotations and accumulates
/// them into `M`; `rotationMatrixPart2` conjugates a rotation of the last two
/// axes by `M`. The cosines and sines are inputs: `atan2` is an oracle `trig`
/// that maps `(y, x)` to the cosine and sine of `atan2(y, x)`.
module Rotations {
  import opened Matrices
  import opened Inversion

  /// The cosine and sine of one angle.
  datatype CosSin = CosSin(cos: real, sin: real)

  /// The identity with `c` at `[p][p]` and `[q][q]`, `-s` at `[p][q]` and `s`
  /// at `[q][p]`: a rotation in the plane of axes `p` and `q`.
  function PlaneRotation(n: nat, p: nat, q: nat, c: real, s: real): (r: Matrix)
    requires p < n && q < n && p != q
    ensures IsMatrix(r, n, n)
  {
    seq(n, y => seq(n, x =>
      if y == p && x == p then c
      else if y == p && x == q then -s
      else if y == q && x == p then s
      else if y == q && x == q then c
      else if x == y then 1.0 else 0.0))
  }

  /// A default-constructed `Matrix<N, N>` with the four rotation entries written
  /// over it, as both halves of the construction build their `R`.
  method PlaneRotationMatrix(n: nat, p: nat, q: nat, c: real, s: real) returns (r: Matrix)
    requires p < n && q < n && p != q
    ensures IsMatrix(r, n, n)
    ensures forall y, x :: 0 <= y < n && 0 <= x < n && !((y == p || y == q) && (x == p || x == q)) ==>
      r[y][x] == Identity(n, n)[y][x]
    ensures r[p][p] == c && r[p][q] == -s && r[q][p] == s && r[q][q] == c
    ensures r == PlaneRotation(n, p, q, c, s)
  {
    r := IdentityMatrix(n, n);
    r := r[p := r[p][p := c]];
    r := r[p := r[p][q := -s]];
    r := r[q := r[q][p := s]];
    r := r[q := r[q][q := c]];
    MatrixExt(r, PlaneRotation(n, p, q, c, s), n, n);
  }

  /// Multiplying by a plane rotation recombines rows `p` and `q` and leaves
  /// every other row alone.
  lemma RotateRows(n: nat, p: nat, q: nat, c: real, s: real, x: Matrix, w: nat)
    requires p < n && q < n && p != q && IsMatrix(x, n, w)
    ensures forall y :: 0 <= y < n && y != p && y != q ==> Mul(PlaneRotation(n, p, q, c, s), x, w)[y] == x[y]
    ensures Mul(PlaneRotation(n, p, q, c, s), x, w)[p] == Comb(c, x[p], -s, x[q])
    ensures Mul(PlaneRotation(n, p, q, c, s), x, w)[q] == Comb(s, x[p], c, x[q])
  {
    var rx := Mul(PlaneRotation(n, p, q, c, s), x, w);
    forall y | 0 <= y < n && y != p && y != q
      ensures rx[y] == x[y]
    {
      forall k | 0 <= k < w
        ensures rx[y][k] == x[y][k]
      {
        RotateEntry(n, p, q, c, s, x, w, y, k);
      }
    }
    forall k | 0 <= k < w
      ensures rx[p][k] == Comb(c, x[p], -s, x[q])[k]
      ensures rx[q][k] == Comb(s, x[p], c, x[q])[k]
    {
      RotateEntry(n, p, q, c, s, x, w, p, k);
      RotateEntry(n, p, q, c, s, x, w, q, k);
    }
  }

  lemma RotateEntry(n: nat, p: nat, q: nat, c: real, s: real, x: Matrix, w: nat, y: nat, k: nat)
    requires p < n && q < n && p != q && IsMatrix(x, n, w) && y < n && k < w
    ensures Mul(PlaneRotation(n, p, q, c, s), x, w)[y][k] ==
      if y == p then c * x[p][k] + -s * x[q][k]
      else if y == q then s * x[p][k] + c * x[q][k]
      else x[y][k]
  {
    var rot := PlaneRotation(n, p, q, c, s);
    var col := Column(x, k);
    assert Mul(rot, x, w)[y][k] == Dot(rot[y], col, n);
    if y == p || y == q {
      DotTwo(rot[y], col, n, p, q);
    } else {
      DotUnitLeft(rot[y], col, n, y);
    }
  }

  // ---------------------------------------------------------------------------
  // rotationMatrixPart1

  /// The working basis `v` and the accumulated product `m` of the elementary
  /// rotations applied so far.
  datatype Stage = Stage(v: Matrix, m: Matrix)

  ghost predicate StageShape(st: Stage, n: nat)
    requires n >= 2
  {
    IsMatrix(st.v, n, n - 2) && IsMatrix(st.m, n, n)
  }

  /// `atan2(v[r][c], v[r-1][c])`, as its cosine and sine.
  function Angle(v: Matrix, trig: (real, real) -> CosSin, c: nat, r: nat): CosSin
    requires 0 < r < |v| && c < |v[r]| && c < |v[r - 1]|
  {
    trig(v[r][c], v[r - 1][c])
  }

  /// One pass of the inner loop: `t = atan2(v[r][c], v[r-1][c])`, `R` rotates
  /// axes `r` and `r-1` by `t`, and both `v` and `M` are multiplied by `R`.
  function GivensStep(st: Stage, n: nat, trig: (real, real) -> CosSin, c: nat, r: nat): (st': Stage)
    requires n >= 2 && StageShape(st, n) && c < n - 2 && c < r < n
    ensures StageShape(st', n)
  {
    var t := Angle(st.v, trig, c, r);
    var rot := PlaneRotation(n, r, r - 1, t.cos, t.sin);
    Stage(Mul(rot, st.v, n - 2), Mul(rot, st.m, n))
  }

  /// The stage the inner loop for column `c` has reached once it has handled
  /// rows `N-1` down to `r+1`.
  function Sweep(st: Stage, n: nat, trig: (real, real) -> CosSin, c: nat, r: nat): (st': Stage)
    requires n >= 2 && StageShape(st, n) && c < n - 2 && c <= r <= n - 1
    ensures StageShape(st', n)
    decreases n - 1 - r
  {
    if r == n - 1 then st else GivensStep(Sweep(st, n, trig, c, r + 1), n, trig, c, r + 1)
  }

  /// The stage the outer loop has reached once it has handled columns `0 .. c-1`.
  function Columns(st: Stage, n: nat, trig: (real, real) -> CosSin, c: nat): (st': Stage)
    requires n >= 2 && StageShape(st, n) && c <= n - 2
    ensures StageShape(st', n)
  {
    if c == 0 then st else Sweep(Columns(st, n, trig, c - 1), n, trig, c - 1, c - 1)
  }

  /// What `rotationMatrixPart1` returns for the `N × (N-2)` basis `basis`.
  function Part1(basis: Matrix, n: nat, trig: (real, real) -> CosSin): (m: Matrix)
    requires n >= 2 && IsMatrix(basis, n, n - 2)
    ensures IsMatrix(m, n, n)
  {
    Columns(Stage(basis, Identity(n, n)), n, trig, n - 2).m
  }

  /// `rotationMatrixPart1<N>`: for `c = 0 .. N-3` and `r = N-1` down to `c+1`,
  /// build the elementary rotation from `atan2(v[r][c], v[r-1][c])` and
  /// left-multiply it into both `v` and `M`.
  method RotationPart1(basis: Matrix, n: nat, trig: (real, real) -> CosSin) returns (m: Matrix)
    requires n >= 2 && IsMatrix(basis, n, n - 2)
    ensures m == Part1(basis, n, trig)
  {
    ghost var start := Stage(basis, Identity(n, n));
    var v := basis;
    m := IdentityMatrix(n, n);
    for c := 0 to n - 2
      invariant IsMatrix(v, n, n - 2) && IsMatrix(m, n, n)
      invariant Stage(v, m) == Columns(start, n, trig, c)
    {
      v, m := SweepColumn(v, m, n, trig, c);
    }
  }

  /// The inner loop of `rotationMatrixPart1` for column `c`.
  method SweepColumn(v0: Matrix, m0: Matrix, n: nat, trig: (real, real) -> CosSin, c: nat)
    returns (v: Matrix, m: Matrix)
    requires n >= 2 && c < n - 2 && IsMatrix(v0, n, n - 2) && IsMatrix(m0, n, n)
    ensures IsMatrix(v, n, n - 2) && IsMatrix(m, n, n)
    ensures Stage(v, m) == Sweep(Stage(v0, m0), n, trig, c, c)
  {
    v, m := v0, m0;
    var r := n - 1;
    while r > c
      invariant c <= r <= n - 1
      invariant IsMatrix(v, n, n - 2) && IsMatrix(m, n, n)
      invariant Stage(v, m) == Sweep(Stage(v0, m0), n, trig, c, r)
    {
      var t := Angle(v, trig, c, r);
      var rot := PlaneRotationMatrix(n, r, r - 1, t.cos, t.sin);
      v := Multiply(rot, v, n - 2);
      m := Multiply(rot, m, n);
      r := r - 1;
    }
  }

  // ---------------------------------------------------------------------------
  // rotationMatrixPart2

  /// What `rotationMatrixPart2` returns: `inverse(part1) * (R * part1)`, with
  /// `R` rotating the last two axes by the angle whose cosine and sine are given.
  function Part2(part1: Matrix, n: nat, c: real, s: real): (r: Matrix)
    requires n >= 2 && IsMatrix(part1, n, n)
    ensures IsMatrix(r, n, n)
  {
    Mul(Inverse(part1, n), Mul(PlaneRotation(n, n - 2, n - 1, c, s), part1, n), n)
  }

  /// `rotationMatrixPart2<N>`: `R` is the identity with the cosine and sine of
  /// `theta` in its bottom-right 2×2 block; returns `inverse(part1) * (R * part1)`.
  method RotationPart2(part1: Matrix, n: nat, theta: CosSin) returns (r: Matrix)
    requires n >= 2 && IsMatrix(part1, n, n)
    ensures r == Part2(part1, n, theta.cos, theta.sin)
  {
    var rot := PlaneRotationMatrix(n, n - 2, n - 1, theta.cos, theta.sin);
    var inv := InverseMatrix(part1, n);
    var rp := Multiply(rot, part1, n);
    r := Multiply(inv, rp, n);
  }


  // ---------------------------------------------------------------------------
  // The loop order of rotationMatrixPart1.

  /// The elementary rotations applied one after another, left to right.
  function Fold(st: Stage, n: nat, trig: (real, real) -> CosSin, steps: seq<(nat, nat)>): (st': Stage)
    requires n >= 2 && StageShape(st, n)
    requires forall k :: 0 <= k < |steps| ==> steps[k].0 < n - 2 && steps[k].0 < steps[k].1 < n
    ensures StageShape(st', n)
  {
    if steps == [] then st
    else
      var last := steps[|steps| - 1];
      GivensStep(Fold(st, n, trig, steps[..|steps| - 1]), n, trig, last.0, last.1)
  }

  /// The pairs `(c, r)` the loops have visited by the time they stand at
  /// column `c`, row `r`.
  function Visited(n: nat, c: nat, r: nat): (s: seq<(nat, nat)>)
    requires n >= 2 && c < n - 2 && c <= r <= n - 1
    ensures forall k :: 0 <= k < |s| ==> s[k].0 < n - 2 && s[k].0 < s[k].1 < n
    decreases c, 1, n - 1 - r
  {
    if r == n - 1 then Done(n, c) else Visited(n, c, r + 1) + [(c, r + 1)]
  }

  /// The pairs visited by the time the outer loop reaches column `c`.
  function Done(n: nat, c: nat): (s: seq<(nat, nat)>)
    requires n >= 2 && c <= n - 2
    ensures forall k :: 0 <= k < |s| ==> s[k].0 < n - 2 && s[k].0 < s[k].1 < n
    decreases c, 0, 0
  {
    if c == 0 then [] else Visited(n, c - 1, c - 1)
  }

  /// Every pair the double loop of `rotationMatrixPart1` visits, in order.
  function Schedule(n: nat): (s: seq<(nat, nat)>)
    requires n >= 2
    ensures forall k :: 0 <= k < |s| ==> s[k].0 < n - 2 && s[k].0 < s[k].1 < n
  {
    Done(n, n - 2)
  }

  lemma {:induction false} SweepFolds(st: Stage, n: nat, trig: (real, real) -> CosSin, c: nat, r: nat)
    requires n >= 2 && StageShape(st, n) && c < n - 2 && c <= r <= n - 1
    ensures Sweep(Columns(st, n, trig, c), n, trig, c, r) == Fold(st, n, trig, Visited(n, c, r))
    decreases c, 1, n - 1 - r
  {
    if r == n - 1 {
      ColumnsFold(st, n, trig, c);
    } else {
      var k := r + 1;
      var s := Visited(n, c, k);
      SweepFolds(st, n, trig, c, k);
      assert (s + [(c, k)])[..|s|] == s;
    }
  }

  lemma {:induction false} ColumnsFold(st: Stage, n: nat, trig: (real, real) -> CosSin, c: nat)
    requires n >= 2 && StageShape(st, n) && c <= n - 2
    ensures Columns(st, n, trig, c) == Fold(st, n, trig, Done(n, c))
    decreases c, 0, 0
  {
    if c > 0 {
      SweepFolds(st, n, trig, c - 1, c - 1);
    }
  }

  /// `M` is the product of the elementary rotations, accumulated from the
  /// identity in the order of the schedule.
  lemma Part1FollowsSchedule(basis: Matrix, n: nat, trig: (real, real) -> CosSin)
    requires n >= 2 && IsMatrix(basis, n, n - 2)
    ensures Part1(basis, n, trig) == Fold(Stage(basis, Identity(n, n)), n, trig, Schedule(n)).m
  {
    ColumnsFold(Stage(basis, Identity(n, n)), n, trig, n - 2);
  }

  /// Which pairs have been visited at column `c`, row `r`: every `(c', r')`
  /// with `c' < r' < N` in an earlier column, or in column `c` below row `r`.
  lemma {:induction false} VisitedMembers(n: nat, c: nat, r: nat, x: (nat, nat))
    requires n >= 2 && c < n - 2 && c <= r <= n - 1
    ensures x in Visited(n, c, r) <==> x.0 < x.1 <= n - 1 && (x.0 < c || (x.0 == c && x.1 > r))
    decreases c, 1, n - 1 - r
  {
    if r == n - 1 {
      DoneMembers(n, c, x);
    } else {
      VisitedMembers(n, c, r + 1, x);
    }
  }

  lemma {:induction false} DoneMembers(n: nat, c: nat, x: (nat, nat))
    requires n >= 2 && c <= n - 2
    ensures x in Done(n, c) <==> x.0 < c && x.0 < x.1 <= n - 1
    decreases c, 0, 0
  {
    if c > 0 {
      VisitedMembers(n, c - 1, c - 1, x);
    }
  }

  /// The double loop visits exactly the pairs `(c, r)` with `c < N-2` and `c < r < N`.
  lemma ScheduleMembers(n: nat, x: (nat, nat))
    requires n >= 2
    ensures x in Schedule(n) <==> x.0 < n - 2 && x.0 < x.1 <= n - 1
  {
    DoneMembers(n, n - 2, x);
  }

  /// `(c, r)` comes strictly before `(c', r')`: columns ascending, rows descending.
  ghost predicate Before(x: (nat, nat), y: (nat, nat))
  {
    x.0 < y.0 || (x.0 == y.0 && x.1 > y.1)
  }

  ghost predicate InOrder(s: seq<(nat, nat)>)
  {
    forall i, j :: 0 <= i < j < |s| ==> Before(s[i], s[j])
  }

  lemma {:induction false} VisitedInOrder(n: nat, c: nat, r: nat)
    requires n >= 2 && c < n - 2 && c <= r <= n - 1
    ensures InOrder(Visited(n, c, r))
    decreases c, 1, n - 1 - r
  {
    if r == n - 1 {
      DoneInOrder(n, c);
    } else {
      var k := r + 1;
      var s := Visited(n, c, k);
      VisitedInOrder(n, c, k);
      forall i | 0 <= i < |s|
        ensures Before(s[i], (c, k))
      {
        VisitedMembers(n, c, k, s[i]);
      }
      assert Visited(n, c, r) == s + [(c, k)];
    }
  }

  lemma {:induction false} DoneInOrder(n: nat, c: nat)
    requires n >= 2 && c <= n - 2
    ensures InOrder(Done(n, c))
    decreases c, 0, 0
  {
    if c > 0 {
      VisitedInOrder(n, c - 1, c - 1);
    }
  }

  /// The double loop visits `c` ascending and, within a column, `r` descending;
  /// in particular no pair is visited twice.
  lemma ScheduleInOrder(n: nat)
    requires n >= 2
    ensures InOrder(Schedule(n))
  {
    DoneInOrder(n, n - 2);
  }

  lemma {:induction false} DoneLength(n: nat, c: nat)
    requires n >= 2 && c <= n - 2
    ensures 2 * |Done(n, c)| == c * (2 * n - c - 1)
    decreases c, 0, 0
  {
    if c > 0 {
      DoneLength(n, c - 1);
      VisitedLength(n, c - 1, c - 1);
      assert c * (2 * n - c - 1) == (c - 1) * (2 * n - c) + 2 * (n - c);
    }
  }

  lemma {:induction false} VisitedLength(n: nat, c: nat, r: nat)
    requires n >= 2 && c < n - 2 && c <= r <= n - 1
    ensures |Visited(n, c, r)| == |Done(n, c)| + (n - 1 - r)
    decreases c, 1, n - 1 - r
  {
    if r < n - 1 {
      VisitedLength(n, c, r + 1);
    }
  }

  /// Part 1 applies `N(N-1)/2 - 1` elementary rotations.
  lemma ScheduleLength(n: nat)
    requires n >= 2
    ensures |Schedule(n)| + 1 == n * (n - 1) / 2
  {
    DoneLength(n, n - 2);
    assert (n - 2) * (2 * n - (n - 2) - 1) == n * (n - 1) - 2;
  }

  // ---------------------------------------------------------------------------
  // What part 1 achieves.

  lemma GivensStepTracks(st: Stage, n: nat, trig: (real, real) -> CosSin, c: nat, r: nat, basis: Matrix)
    requires n >= 2 && StageShape(st, n) && c < n - 2 && c < r < n && IsMatrix(basis, n, n - 2)
    requires st.v == Mul(st.m, basis, n - 2)
    ensures GivensStep(st, n, trig, c, r).v == Mul(GivensStep(st, n, trig, c, r).m, basis, n - 2)
  {
    var t := Angle(st.v, trig, c, r);
    MulAssoc(PlaneRotation(n, r, r - 1, t.cos, t.sin), st.m, basis, n, n, n, n - 2);
  }

  lemma {:induction false} SweepTracks(st: Stage, n: nat, trig: (real, real) -> CosSin, c: nat, r: nat, basis: Matrix)
    requires n >= 2 && StageShape(st, n) && c < n - 2 && c <= r <= n - 1 && IsMatrix(basis, n, n - 2)
    requires st.v == Mul(st.m, basis, n - 2)
    ensures Sweep(st, n, trig, c, r).v == Mul(Sweep(st, n, trig, c, r).m, basis, n - 2)
    decreases n - 1 - r
  {
    if r < n - 1 {
      var k := r + 1;
      SweepTracks(st, n, trig, c, k, basis);
      GivensStepTracks(Sweep(st, n, trig, c, k), n, trig, c, k, basis);
    }
  }

  /// `v` stays equal to `M · basis`: every elementary rotation is applied to both.
  lemma {:induction false} ColumnsTrack(st: Stage, n: nat, trig: (real, real) -> CosSin, c: nat, basis: Matrix)
    requires n >= 2 && StageShape(st, n) && c <= n - 2 && IsMatrix(basis, n, n - 2)
    requires st.v == Mul(st.m, basis, n - 2)
    ensures Columns(st, n, trig, c).v == Mul(Columns(st, n, trig, c).m, basis, n - 2)
  {
    if c > 0 {
      ColumnsTrack(st, n, trig, c - 1, basis);
      SweepTracks(Columns(st, n, trig, c - 1), n, trig, c - 1, c - 1, basis);
    }
  }

  /// `atan2` gives an angle whose rotation clears the second coordinate:
  /// `cos t · y − sin t · x == 0` for `t = atan2(y, x)`.
  ghost predicate ZeroingTrig(trig: (real, real) -> CosSin)
  {
    forall y: real, x: real :: trig(y, x).cos * y - trig(y, x).sin * x == 0.0
  }

  /// Every entry of the `N × (N-2)` matrix `v` below its diagonal is zero.
  ghost predicate UpperTriangular(v: Matrix, n: nat)
    requires n >= 2 && IsMatrix(v, n, n - 2)
  {
    forall c, r :: 0 <= c < n - 2 && c < r < n ==> v[r][c] == 0.0
  }

  /// Below the diagonal, columns before `c` are zero, and so are the rows
  /// below `r` of column `c`.
  ghost predicate ClearedBefore(v: Matrix, n: nat, c: nat, r: nat)
    requires n >= 2 && IsMatrix(v, n, n - 2)
  {
    forall c', r' :: 0 <= c' < n - 2 && c' < r' < n && (c' < c || (c' == c && r' > r)) ==> v[r'][c'] == 0.0
  }

  /// The step at `(c, r)` zeroes `v[r][c]` and keeps every entry already cleared.
  lemma GivensStepClears(st: Stage, n: nat, trig: (real, real) -> CosSin, c: nat, r: nat)
    requires n >= 2 && StageShape(st, n) && c < n - 2 && c < r < n
    requires ZeroingTrig(trig) && ClearedBefore(st.v, n, c, r)
    ensures ClearedBefore(GivensStep(st, n, trig, c, r).v, n, c, r - 1)
  {
    var t := Angle(st.v, trig, c, r);
    var v := st.v;
    var v' := GivensStep(st, n, trig, c, r).v;
    forall c', r' | 0 <= c' < n - 2 && c' < r' < n && (c' < c || (c' == c && r' > r - 1))
      ensures v'[r'][c'] == 0.0
    {
      RotateEntry(n, r, r - 1, t.cos, t.sin, v, n - 2, r', c');
    }
  }

  lemma {:induction false} SweepClears(st: Stage, n: nat, trig: (real, real) -> CosSin, c: nat, r: nat)
    requires n >= 2 && StageShape(st, n) && c < n - 2 && c <= r <= n - 1
    requires ZeroingTrig(trig) && ClearedBefore(st.v, n, c, n - 1)
    ensures ClearedBefore(Sweep(st, n, trig, c, r).v, n, c, r)
    decreases n - 1 - r
  {
    if r < n - 1 {
      var k := r + 1;
      SweepClears(st, n, trig, c, k);
      GivensStepClears(Sweep(st, n, trig, c, k), n, trig, c, k);
    }
  }

  lemma {:induction false} ColumnsClear(st: Stage, n: nat, trig: (real, real) -> CosSin, c: nat)
    requires n >= 2 && StageShape(st, n) && c <= n - 2 && ZeroingTrig(trig)
    ensures ClearedBefore(Columns(st, n, trig, c).v, n, c, n - 1)
  {
    if c > 0 {
      var prev := Columns(st, n, trig, c - 1);
      ColumnsClear(st, n, trig, c - 1);
      SweepClears(prev, n, trig, c - 1, c - 1);
    }
  }

  /// With an exact `atan2`, `M · basis` is upper triangular: every entry below
  /// the diagonal is zero, in particular the last two rows.
  lemma Part1Triangularizes(basis: Matrix, n: nat, trig: (real, real) -> CosSin)
    requires n >= 2 && IsMatrix(basis, n, n - 2) && ZeroingTrig(trig)
    ensures UpperTriangular(Mul(Part1(basis, n, trig), basis, n - 2), n)
  {
    var st := Stage(basis, Identity(n, n));
    IdentityLeft(basis, n, n - 2);
    ColumnsTrack(st, n, trig, n - 2, basis);
    ColumnsClear(st, n, trig, n - 2);
  }

  // ---------------------------------------------------------------------------
  // What part 2 achieves.

  /// With the identity as part 1 the result is the rotation of the last two axes itself.
  lemma Part2OfIdentity(n: nat, c: real, s: real)
    requires n >= 2
    ensures Part2(Identity(n, n), n, c, s) == PlaneRotation(n, n - 2, n - 1, c, s)
  {
    var rot := PlaneRotation(n, n - 2, n - 1, c, s);
    InverseOfIdentity(n);
    IdentityRight(rot, n, n);
    IdentityLeft(rot, n, n);
  }

  /// At angle 0 (`cos = 1`, `sin = 0`) the result is `inverse(part1) * part1`,
  /// which is the identity whenever no running pivot of `part1` is zero.
  lemma Part2ZeroAngle(part1: Matrix, n: nat)
    requires n >= 2 && IsMatrix(part1, n, n)
    ensures Part2(part1, n, 1.0, 0.0) == Mul(Inverse(part1, n), part1, n)
    ensures PivotsNonzero(part1, n) ==> Part2(part1, n, 1.0, 0.0) == Identity(n, n)
  {
    MatrixExt(PlaneRotation(n, n - 2, n - 1, 1.0, 0.0), Identity(n, n), n, n);
    IdentityLeft(part1, n, n);
    if PivotsNonzero(part1, n) {
      InverseIsLeftInverse(part1, n);
    }
  }

  /// The rotation of the last two axes leaves alone a matrix whose last two rows are zero.
  lemma RotationFixesUpperRows(n: nat, c: real, s: real, t: Matrix, w: nat)
    requires n >= 2 && IsMatrix(t, n, w)
    requires forall y, k :: n - 2 <= y < n && 0 <= k < w ==> t[y][k] == 0.0
    ensures Mul(PlaneRotation(n, n - 2, n - 1, c, s), t, w) == t
  {
    var rt := Mul(PlaneRotation(n, n - 2, n - 1, c, s), t, w);
    forall y, k | 0 <= y < n && 0 <= k < w
      ensures rt[y][k] == t[y][k]
    {
      RotateEntry(n, n - 2, n - 1, c, s, t, w, y, k);
      if y == n - 2 || y == n - 1 {
        assert t[n - 2][k] == 0.0 && t[n - 1][k] == 0.0;
      }
    }
    MatrixExt(rt, t, n, w);
  }

  /// The construction rotates only the chosen plane: with an exact `atan2` and
  /// no zero running pivot in part 1, the rotation for any angle maps every
  /// held axis in `basis` to itself.
  lemma Part2FixesHeldAxes(basis: Matrix, n: nat, trig: (real, real) -> CosSin, c: real, s: real)
    requires n >= 2 && IsMatrix(basis, n, n - 2) && ZeroingTrig(trig)
    requires PivotsNonzero(Part1(basis, n, trig), n)
    ensures Mul(Part2(Part1(basis, n, trig), n, c, s), basis, n - 2) == basis
  {
    var m := Part1(basis, n, trig);
    var inv := Inverse(m, n);
    var rot := PlaneRotation(n, n - 2, n - 1, c, s);
    var t := Mul(m, basis, n - 2);
    Part1Triangularizes(basis, n, trig);
    RotationFixesUpperRows(n, c, s, t, n - 2);
    calc {
      Mul(Part2(m, n, c, s), basis, n - 2);
      Mul(Mul(inv, Mul(rot, m, n), n), basis, n - 2);
      { MulAssoc(inv, Mul(rot, m, n), basis, n, n, n, n - 2); }
      Mul(inv, Mul(Mul(rot, m, n), basis, n - 2), n - 2);
      { MulAssoc(rot, m, basis, n, n, n, n - 2); }
      Mul(inv, Mul(rot, t, n - 2), n - 2);
      Mul(inv, t, n - 2);
      { MulAssoc(inv, m, basis, n, n, n, n - 2); }
      Mul(Mul(inv, m, n), basis, n - 2);
      { InverseIsLeftInverse(m, n); }
      Mul(Identity(n, n), basis, n - 2);
      { IdentityLeft(basis, n, n - 2); }
      basis;
    }
  }

  // ---------------------------------------------------------------------------
  // Part 1 is orthogonal, so its transpose is its exact inverse.

  /// `atan2` yields a genuine angle: its cosine and sine satisfy `cos² + sin² = 1`.
  ghost predicate UnitTrig(trig: (real, real) -> CosSin)
  {
    forall y: real, x: real :: trig(y, x).cos * trig(y, x).cos + trig(y, x).sin * trig(y, x).sin == 1.0
  }

  lemma UnitAngle(trig: (real, real) -> CosSin, y: real, x: real)
    requires UnitTrig(trig)
    ensures trig(y, x).cos * trig(y, x).cos + trig(y, x).sin * trig(y, x).sin == 1.0
  {
  }

  /// Rotating back by the opposite angle undoes a rotation by a genuine angle.
  lemma RotationUndone(n: nat, p: nat, q: nat, c: real, s: real, s': real)
    requires p < n && q < n && p != q && c * c + s * s == 1.0 && s' == -s
    ensures Mul(PlaneRotation(n, p, q, c, s'), PlaneRotation(n, p, q, c, s), n) == Identity(n, n)
  {
    var rot := PlaneRotation(n, p, q, c, s);
    var back := Mul(PlaneRotation(n, p, q, c, s'), rot, n);
    forall y, k | 0 <= y < n && 0 <= k < n
      ensures back[y][k] == Identity(n, n)[y][k]
    {
      RotateEntry(n, p, q, c, s', rot, n, y, k);
      if y == p || y == q {
        assert rot[p][k] == (if k == p then c else if k == q then -s else 0.0);
        assert rot[q][k] == (if k == p then s else if k == q then c else 0.0);
      }
    }
    MatrixExt(back, Identity(n, n), n, n);
  }

  /// A rotation by a genuine angle is orthogonal; its transpose rotates by the
  /// opposite angle.
  lemma RotationOrthogonal(n: nat, p: nat, q: nat, c: real, s: real)
    requires p < n && q < n && p != q && c * c + s * s == 1.0
    ensures Orthogonal(PlaneRotation(n, p, q, c, s), n)
    ensures Transpose(PlaneRotation(n, p, q, c, s), n, n) == PlaneRotation(n, p, q, c, -s)
  {
    var rot := PlaneRotation(n, p, q, c, s);
    var back := PlaneRotation(n, p, q, c, -s);
    MatrixExt(Transpose(rot, n, n), back, n, n);
    RotationUndone(n, p, q, c, s, -s);
    RotationUndone(n, p, q, c, -s, s);
  }

  lemma {:induction false} SweepOrthogonal(st: Stage, n: nat, trig: (real, real) -> CosSin, c: nat, r: nat)
    requires n >= 2 && StageShape(st, n) && c < n - 2 && c <= r <= n - 1
    requires UnitTrig(trig) && Orthogonal(st.m, n)
    ensures Orthogonal(Sweep(st, n, trig, c, r).m, n)
    decreases n - 1 - r
  {
    if r < n - 1 {
      var k := r + 1;
      var prev := Sweep(st, n, trig, c, k);
      SweepOrthogonal(st, n, trig, c, k);
      var t := Angle(prev.v, trig, c, k);
      UnitAngle(trig, prev.v[k][c], prev.v[k - 1][c]);
      RotationOrthogonal(n, k, k - 1, t.cos, t.sin);
      OrthogonalProduct(PlaneRotation(n, k, k - 1, t.cos, t.sin), prev.m, n);
    }
  }

  lemma {:induction false} ColumnsOrthogonal(st: Stage, n: nat, trig: (real, real) -> CosSin, c: nat)
    requires n >= 2 && StageShape(st, n) && c <= n - 2
    requires UnitTrig(trig) && Orthogonal(st.m, n)
    ensures Orthogonal(Columns(st, n, trig, c).m, n)
  {
    if c > 0 {
      ColumnsOrthogonal(st, n, trig, c - 1);
      SweepOrthogonal(Columns(st, n, trig, c - 1), n, trig, c - 1, c - 1);
    }
  }

  /// With a genuine `atan2`, part 1 is a product of rotations and so orthogonal:
  /// its transpose inverts it on both sides, whatever its running pivots.
  lemma Part1Orthogonal(basis: Matrix, n: nat, trig: (real, real) -> CosSin)
    requires n >= 2 && IsMatrix(basis, n, n - 2) && UnitTrig(trig)
    ensures Orthogonal(Part1(basis, n, trig), n)
  {
    IdentityOrthogonal(n);
    ColumnsOrthogonal(Stage(basis, Identity(n, n)), n, trig, n - 2);
  }

  /// Part 2 with the exact inverse of an orthogonal part 1, its transpose, in
  /// place of the elimination: `transpose(part1) * (R * part1)`.
  function Part2Exact(part1: Matrix, n: nat, c: real, s: real): (r: Matrix)
    requires n >= 2 && IsMatrix(part1, n, n)
    ensures IsMatrix(r, n, n)
  {
    Mul(Transpose(part1, n, n), Mul(PlaneRotation(n, n - 2, n - 1, c, s), part1, n), n)
  }

  /// Where the elimination meets no zero pivot, it finds the exact inverse, so
  /// the program's part 2 and the exact one agree.
  lemma Part2ExactIsPart2(part1: Matrix, n: nat, c: real, s: real)
    requires n >= 2 && Orthogonal(part1, n) && PivotsNonzero(part1, n)
    ensures Part2(part1, n, c, s) == Part2Exact(part1, n, c, s)
  {
    var inv := Inverse(part1, n);
    var t := Transpose(part1, n, n);
    InverseIsLeftInverse(part1, n);
    calc {
      inv;
      { IdentityRight(inv, n, n); }
      Mul(inv, Mul(part1, t, n), n);
      { MulAssoc(inv, part1, t, n, n, n, n); }
      Mul(Identity(n, n), t, n);
      { IdentityLeft(t, n, n); }
      t;
    }
  }

  /// At angle 0 the exact part 2 of any orthogonal part 1 is the identity.
  lemma Part2ExactZeroAngle(part1: Matrix, n: nat)
    requires n >= 2 && Orthogonal(part1, n)
    ensures Part2Exact(part1, n, 1.0, 0.0) == Identity(n, n)
  {
    MatrixExt(PlaneRotation(n, n - 2, n - 1, 1.0, 0.0), Identity(n, n), n, n);
    IdentityLeft(part1, n, n);
  }

  /// The construction with the exact inverse rotates only the chosen plane: for
  /// every basis and every angle, each held axis is mapped to itself.
  lemma Part2ExactFixesHeldAxes(basis: Matrix, n: nat, trig: (real, real) -> CosSin, c: real, s: real)
    requires n >= 2 && IsMatrix(basis, n, n - 2) && ZeroingTrig(trig) && UnitTrig(trig)
    ensures Mul(Part2Exact(Part1(basis, n, trig), n, c, s), basis, n - 2) == basis
  {
    var m := Part1(basis, n, trig);
    var tm := Transpose(m, n, n);
    var rot := PlaneRotation(n, n - 2, n - 1, c, s);
    var t := Mul(m, basis, n - 2);
    Part1Triangularizes(basis, n, trig);
    Part1Orthogonal(basis, n, trig);
    RotationFixesUpperRows(n, c, s, t, n - 2);
    calc {
      Mul(Part2Exact(m, n, c, s), basis, n - 2);
      Mul(Mul(tm, Mul(rot, m, n), n), basis, n - 2);
      { MulAssoc(tm, Mul(rot, m, n), basis, n, n, n, n - 2); }
      Mul(tm, Mul(Mul(rot, m, n), basis, n - 2), n - 2);
      { MulAssoc(rot, m, basis, n, n, n, n - 2); }
      Mul(tm, Mul(rot, t, n - 2), n - 2);
      Mul(tm, t, n - 2);
      { MulAssoc(tm, m, basis, n, n, n, n - 2); }
      Mul(Mul(tm, m, n), basis, n - 2);
      { IdentityLeft(basis, n, n - 2); }
      basis;
    }
  }
}
