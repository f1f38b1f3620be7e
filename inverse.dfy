/// `inverseMatrix` of matrix.h: Gauss-Jordan elimination on the augmented
/// array `[A | I]`, without row exchanges, which gives up and returns the
/// identity as soon as the running pivot is exactly zero.
module Inversion {
  import opened Matrices

  /// The augmented `N × 2N` array: `A` on the left, the identity on the right.
  function Augment(m: Matrix, n: nat): (a: Matrix)
    requires IsMatrix(m, n, n)
    ensures IsMatrix(a, n, 2 * n)
  {
    seq(n, i requires 0 <= i < n =>
      seq(2 * n, k requires 0 <= k < 2 * n =>
        if k < n then m[i][k] else if k - n == i then 1.0 else 0.0))
  }

  /// Row `u` minus `t` times row `w`, across the whole row.
  function RowSub(u: seq<real>, w: seq<real>, t: real): (r: seq<real>)
    requires |u| == |w|
    ensures |r| == |u|
  {
    seq(|u|, k requires 0 <= k < |u| => u[k] - t * w[k])
  }

  /// Pivot step `i`: every row `j != i` loses `a[j][i] / a[i][i]` times row `i`.
  function EliminationStep(a: Matrix, n: nat, i: nat): (b: Matrix)
    requires IsMatrix(a, n, 2 * n) && i < n && a[i][i] != 0.0
    ensures IsMatrix(b, n, 2 * n)
  {
    seq(n, j requires 0 <= j < n =>
      if j == i then a[i] else RowSub(a[j], a[i], a[j][i] / a[i][i]))
  }

  /// The augmented array after pivot steps `0 .. i-1`, or `None` if one of
  /// those steps met a running pivot equal to zero.
  function Eliminate(a: Matrix, n: nat, i: nat): (r: Option<Matrix>)
    requires IsMatrix(a, n, 2 * n) && i <= n
    ensures r.Some? ==> IsMatrix(r.value, n, 2 * n)
  {
    if i == 0 then Some(a)
    else
      match Eliminate(a, n, i - 1)
      case None => None
      case Some(b) => if b[i - 1][i - 1] == 0.0 then None else Some(EliminationStep(b, n, i - 1))
  }

  /// No running pivot of `m` is zero, so the elimination runs to its end.
  ghost predicate PivotsNonzero(m: Matrix, n: nat)
    requires IsMatrix(m, n, n)
  {
    Eliminate(Augment(m, n), n, n).Some?
  }

  /// Columns `0 .. i-1` of the left half are zero off the diagonal and
  /// nonzero on it.
  ghost predicate DiagonalUpTo(b: Matrix, n: nat, i: nat)
    requires IsMatrix(b, n, 2 * n) && i <= n
  {
    (forall c, j :: 0 <= c < i && 0 <= j < n && j != c ==> b[j][c] == 0.0) &&
    (forall c :: 0 <= c < i ==> b[c][c] != 0.0)
  }

  /// The right half divided row by row by the final diagonal.
  function Normalized(b: Matrix, n: nat): (r: Matrix)
    requires IsMatrix(b, n, 2 * n)
    requires forall i :: 0 <= i < n ==> b[i][i] != 0.0
    ensures IsMatrix(r, n, n)
  {
    seq(n, i requires 0 <= i < n => seq(n, j requires 0 <= j < n => b[i][j + n] / b[i][i]))
  }

  /// What `inverseMatrix` returns.
  function Inverse(m: Matrix, n: nat): (r: Matrix)
    requires IsMatrix(m, n, n)
    ensures IsMatrix(r, n, n)
  {
    match Eliminate(Augment(m, n), n, n)
    case None => Identity(n, n)
    case Some(b) =>
      EliminateDiagonal(Augment(m, n), n, n);
      Normalized(b, n)
  }

  // ---------------------------------------------------------------------------
  // The elimination as the source runs it, in place on the augmented array.

  ghost function Snapshot(a: array2<real>): (s: Matrix)
    reads a
    ensures IsMatrix(s, a.Length0, a.Length1)
  {
    seq(a.Length0, i requires 0 <= i < a.Length0 reads a =>
      seq(a.Length1, k requires 0 <= k < a.Length1 reads a => a[i, k]))
  }

  /// `inverseMatrix<N>`: builds `[A | I]`, eliminates column by column in
  /// place (returning the identity on a zero running pivot), divides the right
  /// half by the diagonal and copies it out.
  method InverseMatrix(m: Matrix, n: nat) returns (r: Matrix)
    requires IsMatrix(m, n, n)
    ensures r == Inverse(m, n)
  {
    ghost var aug := Augment(m, n);
    var a := AugmentedArray(m, n);
    for i := 0 to n
      invariant Eliminate(aug, n, i) == Some(Snapshot(a))
    {
      if a[i, i] == 0.0 {
        // Cannot invert: the default-constructed identity.
        NoneStaysNone(aug, n, i + 1, n);
        r := IdentityMatrix(n, n);
        return;
      }
      EliminateInPlace(a, n, i);
    }
    EliminateDiagonal(aug, n, n);
    r := NormalizeAndCopy(a, n);
  }

  /// The last two loops: divide the right half by the diagonal in place, then
  /// copy it out.
  method NormalizeAndCopy(a: array2<real>, n: nat) returns (r: Matrix)
    requires a.Length0 == n && a.Length1 == 2 * n
    requires forall i :: 0 <= i < n ==> Snapshot(a)[i][i] != 0.0
    modifies a
    ensures r == Normalized(old(Snapshot(a)), n)
  {
    ghost var b := Snapshot(a);
    assert forall i :: 0 <= i < n ==> a[i, i] == b[i][i];
    DivideByDiagonal(a, n);
    r := RightHalf(a, n);
    forall i, j | 0 <= i < n && 0 <= j < n
      ensures r[i][j] == Normalized(b, n)[i][j]
    {
      assert r[i][j] == a[i, j + n] == b[i][j + n] / b[i][i];
    }
    MatrixExt(r, Normalized(b, n), n, n);
  }

  /// The translating loop: `ans[i][j - N] = a[i][j]` for the right half.
  method RightHalf(a: array2<real>, n: nat) returns (r: Matrix)
    requires a.Length0 == n && a.Length1 == 2 * n
    ensures IsMatrix(r, n, n)
    ensures forall i, j :: 0 <= i < n && 0 <= j < n ==> r[i][j] == a[i, j + n]
  {
    r := [];
    for i := 0 to n
      invariant |r| == i
      invariant forall i' :: 0 <= i' < i ==> |r[i']| == n
      invariant forall i', j :: 0 <= i' < i && 0 <= j < n ==> r[i'][j] == a[i', j + n]
    {
      var line := [];
      for j := n to 2 * n
        invariant |line| == j - n
        invariant forall j' :: 0 <= j' < j - n ==> line[j'] == a[i, j' + n]
      {
        line := line + [a[i, j]];
      }
      r := r + [line];
    }
  }

  /// The augmenting loop: `a[i][j] = m[i][j]` and `a[i][j + N] = (i == j)`.
  method AugmentedArray(m: Matrix, n: nat) returns (a: array2<real>)
    requires IsMatrix(m, n, n)
    ensures fresh(a) && a.Length0 == n && a.Length1 == 2 * n
    ensures Snapshot(a) == Augment(m, n)
  {
    ghost var aug := Augment(m, n);
    a := new real[n, 2 * n];
    for i := 0 to n
      invariant forall i', k :: 0 <= i' < i && 0 <= k < 2 * n ==> a[i', k] == aug[i'][k]
    {
      for j := 0 to n
        invariant forall i', k :: 0 <= i' < i && 0 <= k < 2 * n ==> a[i', k] == aug[i'][k]
        invariant forall k :: 0 <= k < j ==> a[i, k] == aug[i][k]
        invariant forall k :: n <= k < n + j ==> a[i, k] == aug[i][k]
      {
        a[i, j] := m[i][j];
        a[i, j + n] := if i == j then 1.0 else 0.0;
      }
    }
    MatrixExt(Snapshot(a), aug, n, 2 * n);
  }

  /// One pass of the elimination loop for a nonzero pivot `a[i][i]`: every
  /// other row `j` loses `ratio = a[j][i] / a[i][i]` times row `i`.
  method EliminateInPlace(a: array2<real>, n: nat, i: nat)
    requires a.Length0 == n && a.Length1 == 2 * n && i < n && a[i, i] != 0.0
    modifies a
    ensures Snapshot(a) == EliminationStep(old(Snapshot(a)), n, i)
  {
    ghost var s := Snapshot(a);
    for j := 0 to n
      invariant forall r, k :: 0 <= r < n && 0 <= k < 2 * n ==>
        a[r, k] == if r < j && r != i then RowSub(s[r], s[i], s[r][i] / s[i][i])[k] else s[r][k]
    {
      if i != j {
        var ratio := a[j, i] / a[i, i];
        SubtractRow(a, j, i, ratio);
      }
    }
    MatrixExt(Snapshot(a), EliminationStep(s, n, i), n, 2 * n);
  }

  /// The innermost loop: `a[j][k] -= ratio * a[i][k]` across the whole row.
  method SubtractRow(a: array2<real>, j: nat, i: nat, ratio: real)
    requires j < a.Length0 && i < a.Length0 && i != j
    modifies a
    ensures forall r, k :: 0 <= r < a.Length0 && 0 <= k < a.Length1 ==>
      a[r, k] == if r == j then old(a[j, k]) - ratio * old(a[i, k]) else old(a[r, k])
  {
    for k := 0 to a.Length1
      invariant forall r, k' :: 0 <= r < a.Length0 && 0 <= k' < a.Length1 ==>
        a[r, k'] == if r == j && k' < k then old(a[j, k']) - ratio * old(a[i, k']) else old(a[r, k'])
    {
      a[j, k] := a[j, k] - ratio * a[i, k];
    }
  }

  /// The normalising loop: `a[i][j] /= a[i][i]` for every `j` in the right half.
  method DivideByDiagonal(a: array2<real>, n: nat)
    requires a.Length0 == n && a.Length1 == 2 * n
    requires forall i :: 0 <= i < n ==> a[i, i] != 0.0
    modifies a
    ensures forall r, k :: 0 <= r < n && 0 <= k < 2 * n ==>
      a[r, k] == if k >= n then old(a[r, k]) / old(a[r, r]) else old(a[r, k])
  {
    for i := 0 to n
      invariant forall r', k :: 0 <= r' < n && 0 <= k < 2 * n ==>
        a[r', k] == if r' < i && k >= n then old(a[r', k]) / old(a[r', r']) else old(a[r', k])
    {
      for j := n to 2 * n
        invariant forall r', k :: 0 <= r' < n && 0 <= k < 2 * n ==>
          a[r', k] == if (r' < i || (r' == i && k < j)) && k >= n then old(a[r', k]) / old(a[r', r']) else old(a[r', k])
      {
        a[i, j] := a[i, j] / a[i, i];
      }
    }
  }

  // ---------------------------------------------------------------------------
  // What the elimination does.

  /// Once a running pivot was zero the elimination stays failed.
  lemma {:induction false} NoneStaysNone(a: Matrix, n: nat, i: nat, k: nat)
    requires IsMatrix(a, n, 2 * n) && i <= k <= n
    requires Eliminate(a, n, i).None?
    ensures Eliminate(a, n, k).None?
    decreases k - i
  {
    if i < k {
      NoneStaysNone(a, n, i + 1, k);
    }
  }

  /// Pivot step `i` leaves row `i` as it was and clears column `i` in every other row.
  lemma StepClearsColumn(a: Matrix, n: nat, i: nat)
    requires IsMatrix(a, n, 2 * n) && i < n && a[i][i] != 0.0
    ensures EliminationStep(a, n, i)[i] == a[i]
    ensures forall j :: 0 <= j < n && j != i ==> EliminationStep(a, n, i)[j][i] == 0.0
  {
  }

  /// One entry of a pivot step.
  lemma StepEntry(b: Matrix, n: nat, p: nat, j: nat, c: nat)
    requires IsMatrix(b, n, 2 * n) && p < n && b[p][p] != 0.0 && j < n && c < 2 * n
    ensures EliminationStep(b, n, p)[j][c] ==
      if j == p then b[p][c] else b[j][c] - b[j][p] / b[p][p] * b[p][c]
  {
  }

  lemma CancelRatio(x: real, y: real)
    requires y != 0.0
    ensures x - x / y * y == 0.0
  {
  }

  /// After `i` steps columns `0 .. i-1` of the left half are diagonal with a
  /// nonzero diagonal.
  lemma {:induction false} EliminateDiagonal(a: Matrix, n: nat, i: nat)
    requires IsMatrix(a, n, 2 * n) && i <= n
    requires Eliminate(a, n, i).Some?
    ensures DiagonalUpTo(Eliminate(a, n, i).value, n, i)
  {
    if i > 0 {
      EliminateDiagonal(a, n, i - 1);
      StepExtendsDiagonal(Eliminate(a, n, i - 1).value, n, i - 1);
    }
  }

  /// Step `p` clears column `p` and disturbs no earlier column: it subtracts
  /// multiples of row `p`, which is zero in every earlier column.
  lemma StepExtendsDiagonal(b: Matrix, n: nat, p: nat)
    requires IsMatrix(b, n, 2 * n) && p < n && b[p][p] != 0.0
    requires DiagonalUpTo(b, n, p)
    ensures DiagonalUpTo(EliminationStep(b, n, p), n, p + 1)
  {
    var e := EliminationStep(b, n, p);
    forall c, j | 0 <= c < p + 1 && 0 <= j < n && j != c
      ensures e[j][c] == 0.0
    {
      OffDiagonalEntry(b, n, p, j, c);
    }
    forall c | 0 <= c < p + 1
      ensures e[c][c] != 0.0
    {
      StepEntry(b, n, p, c, c);
    }
  }

  lemma OffDiagonalEntry(b: Matrix, n: nat, p: nat, j: nat, c: nat)
    requires IsMatrix(b, n, 2 * n) && p < n && b[p][p] != 0.0
    requires DiagonalUpTo(b, n, p)
    requires j < n && c <= p && j != c
    ensures EliminationStep(b, n, p)[j][c] == 0.0
  {
    StepEntry(b, n, p, j, c);
    if j != p && c == p {
      CancelRatio(b[j][p], b[p][p]);
    }
  }

  /// Every row of the left half equals the same row of the right half times
  /// `m`: the relation `Left == Right · m` that the row operations keep.
  ghost predicate TracksProduct(b: Matrix, m: Matrix, n: nat)
    requires IsMatrix(b, n, 2 * n) && IsMatrix(m, n, n)
  {
    forall r, col :: 0 <= r < n && 0 <= col < n ==> b[r][col] == Dot(b[r][n..], Column(m, col), n)
  }

  lemma AugmentTracksProduct(m: Matrix, n: nat)
    requires IsMatrix(m, n, n)
    ensures TracksProduct(Augment(m, n), m, n)
  {
    var a := Augment(m, n);
    forall r, col | 0 <= r < n && 0 <= col < n
      ensures a[r][col] == Dot(a[r][n..], Column(m, col), n)
    {
      assert a[r][n..] == Identity(n, n)[r];
      DotUnitLeft(a[r][n..], Column(m, col), n, r);
    }
  }

  lemma StepTracksProduct(b: Matrix, m: Matrix, n: nat, i: nat)
    requires IsMatrix(b, n, 2 * n) && IsMatrix(m, n, n) && i < n && b[i][i] != 0.0
    requires TracksProduct(b, m, n)
    ensures TracksProduct(EliminationStep(b, n, i), m, n)
  {
    var e := EliminationStep(b, n, i);
    forall r, col | 0 <= r < n && 0 <= col < n
      ensures e[r][col] == Dot(e[r][n..], Column(m, col), n)
    {
      if r != i {
        StepRowTracksProduct(b, m, n, i, r, col);
      }
    }
  }

  lemma StepRowTracksProduct(b: Matrix, m: Matrix, n: nat, i: nat, r: nat, col: nat)
    requires IsMatrix(b, n, 2 * n) && IsMatrix(m, n, n) && i < n && b[i][i] != 0.0
    requires r < n && r != i && col < n
    requires b[r][col] == Dot(b[r][n..], Column(m, col), n)
    requires b[i][col] == Dot(b[i][n..], Column(m, col), n)
    ensures EliminationStep(b, n, i)[r][col] == Dot(EliminationStep(b, n, i)[r][n..], Column(m, col), n)
  {
    var t := b[r][i] / b[i][i];
    StepRightHalf(b, n, i, r);
    DotLinear(1.0, b[r][n..], -t, b[i][n..], Column(m, col), n);
    StepEntry(b, n, i, r, col);
  }

  /// The right half of a row after a pivot step, as a linear combination.
  lemma StepRightHalf(b: Matrix, n: nat, i: nat, r: nat)
    requires IsMatrix(b, n, 2 * n) && i < n && b[i][i] != 0.0 && r < n && r != i
    ensures EliminationStep(b, n, i)[r][n..] == Comb(1.0, b[r][n..], -(b[r][i] / b[i][i]), b[i][n..])
  {
    var t := b[r][i] / b[i][i];
    var row := EliminationStep(b, n, i)[r];
    var combined := Comb(1.0, b[r][n..], -t, b[i][n..]);
    forall k | 0 <= k < n
      ensures row[n..][k] == combined[k]
    {
      StepEntry(b, n, i, r, n + k);
    }
  }

  lemma {:induction false} EliminateTracksProduct(m: Matrix, n: nat, i: nat)
    requires IsMatrix(m, n, n) && i <= n
    requires Eliminate(Augment(m, n), n, i).Some?
    ensures TracksProduct(Eliminate(Augment(m, n), n, i).value, m, n)
  {
    var a := Augment(m, n);
    if i == 0 {
      AugmentTracksProduct(m, n);
    } else {
      var b := Eliminate(a, n, i - 1).value;
      assert b[i - 1][i - 1] != 0.0 && Eliminate(a, n, i).value == EliminationStep(b, n, i - 1);
      EliminateTracksProduct(m, n, i - 1);
      StepTracksProduct(b, m, n, i - 1);
    }
  }

  /// When no running pivot is zero the result is a left inverse: `Inverse(m) · m == I`.
  lemma InverseIsLeftInverse(m: Matrix, n: nat)
    requires IsMatrix(m, n, n)
    requires PivotsNonzero(m, n)
    ensures Mul(Inverse(m, n), m, n) == Identity(n, n)
  {
    var b := Eliminate(Augment(m, n), n, n).value;
    EliminateDiagonal(Augment(m, n), n, n);
    EliminateTracksProduct(m, n, n);
    var inv := Inverse(m, n);
    assert inv == Normalized(b, n);
    forall r, col | 0 <= r < n && 0 <= col < n
      ensures Mul(inv, m, n)[r][col] == Identity(n, n)[r][col]
    {
      LeftInverseEntry(m, n, b, r, col);
    }
    MatrixExt(Mul(inv, m, n), Identity(n, n), n, n);
  }

  lemma LeftInverseEntry(m: Matrix, n: nat, b: Matrix, r: nat, col: nat)
    requires IsMatrix(m, n, n) && IsMatrix(b, n, 2 * n) && r < n && col < n
    requires DiagonalUpTo(b, n, n) && TracksProduct(b, m, n)
    ensures Dot(Normalized(b, n)[r], Column(m, col), n) == if r == col then 1.0 else 0.0
  {
    var d := b[r][r];
    var row := Normalized(b, n)[r];
    var scaled := Comb(1.0 / d, b[r][n..], 0.0, b[r][n..]);
    forall k | 0 <= k < n
      ensures row[k] == scaled[k]
    {
      assert row[k] == b[r][k + n] / d;
    }
    DotAgree(row, scaled, Column(m, col), Column(m, col), n);
    DotLinear(1.0 / d, b[r][n..], 0.0, b[r][n..], Column(m, col), n);
    assert b[r][col] == (if r == col then d else 0.0);
  }

  /// A running pivot of zero makes `inverseMatrix` return the identity.
  lemma ZeroPivotGivesIdentity(m: Matrix, n: nat)
    requires IsMatrix(m, n, n)
    requires !PivotsNonzero(m, n)
    ensures Inverse(m, n) == Identity(n, n)
  {
  }

  /// The test is on the running pivot, not on `m`'s own diagonal: this
  /// invertible matrix has ones on its diagonal, yet step 0 turns the second
  /// pivot into 0, so the result is the identity.
  lemma RunningPivotExample()
    ensures var m := [[1.0, 1.0, 0.0], [1.0, 1.0, 1.0], [0.0, 1.0, 1.0]];
      IsMatrix(m, 3, 3) &&
      (forall i :: 0 <= i < 3 ==> m[i][i] == 1.0) &&
      Mul(m, [[0.0, 1.0, -1.0], [1.0, -1.0, 1.0], [-1.0, 1.0, 0.0]], 3) == Identity(3, 3) &&
      Inverse(m, 3) == Identity(3, 3)
  {
    var m := [[1.0, 1.0, 0.0], [1.0, 1.0, 1.0], [0.0, 1.0, 1.0]];
    var w := [[0.0, 1.0, -1.0], [1.0, -1.0, 1.0], [-1.0, 1.0, 0.0]];
    var a := Augment(m, 3);
    var a1 := EliminationStep(a, 3, 0);
    assert Eliminate(a, 3, 1) == Some(a1);
    assert a1[1][1] == 0.0;
    NoneStaysNone(a, 3, 2, 3);
    forall y, x | 0 <= y < 3 && 0 <= x < 3
      ensures Mul(m, w, 3)[y][x] == Identity(3, 3)[y][x]
    {
      DotOfThree(m[y], Column(w, x));
    }
    MatrixExt(Mul(m, w, 3), Identity(3, 3), 3, 3);
  }

  lemma DotOfThree(u: seq<real>, v: seq<real>)
    requires |u| == 3 && |v| == 3
    ensures Dot(u, v, 3) == u[0] * v[0] + u[1] * v[1] + u[2] * v[2]
  {
    assert Dot(u, v, 1) == u[0] * v[0];
  }

  /// The exchange matrix is its own inverse, but needs a row swap, which the
  /// elimination never does: it comes back as the identity.
  lemma SwapMatrixFallsBack()
    ensures var s := [[0.0, 1.0], [1.0, 0.0]];
      IsMatrix(s, 2, 2) &&
      Mul(s, s, 2) == Identity(2, 2) &&
      Inverse(s, 2) == Identity(2, 2) && Inverse(s, 2) != s
  {
    var s := [[0.0, 1.0], [1.0, 0.0]];
    assert Eliminate(Augment(s, 2), 2, 1).None?;
    NoneStaysNone(Augment(s, 2), 2, 1, 2);
    forall y, x | 0 <= y < 2 && 0 <= x < 2
      ensures Mul(s, s, 2)[y][x] == Identity(2, 2)[y][x]
    {
      assert Dot(s[y], Column(s, x), 1) == s[y][0] * s[0][x];
    }
    MatrixExt(Mul(s, s, 2), Identity(2, 2), 2, 2);
    assert Identity(2, 2)[0][0] != s[0][0];
  }

  /// `m` is zero off the diagonal and nonzero on it.
  ghost predicate IsInvertibleDiagonal(m: Matrix, n: nat)
    requires IsMatrix(m, n, n)
  {
    (forall i, j :: 0 <= i < n && 0 <= j < n && i != j ==> m[i][j] == 0.0) &&
    (forall i :: 0 <= i < n ==> m[i][i] != 0.0)
  }

  /// A diagonal matrix with a nonzero diagonal inverts to the reciprocal diagonal.
  lemma InverseOfDiagonal(m: Matrix, n: nat)
    requires IsMatrix(m, n, n) && IsInvertibleDiagonal(m, n)
    ensures PivotsNonzero(m, n)
    ensures forall i, j :: 0 <= i < n && 0 <= j < n ==>
      Inverse(m, n)[i][j] == if i == j then 1.0 / m[i][i] else 0.0
  {
    var a := Augment(m, n);
    DiagonalStepsChangeNothing(m, n, n);
    forall i, j | 0 <= i < n && 0 <= j < n
      ensures Inverse(m, n)[i][j] == if i == j then 1.0 / m[i][i] else 0.0
    {
      assert Inverse(m, n)[i][j] == a[i][j + n] / a[i][i];
    }
  }

  lemma {:induction false} DiagonalStepsChangeNothing(m: Matrix, n: nat, i: nat)
    requires IsMatrix(m, n, n) && IsInvertibleDiagonal(m, n) && i <= n
    ensures Eliminate(Augment(m, n), n, i) == Some(Augment(m, n))
  {
    if i > 0 {
      DiagonalStepsChangeNothing(m, n, i - 1);
      var a := Augment(m, n);
      var p := i - 1;
      forall j | 0 <= j < n
        ensures EliminationStep(a, n, p)[j] == a[j]
      {
        if j != p {
          assert a[j][p] == m[j][p] == 0.0;
          var t := a[j][p] / a[p][p];
          assert t == 0.0;
          forall k | 0 <= k < 2 * n
            ensures RowSub(a[j], a[p], t)[k] == a[j][k]
          {
          }
        }
      }
      assert EliminationStep(a, n, p) == a;
    }
  }

  /// The identity inverts to itself.
  lemma InverseOfIdentity(n: nat)
    ensures Inverse(Identity(n, n), n) == Identity(n, n)
  {
    InverseOfDiagonal(Identity(n, n), n);
    MatrixExt(Inverse(Identity(n, n), n), Identity(n, n), n, n);
  }
}
