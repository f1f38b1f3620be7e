/// Dense matrix algebra of matrix.h over exact reals: the identity-producing
/// default constructor, the matrix×vector and matrix×matrix products.
/// A `Matrix` is a row-major sequence of rows; its shape is carried by `IsMatrix`.
module Matrices {

  type Matrix = seq<seq<real>>

  datatype Option<T> = None | Some(value: T)

  /// `m` has `h` rows of `w` entries each.
  ghost predicate IsMatrix(m: Matrix, h: nat, w: nat)
  {
    |m| == h && forall y :: 0 <= y < h ==> |m[y]| == w
  }

  /// The matrix a default-constructed `Matrix<H, W>` holds: 1 on the leading
  /// diagonal, 0 everywhere else.
  function Identity(h: nat, w: nat): (m: Matrix)
    ensures IsMatrix(m, h, w)
  {
    seq(h, y => seq(w, x => if x == y then 1.0 else 0.0))
  }

  /// The running fused multiply-add sum `u[0]*v[0] + ... + u[n-1]*v[n-1]`,
  /// accumulated in index order.
  function Dot(u: seq<real>, v: seq<real>, n: nat): real
    requires n <= |u| && n <= |v|
  {
    if n == 0 then 0.0 else Dot(u, v, n - 1) + u[n - 1] * v[n - 1]
  }

  /// Column `col` of `m`.
  function Column(m: Matrix, col: nat): (c: seq<real>)
    requires forall y :: 0 <= y < |m| ==> col < |m[y]|
    ensures |c| == |m|
  {
    seq(|m|, y requires 0 <= y < |m| => m[y][col])
  }

  /// The entry-wise linear combination `a*u + b*w`.
  function Comb(a: real, u: seq<real>, b: real, w: seq<real>): (r: seq<real>)
    requires |u| == |w|
    ensures |r| == |u|
  {
    seq(|u|, k requires 0 <= k < |u| => a * u[k] + b * w[k])
  }

  /// `M·v` for a square matrix, which the source writes `v * M`.
  function Apply(m: Matrix, v: seq<real>): (r: seq<real>)
    requires IsMatrix(m, |v|, |v|)
    ensures |r| == |v|
  {
    seq(|v|, y requires 0 <= y < |v| => Dot(m[y], v, |v|))
  }

  /// The product of an H×W matrix `a` and a W×P matrix `b`.
  function Mul(a: Matrix, b: Matrix, p: nat): (c: Matrix)
    requires IsMatrix(a, |a|, |b|) && IsMatrix(b, |b|, p)
    ensures IsMatrix(c, |a|, p)
  {
    seq(|a|, row requires 0 <= row < |a| =>
      seq(p, col requires 0 <= col < p => Dot(a[row], Column(b, col), |b|)))
  }

  // ---------------------------------------------------------------------------
  // The operations as the source runs them: loops writing one cell at a time.

  /// The default constructor `Matrix<H, W>()`: each row starts as zeros and
  /// row `y < W` gets a 1 at column `y`.
  method IdentityMatrix(h: nat, w: nat) returns (m: Matrix)
    ensures IsMatrix(m, h, w)
    ensures forall y, x :: 0 <= y < h && 0 <= x < w ==> m[y][x] == if x == y then 1.0 else 0.0
    ensures m == Identity(h, w)
  {
    m := [];
    for y := 0 to h
      invariant |m| == y
      invariant forall y' :: 0 <= y' < y ==> m[y'] == Identity(h, w)[y']
    {
      var line := seq(w, _ => 0.0);
      if y < w {
        line := line[y := 1.0];
      }
      m := m + [line];
    }
  }

  /// The friend `operator*(vector, matrix)`: `result[y]` accumulates
  /// `matrix[y][i] * vector[i]` over `i` with a fused multiply-add.
  method MultiplyVector(v: seq<real>, m: Matrix) returns (r: seq<real>)
    requires IsMatrix(m, |v|, |v|)
    ensures r == Apply(m, v)
  {
    var n := |v|;
    r := [];
    for y := 0 to n
      invariant |r| == y
      invariant forall y' :: 0 <= y' < y ==> r[y'] == Dot(m[y'], v, n)
    {
      var rowResult := 0.0;
      for i := 0 to n
        invariant rowResult == Dot(m[y], v, i)
      {
        rowResult := m[y][i] * v[i] + rowResult;
      }
      r := r + [rowResult];
    }
  }

  /// The member `operator*(Matrix<W, P>)`: `ans[row][col]` accumulates
  /// `a[row][x] * b[x][col]` over `x` with a fused multiply-add.
  method Multiply(a: Matrix, b: Matrix, p: nat) returns (ans: Matrix)
    requires IsMatrix(a, |a|, |b|) && IsMatrix(b, |b|, p)
    ensures ans == Mul(a, b, p)
  {
    ans := [];
    for row := 0 to |a|
      invariant |ans| == row
      invariant forall r :: 0 <= r < row ==> ans[r] == Mul(a, b, p)[r]
    {
      var line := [];
      for col := 0 to p
        invariant |line| == col
        invariant forall c :: 0 <= c < col ==> line[c] == Dot(a[row], Column(b, c), |b|)
      {
        var dotProduct := 0.0;
        for x := 0 to |b|
          invariant dotProduct == Dot(a[row], Column(b, col), x)
        {
          dotProduct := a[row][x] * b[x][col] + dotProduct;
        }
        line := line + [dotProduct];
      }
      ans := ans + [line];
    }
  }

  // ---------------------------------------------------------------------------
  // Facts about sums.

  /// A sum against a vector that is zero outside position `i` picks out entry `i`.
  lemma {:induction false} DotUnitLeft(u: seq<real>, v: seq<real>, n: nat, i: nat)
    requires n <= |u| && n <= |v|
    requires forall k :: 0 <= k < n && k != i ==> u[k] == 0.0
    ensures Dot(u, v, n) == if i < n then u[i] * v[i] else 0.0
  {
    if n > 0 {
      DotUnitLeft(u, v, n - 1, i);
    }
  }

  /// The mirror image of `DotUnitLeft`, for a sparse right operand.
  lemma {:induction false} DotUnitRight(u: seq<real>, v: seq<real>, n: nat, i: nat)
    requires n <= |u| && n <= |v|
    requires forall k :: 0 <= k < n && k != i ==> v[k] == 0.0
    ensures Dot(u, v, n) == if i < n then u[i] * v[i] else 0.0
  {
    if n > 0 {
      DotUnitRight(u, v, n - 1, i);
    }
  }

  /// A sum against a vector that is zero outside positions `i` and `j`.
  lemma {:induction false} DotTwo(u: seq<real>, v: seq<real>, n: nat, i: nat, j: nat)
    requires n <= |u| && n <= |v| && i < n && j < n && i != j
    requires forall k :: 0 <= k < n && k != i && k != j ==> u[k] == 0.0
    ensures Dot(u, v, n) == u[i] * v[i] + u[j] * v[j]
  {
    var top := if i < j then j else i;
    var other := if i < j then i else j;
    DotPrefixTwo(u, v, n, top, other);
  }

  lemma {:induction false} DotPrefixTwo(u: seq<real>, v: seq<real>, n: nat, top: nat, other: nat)
    requires n <= |u| && n <= |v| && other < top < n
    requires forall k :: 0 <= k < n && k != top && k != other ==> u[k] == 0.0
    ensures Dot(u, v, n) == u[top] * v[top] + u[other] * v[other]
  {
    if n == top + 1 {
      DotUnitLeft(u, v, top, other);
    } else {
      DotPrefixTwo(u, v, n - 1, top, other);
    }
  }

  /// Sums are linear in their left operand.
  lemma {:induction false} DotLinear(a: real, u: seq<real>, b: real, w: seq<real>, v: seq<real>, n: nat)
    requires |u| == |w| && n <= |u| && n <= |v|
    ensures Dot(Comb(a, u, b, w), v, n) == a * Dot(u, v, n) + b * Dot(w, v, n)
  {
    if n > 0 {
      DotLinear(a, u, b, w, v, n - 1);
      var x, y, z := u[n - 1], w[n - 1], v[n - 1];
      assert (a * x + b * y) * z == a * (x * z) + b * (y * z);
    }
  }

  /// Only the first `n` entries take part in a sum of length `n`.
  lemma {:induction false} DotAgree(u: seq<real>, u': seq<real>, v: seq<real>, v': seq<real>, n: nat)
    requires n <= |u| && n <= |u'| && n <= |v| && n <= |v'|
    requires forall k :: 0 <= k < n ==> u[k] == u'[k] && v[k] == v'[k]
    ensures Dot(u, v, n) == Dot(u', v', n)
  {
    if n > 0 {
      DotAgree(u, u', v, v', n - 1);
    }
  }

  // ---------------------------------------------------------------------------
  // The identity is neutral, and the product is associative.

  /// Two matrices of one shape that agree entry by entry are equal.
  lemma MatrixExt(a: Matrix, b: Matrix, h: nat, w: nat)
    requires IsMatrix(a, h, w) && IsMatrix(b, h, w)
    requires forall y, x :: 0 <= y < h && 0 <= x < w ==> a[y][x] == b[y][x]
    ensures a == b
  {
    forall y | 0 <= y < h
      ensures a[y] == b[y]
    {
    }
  }

  /// Multiplying a vector by the default-constructed square matrix returns it unchanged.
  lemma ApplyIdentity(v: seq<real>)
    ensures Apply(Identity(|v|, |v|), v) == v
  {
    var n := |v|;
    forall y | 0 <= y < n
      ensures Apply(Identity(n, n), v)[y] == v[y]
    {
      DotUnitLeft(Identity(n, n)[y], v, n, y);
    }
  }

  /// The identity is a left neutral element of the product.
  lemma IdentityLeft(m: Matrix, h: nat, w: nat)
    requires IsMatrix(m, h, w)
    ensures Mul(Identity(h, h), m, w) == m
  {
    forall y, x | 0 <= y < h && 0 <= x < w
      ensures Mul(Identity(h, h), m, w)[y][x] == m[y][x]
    {
      DotUnitLeft(Identity(h, h)[y], Column(m, x), h, y);
    }
    MatrixExt(Mul(Identity(h, h), m, w), m, h, w);
  }

  /// The identity is a right neutral element of the product.
  lemma IdentityRight(m: Matrix, h: nat, w: nat)
    requires IsMatrix(m, h, w)
    ensures Mul(m, Identity(w, w), w) == m
  {
    forall y, x | 0 <= y < h && 0 <= x < w
      ensures Mul(m, Identity(w, w), w)[y][x] == m[y][x]
    {
      DotUnitRight(m[y], Column(Identity(w, w), x), w, x);
    }
    MatrixExt(Mul(m, Identity(w, w), w), m, h, w);
  }

  /// Exchanging the order of a double sum: `(u·B)·z == u·(B·z)` over the
  /// first `k` rows of `B`.
  lemma {:induction false} DotExchange(u: seq<real>, b: Matrix, z: seq<real>, w: nat, p: nat, k: nat)
    requires IsMatrix(b, w, p) && |u| == w && |z| == p && k <= w
    ensures Dot(RowTimes(u, b, p, k), z, p) == Dot(u, Apply'(b, z, p), k)
  {
    if k == 0 {
      DotZeroLeft(RowTimes(u, b, p, 0), z, p);
    } else {
      DotExchange(u, b, z, w, p, k - 1);
      DotLinear(1.0, RowTimes(u, b, p, k - 1), u[k - 1], b[k - 1], z, p);
    }
  }

  /// `u · B` over the first `k` rows of `B`, accumulated row by row.
  function RowTimes(u: seq<real>, b: Matrix, p: nat, k: nat): (r: seq<real>)
    requires IsMatrix(b, |b|, p) && k <= |u| && k <= |b|
    ensures |r| == p
  {
    if k == 0 then seq(p, j => 0.0)
    else Comb(1.0, RowTimes(u, b, p, k - 1), u[k - 1], b[k - 1])
  }

  /// `B · z` for a `W × P` matrix `B`.
  function Apply'(b: Matrix, z: seq<real>, p: nat): (r: seq<real>)
    requires IsMatrix(b, |b|, p) && |z| == p
    ensures |r| == |b|
  {
    seq(|b|, i requires 0 <= i < |b| => Dot(b[i], z, p))
  }

  /// Entry `j` of `u · B` is the dot product of `u` with column `j`.
  lemma {:induction false} RowTimesEntries(u: seq<real>, b: Matrix, p: nat, k: nat)
    requires IsMatrix(b, |b|, p) && k <= |u| && k <= |b|
    ensures forall j :: 0 <= j < p ==> RowTimes(u, b, p, k)[j] == Dot(u, Column(b, j), k)
  {
    if k > 0 {
      RowTimesEntries(u, b, p, k - 1);
      forall j | 0 <= j < p
        ensures RowTimes(u, b, p, k)[j] == Dot(u, Column(b, j), k)
      {
        assert Column(b, j)[k - 1] == b[k - 1][j];
      }
    }
  }

  lemma {:induction false} DotZeroLeft(u: seq<real>, v: seq<real>, n: nat)
    requires n <= |u| && n <= |v|
    requires forall k :: 0 <= k < n ==> u[k] == 0.0
    ensures Dot(u, v, n) == 0.0
  {
    if n > 0 {
      DotZeroLeft(u, v, n - 1);
    }
  }

  /// The product is associative (over exact reals; the source's rounding is not modelled).
  lemma MulAssoc(a: Matrix, b: Matrix, c: Matrix, h: nat, w: nat, p: nat, q: nat)
    requires IsMatrix(a, h, w) && IsMatrix(b, w, p) && IsMatrix(c, p, q)
    ensures Mul(Mul(a, b, p), c, q) == Mul(a, Mul(b, c, q), q)
  {
    var ab := Mul(a, b, p);
    var bc := Mul(b, c, q);
    forall y, x | 0 <= y < h && 0 <= x < q
      ensures Mul(ab, c, q)[y][x] == Mul(a, bc, q)[y][x]
    {
      DotExchange(a[y], b, Column(c, x), w, p, w);
      RowTimesEntries(a[y], b, p, w);
      assert ab[y] == RowTimes(a[y], b, p, w);
      assert Column(bc, x) == Apply'(b, Column(c, x), p);
    }
    MatrixExt(Mul(ab, c, q), Mul(a, bc, q), h, q);
  }

  /// Applying a product to a vector applies its factors right to left.
  lemma ApplyMul(a: Matrix, b: Matrix, v: seq<real>)
    requires IsMatrix(a, |v|, |v|) && IsMatrix(b, |v|, |v|)
    ensures Apply(Mul(a, b, |v|), v) == Apply(a, Apply(b, v))
  {
    var n := |v|;
    var ab := Mul(a, b, n);
    forall y | 0 <= y < n
      ensures Apply(ab, v)[y] == Apply(a, Apply(b, v))[y]
    {
      DotExchange(a[y], b, v, n, n, n);
      RowTimesEntries(a[y], b, n, n);
      assert ab[y] == RowTimes(a[y], b, n, n);
      assert Apply(b, v) == Apply'(b, v, n);
    }
  }

  // ---------------------------------------------------------------------------
  // Transposes and orthogonal matrices.

  /// The `W × H` transpose of an `H × W` matrix.
  function Transpose(m: Matrix, h: nat, w: nat): (t: Matrix)
    requires IsMatrix(m, h, w)
    ensures IsMatrix(t, w, h)
    ensures forall y, x :: 0 <= y < w && 0 <= x < h ==> t[y][x] == m[x][y]
  {
    seq(w, y requires 0 <= y < w => seq(h, x requires 0 <= x < h => m[x][y]))
  }

  /// The running sum does not depend on the order of its two operands.
  lemma {:induction false} DotCommutes(u: seq<real>, v: seq<real>, n: nat)
    requires n <= |u| && n <= |v|
    ensures Dot(u, v, n) == Dot(v, u, n)
  {
    if n > 0 {
      DotCommutes(u, v, n - 1);
    }
  }

  /// The transpose of a product is the product of the transposes, reversed.
  lemma TransposeMul(a: Matrix, b: Matrix, h: nat, w: nat, p: nat)
    requires IsMatrix(a, h, w) && IsMatrix(b, w, p)
    ensures Transpose(Mul(a, b, p), h, p) == Mul(Transpose(b, w, p), Transpose(a, h, w), h)
  {
    var ta := Transpose(a, h, w);
    var tb := Transpose(b, w, p);
    var lhs := Transpose(Mul(a, b, p), h, p);
    var rhs := Mul(tb, ta, h);
    forall y, x | 0 <= y < p && 0 <= x < h
      ensures lhs[y][x] == rhs[y][x]
    {
      assert tb[y] == Column(b, y);
      assert Column(ta, x) == a[x];
      DotCommutes(a[x], Column(b, y), w);
    }
    MatrixExt(lhs, rhs, p, h);
  }

  /// The transpose of a square matrix is its inverse on both sides.
  ghost predicate Orthogonal(m: Matrix, n: nat)
  {
    IsMatrix(m, n, n) &&
    Mul(Transpose(m, n, n), m, n) == Identity(n, n) &&
    Mul(m, Transpose(m, n, n), n) == Identity(n, n)
  }

  lemma IdentityOrthogonal(n: nat)
    ensures Orthogonal(Identity(n, n), n)
  {
    var id := Identity(n, n);
    MatrixExt(Transpose(id, n, n), id, n, n);
    IdentityLeft(id, n, n);
  }

  /// Orthogonal matrices are closed under products.
  lemma OrthogonalProduct(a: Matrix, b: Matrix, n: nat)
    requires Orthogonal(a, n) && Orthogonal(b, n)
    ensures Orthogonal(Mul(a, b, n), n)
  {
    var ab := Mul(a, b, n);
    var ta := Transpose(a, n, n);
    var tb := Transpose(b, n, n);
    TransposeMul(a, b, n, n, n);
    assert Transpose(ab, n, n) == Mul(tb, ta, n);
    calc {
      Mul(Mul(tb, ta, n), ab, n);
      { MulAssoc(tb, ta, ab, n, n, n, n); }
      Mul(tb, Mul(ta, ab, n), n);
      { MulAssoc(ta, a, b, n, n, n, n); }
      Mul(tb, Mul(Identity(n, n), b, n), n);
      { IdentityLeft(b, n, n); }
      Identity(n, n);
    }
    calc {
      Mul(ab, Mul(tb, ta, n), n);
      { MulAssoc(a, b, Mul(tb, ta, n), n, n, n, n); }
      Mul(a, Mul(b, Mul(tb, ta, n), n), n);
      { MulAssoc(b, tb, ta, n, n, n, n); }
      Mul(a, Mul(Identity(n, n), ta, n), n);
      { IdentityLeft(ta, n, n); }
      Identity(n, n);
    }
  }
}
