/// The rotation planes of main.cpp: `dof = N(N-1)/2`, the walk over every
/// 0/1 mask with `N-2` ones by `std::prev_permutation`, and the `N × (N-2)`
/// indicator basis of the held axes built from each mask and handed to
/// `rotationMatrixPart1`.
module Planes {
  import opened Matrices
  import opened Rotations

  /// `dof`: the number of basic rotation planes.
  function Dof(n: nat): (r: nat)
    ensures 2 * r == n * (n - 1)
  {
    ProductOfNeighboursEven(n);
    n * (n - 1) / 2
  }

  /// `n * (n - 1)` is even, so the division in `dof` is exact.
  lemma {:induction false} ProductOfNeighboursEven(n: nat)
    ensures (n * (n - 1)) % 2 == 0
  {
    if n > 1 {
      ProductOfNeighboursEven(n - 1);
      assert n * (n - 1) == (n - 1) * (n - 2) + 2 * (n - 1);
    }
  }

  // ---------------------------------------------------------------------------
  // std::prev_permutation, as libstdc++ implements it.

  /// The last position `k < i` at which `s` descends (`s[k+1] < s[k]`).
  function LastDescent(s: seq<int>, i: nat): (r: Option<nat>)
    requires i < |s|
    ensures r.Some? ==>
      r.value < i && s[r.value + 1] < s[r.value] && Ascending(s, r.value + 1, i)
    ensures r.None? ==> Ascending(s, 0, i)
  {
    if i == 0 then None
    else if s[i] < s[i - 1] then Some(i - 1)
    else LastDescent(s, i - 1)
  }

  /// `s` does not descend anywhere from position `lo` to position `hi`.
  ghost predicate Ascending(s: seq<int>, lo: nat, hi: nat)
    requires hi < |s|
  {
    forall a, b :: lo <= a < b <= hi ==> s[a] <= s[b]
  }

  /// The last position `r` with `k < r < j` and `s[r] < x`.
  function LastBelow(s: seq<int>, x: int, j: nat, k: nat): (r: nat)
    requires k + 1 < j <= |s| && s[k + 1] < x
    ensures k < r < j && s[r] < x
    ensures forall t :: r < t < j ==> x <= s[t]
    decreases j
  {
    if s[j - 1] < x then j - 1 else LastBelow(s, x, j - 1, k)
  }

  function Reverse(s: seq<int>): (r: seq<int>)
    ensures |r| == |s|
  {
    seq(|s|, i requires 0 <= i < |s| => s[|s| - 1 - i])
  }

  /// `std::prev_permutation`: find the last descent `k`, swap `s[k]` with the
  /// last element smaller than it, and reverse everything after `k`; with no
  /// descent, reverse the whole sequence and report `false`.
  function PrevPermutation(s: seq<int>): (r: (bool, seq<int>))
    ensures |r.1| == |s|
    ensures !r.0 <==> |s| < 2 || Ascending(s, 0, |s| - 1)
  {
    if |s| < 2 then (false, s)
    else
      match LastDescent(s, |s| - 1)
      case None => (false, Reverse(s))
      case Some(k) => (true, SwapAndReverse(s, k, LastBelow(s, s[k], |s|, k)))
  }

  /// Swap `s[k]` and `s[j]`, then reverse everything after `k`.
  function SwapAndReverse(s: seq<int>, k: nat, j: nat): seq<int>
    requires k < j < |s|
  {
    var t := s[k := s[j]][j := s[k]];
    t[..k + 1] + Reverse(t[k + 1..])
  }

  lemma {:induction false} ReversePermutes(s: seq<int>)
    ensures multiset(Reverse(s)) == multiset(s)
    decreases |s|
  {
    if s != [] {
      var last := |s| - 1;
      ReversePermutes(s[..last]);
      assert Reverse(s) == [s[last]] + Reverse(s[..last]);
      assert s == s[..last] + [s[last]];
    }
  }

  /// `std::prev_permutation` rearranges the elements and never changes them.
  lemma PrevPermutationPermutes(s: seq<int>)
    ensures multiset(PrevPermutation(s).1) == multiset(s)
  {
    if |s| >= 2 {
      ReversePermutes(s);
      match LastDescent(s, |s| - 1)
      case None =>
      case Some(k) =>
        var t := s[k := s[LastBelow(s, s[k], |s|, k)]][LastBelow(s, s[k], |s|, k) := s[k]];
        ReversePermutes(t[k + 1..]);
        assert t == t[..k + 1] + t[k + 1..];
        assert multiset(t) == multiset(s);
    }
  }

  // ---------------------------------------------------------------------------
  // The masks.

  /// The mask with its two zeros at positions `p < q` and ones elsewhere.
  function MaskOf(n: nat, p: nat, q: nat): (s: seq<int>)
    ensures |s| == n
  {
    seq(n, i => if i == p || i == q then 0 else 1)
  }

  /// The zeros of the mask walk from `(p, q)` to `(p, q-1)`, or from
  /// `(p, p+1)` to `(p-1, N-1)`.
  function NextPair(n: nat, p: nat, q: nat): (nat, nat)
    requires p < q < n && !(p == 0 && q == 1)
  {
    if q > p + 1 then (p, q - 1) else (p - 1, n - 1)
  }

  /// One `std::prev_permutation` on a mask: it moves to the next pair of zero
  /// positions, and from `00 1…1` it wraps to `1…1 00` and reports `false`.
  lemma PrevOfMask(n: nat, p: nat, q: nat)
    requires p < q < n
    ensures p == 0 && q == 1 ==> PrevPermutation(MaskOf(n, p, q)) == (false, MaskOf(n, n - 2, n - 1))
    ensures !(p == 0 && q == 1) ==>
      PrevPermutation(MaskOf(n, p, q)) == (true, MaskOf(n, NextPair(n, p, q).0, NextPair(n, p, q).1))
  {
    if p == 0 && q == 1 {
      PrevOfLastMask(n);
    } else if q > p + 1 {
      PrevMovesSecondZero(n, p, q);
    } else {
      PrevMovesFirstZero(n, p);
    }
  }

  /// With a descent at `a` and none after it below `i`, the last descent is `a`.
  lemma {:induction false} LastDescentIs(s: seq<int>, i: nat, a: nat)
    requires a < i < |s| && s[a + 1] < s[a]
    requires Ascending(s, a + 1, i)
    ensures LastDescent(s, i) == Some(a)
  {
    if i - 1 > a {
      LastDescentIs(s, i - 1, a);
    }
  }

  lemma {:induction false} NoDescent(s: seq<int>, i: nat)
    requires i < |s|
    requires Ascending(s, 0, i)
    ensures LastDescent(s, i) == None
  {
    if i > 0 {
      NoDescent(s, i - 1);
    }
  }

  /// With `s[r] < x` and nothing below `x` after `r` before `j`, the search finds `r`.
  lemma {:induction false} LastBelowIs(s: seq<int>, x: int, j: nat, k: nat, r: nat)
    requires k < r < j <= |s| && s[k + 1] < x && s[r] < x
    requires forall t :: r < t < j ==> x <= s[t]
    ensures LastBelow(s, x, j, k) == r
    decreases j
  {
    if j - 1 > r {
      LastBelowIs(s, x, j - 1, k, r);
    }
  }

  /// Once the last descent `k` and the element `j` to swap it with are known,
  /// `std::prev_permutation` swaps them and reverses the tail.
  lemma PrevAtDescent(s: seq<int>, k: nat, j: nat)
    requires k < j < |s| && s[k + 1] < s[k] && Ascending(s, k + 1, |s| - 1)
    requires s[j] < s[k] && forall t :: j < t < |s| ==> s[k] <= s[t]
    ensures PrevPermutation(s) == (true, SwapAndReverse(s, k, j))
  {
    LastDescentIs(s, |s| - 1, k);
    LastBelowIs(s, s[k], |s|, k, j);
  }

  lemma PrevOfLastMask(n: nat)
    requires 2 <= n
    ensures PrevPermutation(MaskOf(n, 0, 1)) == (false, MaskOf(n, n - 2, n - 1))
  {
    var s := MaskOf(n, 0, 1);
    NoDescent(s, n - 1);
    assert Reverse(s) == MaskOf(n, n - 2, n - 1);
  }

  lemma PrevMovesSecondZero(n: nat, p: nat, q: nat)
    requires p + 1 < q < n
    ensures PrevPermutation(MaskOf(n, p, q)) == (true, MaskOf(n, NextPair(n, p, q).0, NextPair(n, p, q).1))
  {
    var s := MaskOf(n, p, q);
    var k := q - 1;
    SwapSecondZero(n, p, q);
    PrevAtDescent(s, k, q);
  }

  lemma SwapSecondZero(n: nat, p: nat, q: nat)
    requires p + 1 < q < n
    ensures SwapAndReverse(MaskOf(n, p, q), q - 1, q) == MaskOf(n, NextPair(n, p, q).0, NextPair(n, p, q).1)
  {
    var s := MaskOf(n, p, q);
    var t := s[q - 1 := s[q]][q := s[q - 1]];
    var r := t[..q] + Reverse(t[q..]);
    var m := MaskOf(n, p, q - 1);
    forall i | 0 <= i < n
      ensures r[i] == m[i]
    {
      if i >= q {
        assert r[i] == t[n - 1 - (i - q)];
      }
    }
    assert r == m;
    assert SwapAndReverse(s, q - 1, q) == r;
    assert NextPair(n, p, q) == (p, q - 1);
  }

  lemma PrevMovesFirstZero(n: nat, p: nat)
    requires 0 < p && p + 1 < n
    ensures PrevPermutation(MaskOf(n, p, p + 1)) == (true, MaskOf(n, NextPair(n, p, p + 1).0, NextPair(n, p, p + 1).1))
  {
    var s := MaskOf(n, p, p + 1);
    var k, j := p - 1, p + 1;
    SwapFirstZero(n, p);
    PrevAtDescent(s, k, j);
  }

  lemma SwapFirstZero(n: nat, p: nat)
    requires 0 < p && p + 1 < n
    ensures SwapAndReverse(MaskOf(n, p, p + 1), p - 1, p + 1) == MaskOf(n, NextPair(n, p, p + 1).0, NextPair(n, p, p + 1).1)
  {
    var s := MaskOf(n, p, p + 1);
    var t := s[p - 1 := s[p + 1]][p + 1 := s[p - 1]];
    var r := t[..p] + Reverse(t[p..]);
    var m := MaskOf(n, p - 1, n - 1);
    forall i | 0 <= i < n
      ensures r[i] == m[i]
    {
      if i >= p {
        assert r[i] == t[n - 1 - (i - p)];
      }
    }
    assert r == m;
    assert SwapAndReverse(s, p - 1, p + 1) == r;
    assert NextPair(n, p, p + 1) == (p - 1, n - 1);
  }

  /// The pairs of zero positions the walk visits from `(p, q)` on.
  function PairsFrom(n: nat, p: nat, q: nat): (s: seq<(nat, nat)>)
    requires p < q < n
    ensures forall k :: 0 <= k < |s| ==> s[k].0 < s[k].1 < n
    decreases p, q
  {
    [(p, q)] + if p == 0 && q == 1 then [] else PairsFrom(n, NextPair(n, p, q).0, NextPair(n, p, q).1)
  }

  /// Every pair the walk visits, starting from the mask `1…1 00`.
  function Pairs(n: nat): (s: seq<(nat, nat)>)
    requires n >= 2
    ensures forall k :: 0 <= k < |s| ==> s[k].0 < s[k].1 < n
  {
    PairsFrom(n, n - 2, n - 1)
  }

  /// The masks in the order the `do … while (prev_permutation)` loop sees them.
  function Masks(n: nat): (ms: seq<seq<int>>)
    requires n >= 2
    ensures |ms| == |Pairs(n)|
  {
    seq(|Pairs(n)|, k requires 0 <= k < |Pairs(n)| => MaskOf(n, Pairs(n)[k].0, Pairs(n)[k].1))
  }

  lemma {:induction false} PairsFromLength(n: nat, p: nat, q: nat)
    requires p < q < n
    ensures 2 * |PairsFrom(n, p, q)| == 2 * (q - p) + p * (2 * n - p - 1)
    decreases p, q
  {
    if !(p == 0 && q == 1) {
      var (p', q') := NextPair(n, p, q);
      PairsFromLength(n, p', q');
      if q == p + 1 {
        assert p * (2 * n - p - 1) == (p - 1) * (2 * n - p) + 2 * (n - p);
      }
    }
  }

  /// The loop pushes exactly `dof` matrices: one per plane.
  lemma PairsCount(n: nat)
    requires n >= 2
    ensures |Pairs(n)| == Dof(n) && |Masks(n)| == Dof(n)
  {
    PairsFromLength(n, n - 2, n - 1);
    assert (n - 2) * (2 * n - (n - 2) - 1) == n * (n - 1) - 2;
  }

  /// Every mask has exactly `N-2` ones and two zeros.
  lemma MaskCounts(n: nat, p: nat, q: nat)
    requires p < q < n
    ensures multiset(MaskOf(n, p, q))[1] == n - 2 && multiset(MaskOf(n, p, q))[0] == 2
  {
    MaskPrefixCounts(n, p, q, n);
    assert MaskOf(n, p, q)[..n] == MaskOf(n, p, q);
  }

  lemma {:induction false} MaskPrefixCounts(n: nat, p: nat, q: nat, i: nat)
    requires p < q < n && i <= n
    ensures var zeros := if i > q then 2 else if i > p then 1 else 0;
      multiset(MaskOf(n, p, q)[..i])[1] == i - zeros && multiset(MaskOf(n, p, q)[..i])[0] == zeros
  {
    if i > 0 {
      var s := MaskOf(n, p, q);
      MaskPrefixCounts(n, p, q, i - 1);
      assert s[..i] == s[..i - 1] + [s[i - 1]];
    }
  }

  /// `(p', q')` comes before `(p, q)` in the lexicographic order of pairs.
  ghost predicate PairLess(x: (nat, nat), y: (nat, nat))
  {
    x.0 < y.0 || (x.0 == y.0 && x.1 < y.1)
  }

  lemma {:induction false} PairsFromDecrease(n: nat, p: nat, q: nat)
    requires p < q < n
    ensures forall k :: 0 <= k < |PairsFrom(n, p, q)| ==> PairsFrom(n, p, q)[k] == (p, q) || PairLess(PairsFrom(n, p, q)[k], (p, q))
    ensures forall i, j :: 0 <= i < j < |PairsFrom(n, p, q)| ==> PairLess(PairsFrom(n, p, q)[j], PairsFrom(n, p, q)[i])
    decreases p, q
  {
    if !(p == 0 && q == 1) {
      var (p', q') := NextPair(n, p, q);
      PairsFromDecrease(n, p', q');
      var rest := PairsFrom(n, p', q');
      assert PairsFrom(n, p, q) == [(p, q)] + rest;
    }
  }

  /// `a` is lexicographically smaller than `b`.
  ghost predicate LexLess(a: seq<int>, b: seq<int>)
  {
    exists k :: 0 <= k < |a| && k < |b| && a[..k] == b[..k] && a[k] < b[k]
  }

  lemma MaskOrder(n: nat, x: (nat, nat), y: (nat, nat))
    requires x.0 < x.1 < n && y.0 < y.1 < n && PairLess(x, y)
    ensures LexLess(MaskOf(n, x.0, x.1), MaskOf(n, y.0, y.1))
  {
    var a, b := MaskOf(n, x.0, x.1), MaskOf(n, y.0, y.1);
    var k := if x.0 < y.0 then x.0 else x.1;
    assert a[..k] == b[..k];
  }

  /// The masks come in strictly decreasing lexicographic order, so no two are equal.
  lemma MasksDecrease(n: nat)
    requires n >= 2
    ensures forall i, j :: 0 <= i < j < |Masks(n)| ==> LexLess(Masks(n)[j], Masks(n)[i])
    ensures forall i, j :: 0 <= i < j < |Masks(n)| ==> Masks(n)[i] != Masks(n)[j]
  {
    var ps := Pairs(n);
    PairsFromDecrease(n, n - 2, n - 1);
    forall i, j | 0 <= i < j < |Masks(n)|
      ensures LexLess(Masks(n)[j], Masks(n)[i]) && Masks(n)[i] != Masks(n)[j]
    {
      MaskOrder(n, ps[j], ps[i]);
      var k :| 0 <= k < n && Masks(n)[j][..k] == Masks(n)[i][..k] && Masks(n)[j][k] < Masks(n)[i][k];
    }
  }

  /// The walk starts at `1…1 00` and ends at `00 1…1`.
  lemma MasksEnds(n: nat)
    requires n >= 2
    ensures Masks(n)[0] == seq(n, i => if i < n - 2 then 1 else 0)
    ensures Masks(n)[|Masks(n)| - 1] == seq(n, i => if i < 2 then 0 else 1)
  {
    LastPair(n, n - 2, n - 1);
  }

  lemma {:induction false} LastPair(n: nat, p: nat, q: nat)
    requires p < q < n
    ensures PairsFrom(n, p, q)[|PairsFrom(n, p, q)| - 1] == (0, 1)
    decreases p, q
  {
    if !(p == 0 && q == 1) {
      LastPair(n, NextPair(n, p, q).0, NextPair(n, p, q).1);
    }
  }

  // ---------------------------------------------------------------------------
  // The indicator basis.

  /// The positions of the ones of `mask`, in increasing order.
  function SetPositions(mask: seq<int>): (ps: seq<nat>)
    ensures forall k :: 0 <= k < |ps| ==> ps[k] < |mask| && mask[ps[k]] != 0
    ensures forall i, j :: 0 <= i < j < |ps| ==> ps[i] < ps[j]
  {
    if mask == [] then []
    else
      var last := |mask| - 1;
      SetPositions(mask[..last]) + if mask[last] != 0 then [last] else []
  }

  /// Every one of `mask` is listed.
  lemma {:induction false} SetPositionsComplete(mask: seq<int>, i: nat)
    requires i < |mask| && mask[i] != 0
    ensures i in SetPositions(mask)
    decreases |mask|
  {
    var last := |mask| - 1;
    if i < last {
      SetPositionsComplete(mask[..last], i);
    }
  }

  lemma {:induction false} SetPositionsPrefix(mask: seq<int>, i: nat)
    requires i <= |mask|
    ensures SetPositions(mask[..i]) <= SetPositions(mask)
    decreases |mask| - i
  {
    if i < |mask| {
      SetPositionsPrefix(mask, i + 1);
      assert mask[..i + 1][..i] == mask[..i];
    } else {
      assert mask[..i] == mask;
    }
  }

  /// Scanning one more position of `mask` appends it if it is a one.
  lemma SetPositionsGrow(mask: seq<int>, i: nat)
    requires i < |mask|
    ensures SetPositions(mask[..i + 1]) == SetPositions(mask[..i]) + if mask[i] != 0 then [i] else []
    ensures SetPositions(mask[..i + 1]) <= SetPositions(mask)
  {
    var next := i + 1;
    var pre := mask[..next];
    assert pre[..i] == mask[..i] && pre[i] == mask[i] && |pre| - 1 == i;
    assert SetPositions(pre) == SetPositions(pre[..i]) + if pre[i] != 0 then [i] else [];
    SetPositionsPrefix(mask, next);
  }

  lemma {:induction false} MaskPositionsCount(n: nat, p: nat, q: nat, i: nat)
    requires p < q < n && i <= n
    ensures |SetPositions(MaskOf(n, p, q)[..i])| == i - (if i > q then 2 else if i > p then 1 else 0)
  {
    if i > 0 {
      MaskPositionsCount(n, p, q, i - 1);
      assert MaskOf(n, p, q)[..i][..i - 1] == MaskOf(n, p, q)[..i - 1];
    }
  }

  /// The ones of a mask are `N-2` positions.
  lemma MaskPositions(n: nat, p: nat, q: nat)
    requires p < q < n
    ensures |SetPositions(MaskOf(n, p, q))| == n - 2
  {
    MaskPositionsCount(n, p, q, n);
    assert MaskOf(n, p, q)[..n] == MaskOf(n, p, q);
  }

  /// The basis after the first `col` columns have been overwritten: column
  /// `c < col` is the standard basis vector of row `ps[c]`, the others are
  /// still those of the default identity matrix.
  function PartialBasis(ps: seq<nat>, n: nat, col: nat): (b: Matrix)
    requires n >= 2 && col <= |ps| && col <= n - 2
    ensures IsMatrix(b, n, n - 2)
  {
    seq(n, row => seq(n - 2, c requires 0 <= c < n - 2 => if c < col then (if row == ps[c] then 1.0 else 0.0) else (if row == c then 1.0 else 0.0)))
  }

  /// The `N × (N-2)` basis whose column `col` is the standard basis vector of
  /// the `col`-th one of `mask`.
  function IndicatorBasis(mask: seq<int>, n: nat): (b: Matrix)
    requires n >= 2 && |SetPositions(mask)| == n - 2
  {
    PartialBasis(SetPositions(mask), n, n - 2)
  }

  /// Each column of the basis has a single one, at the row of the `col`-th
  /// one of `mask`, and those rows strictly increase with the column.
  lemma IndicatorColumns(mask: seq<int>, n: nat, col: nat)
    requires n >= 2 && |mask| == n && |SetPositions(mask)| == n - 2 && col < n - 2
    ensures var b := IndicatorBasis(mask, n);
      var i := SetPositions(mask)[col];
      IsMatrix(b, n, n - 2) && i < n && mask[i] != 0 && b[i][col] == 1.0 &&
      (forall row :: 0 <= row < n && row != i ==> b[row][col] == 0.0) &&
      (forall col' :: col < col' < n - 2 ==> SetPositions(mask)[col'] > i)
  {
  }

  lemma PartialBasisStart(ps: seq<nat>, n: nat)
    requires n >= 2
    ensures PartialBasis(ps, n, 0) == Identity(n, n - 2)
  {
    MatrixExt(PartialBasis(ps, n, 0), Identity(n, n - 2), n, n - 2);
  }

  /// Overwriting column `col` with `e_{ps[col]}` extends the partial basis by one column.
  lemma PartialBasisStep(b: Matrix, b': Matrix, ps: seq<nat>, n: nat, col: nat)
    requires n >= 2 && col < |ps| && col < n - 2 && b == PartialBasis(ps, n, col) && IsMatrix(b', n, n - 2)
    requires forall row, c :: 0 <= row < n && 0 <= c < n - 2 ==>
      b'[row][c] == if c == col then (if row == ps[col] then 1.0 else 0.0) else b[row][c]
    ensures b' == PartialBasis(ps, n, col + 1)
  {
    var next := col + 1;
    MatrixExt(b', PartialBasis(ps, n, next), n, n - 2);
  }

  /// The body of the mask loop: start from the default `Matrix<N, N-2>` (the
  /// identity) and, for each one of `mask` at position `i`, overwrite the next
  /// column with the standard basis vector `e_i`.
  method PlaneBasis(mask: seq<int>, n: nat) returns (basis: Matrix)
    requires n >= 2 && |mask| == n && |SetPositions(mask)| == n - 2
    ensures basis == IndicatorBasis(mask, n)
  {
    ghost var ps := SetPositions(mask);
    basis := IdentityMatrix(n, n - 2);
    PartialBasisStart(ps, n);
    var col := 0;
    for i := 0 to n
      invariant col == |SetPositions(mask[..i])| <= n - 2
      invariant SetPositions(mask[..i]) == ps[..col]
      invariant basis == PartialBasis(ps, n, col)
    {
      SetPositionsGrow(mask, i);
      if mask[i] != 0 {
        assert ps[col] == i;
        var b' := WriteIndicatorColumn(basis, n, col, i);
        PartialBasisStep(basis, b', ps, n, col);
        basis, col := b', col + 1;
      }
    }
    assert mask[..n] == mask;
  }

  /// `rotAxis.data[row][col] = row == i` for every row.
  method WriteIndicatorColumn(b: Matrix, n: nat, col: nat, i: nat) returns (b': Matrix)
    requires n >= 2 && IsMatrix(b, n, n - 2) && col < n - 2 && i < n
    ensures IsMatrix(b', n, n - 2)
    ensures forall row, c :: 0 <= row < n && 0 <= c < n - 2 ==>
      b'[row][c] == if c == col then (if row == i then 1.0 else 0.0) else b[row][c]
  {
    b' := b;
    for row := 0 to n
      invariant IsMatrix(b', n, n - 2)
      invariant forall r, c :: 0 <= r < n && 0 <= c < n - 2 ==>
        b'[r][c] == if c == col && r < row then (if r == i then 1.0 else 0.0) else b[r][c]
    {
      b' := b'[row := b'[row][col := if row == i then 1.0 else 0.0]];
    }
  }

  /// Visiting `(p, q)` moves the walk on to the next pair, or ends it at `(0, 1)`.
  lemma WalkStep(n: nat, p: nat, q: nat, visited: seq<(nat, nat)>)
    requires p < q < n && visited + PairsFrom(n, p, q) == Pairs(n)
    ensures p == 0 && q == 1 ==> visited + [(p, q)] == Pairs(n)
    ensures !(p == 0 && q == 1) ==>
      visited + [(p, q)] + PairsFrom(n, NextPair(n, p, q).0, NextPair(n, p, q).1) == Pairs(n)
  {
    if p == 0 && q == 1 {
      assert PairsFrom(n, p, q) == [(p, q)];
    } else {
      var next := NextPair(n, p, q);
      var rest := PairsFrom(n, next.0, next.1);
      assert PairsFrom(n, p, q) == [(p, q)] + rest;
      assert visited + [(p, q)] + rest == visited + ([(p, q)] + rest);
    }
  }

  /// The matrix `rotationMatrixPart1` builds for the plane whose zeros are `x`.
  function PlaneMatrix(n: nat, x: (nat, nat), trig: (real, real) -> CosSin): Matrix
    requires x.0 < x.1 < n
  {
    MaskPositions(n, x.0, x.1);
    Part1(IndicatorBasis(MaskOf(n, x.0, x.1), n), n, trig)
  }

  ghost predicate ValidPairs(n: nat, xs: seq<(nat, nat)>)
  {
    forall k :: 0 <= k < |xs| ==> xs[k].0 < xs[k].1 < n
  }

  /// The matrices for the planes `xs`, in order.
  function PlaneMatrices(n: nat, xs: seq<(nat, nat)>, trig: (real, real) -> CosSin): (ms: seq<Matrix>)
    requires ValidPairs(n, xs)
  {
    seq(|xs|, k requires 0 <= k < |xs| => PlaneMatrix(n, xs[k], trig))
  }

  lemma PlaneMatricesAppend(n: nat, xs: seq<(nat, nat)>, x: (nat, nat), trig: (real, real) -> CosSin)
    requires ValidPairs(n, xs) && x.0 < x.1 < n
    ensures ValidPairs(n, xs + [x])
    ensures PlaneMatrices(n, xs + [x], trig) == PlaneMatrices(n, xs, trig) + [PlaneMatrix(n, x, trig)]
  {
    assert forall k :: 0 <= k < |xs| ==> (xs + [x])[k] == xs[k];
  }

  /// The mask loop of `init`: starting from `1…1 00`, push `rotationMatrixPart1`
  /// of each mask's indicator basis and step the mask with `prev_permutation`
  /// until it wraps around.
  method EnumeratePlanes(n: nat, trig: (real, real) -> CosSin) returns (planes: seq<Matrix>)
    requires n >= 2
    ensures |planes| == |Pairs(n)| == Dof(n)
    ensures forall k :: 0 <= k < |planes| ==> planes[k] == PlaneMatrix(n, Pairs(n)[k], trig)
  {
    var bitmask := seq(n, i => if i < n - 2 then 1 else 0);
    ghost var p: nat, q: nat := n - 2, n - 1;
    ghost var visited: seq<(nat, nat)> := [];
    assert bitmask == MaskOf(n, p, q);
    planes := [];
    var more := true;
    while more
      invariant more ==> p < q < n && bitmask == MaskOf(n, p, q) && visited + PairsFrom(n, p, q) == Pairs(n)
      invariant !more ==> visited == Pairs(n)
      invariant ValidPairs(n, visited) && planes == PlaneMatrices(n, visited, trig)
      decreases more, p, q
    {
      MaskPositions(n, p, q);
      var basis := PlaneBasis(bitmask, n);
      var m := RotationPart1(basis, n, trig);
      assert m == PlaneMatrix(n, (p, q), trig);
      PlaneMatricesAppend(n, visited, (p, q), trig);
      planes := planes + [m];
      PrevOfMask(n, p, q);
      WalkStep(n, p, q, visited);
      var step := PrevPermutation(bitmask);
      more, bitmask := step.0, step.1;
      visited := visited + [(p, q)];
      if more {
        var next := NextPair(n, p, q);
        p, q := next.0, next.1;
      }
    }
    PairsCount(n);
  }
}
