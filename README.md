# ND-cube in Dafny

ND-cube draws an N-dimensional cube (N = 4 in the shipped build) that the user
turns plane by plane with the mouse. This project models its numeric core over
exact `real` arithmetic and proves properties of that model.

- **matrix.h**
  - the `Matrix<H, W>` template: the identity default constructor, the matrix×vector product and the matrix×matrix product, each accumulated with `fma` in index order;
  - `inverseMatrix`, a Gauss–Jordan elimination on an augmented `N × 2N` array without row exchanges, which returns the identity as soon as a running pivot is exactly zero;
  - `rotationMatrixPart1`, the Aguilera–Pérez sequence of Givens rotations that brings the `N × (N-2)` basis of the held axes to upper-triangular form;
  - `rotationMatrixPart2`, which conjugates the rotation of the last coordinate plane by the result of `rotationMatrixPart1`.
- **main.cpp**
  - `dof` and `verticesAmount`;
  - the interpolation helpers `flerp`, `delerp` and `rerange`;
  - the vertex loop and the edge test;
  - the enumeration of the rotation planes: 0/1 masks stepped by `std::prev_permutation`, each turned into an indicator basis;
  - `Point::getRealPos`;
  - the `rotPlane` / `rotation` state that the mouse handlers update.

## Design

Files and modules:

| file | module | what it holds |
|---|---|---|
| `matrix.dfy` | `Matrices` | matrices as `seq<seq<real>>` with a shape predicate, the products, and the algebra of the products |
| `inverse.dfy` | `Inversion` | `inverseMatrix` |
| `rotation.dfy` | `Rotations` | `rotationMatrixPart1` and `rotationMatrixPart2` |
| `masks.dfy` | `Planes` | `dof`, `std::prev_permutation`, the mask walk and the indicator bases |
| `cube.dfy` | `Cube` | everything else named above from main.cpp |

How the source's loops and state are represented:

- Every operation that the source runs as a loop is a `method` with loop invariants. Its postcondition ties the result to a specification function, and the properties are lemmas about that function.
- `inverseMatrix` works in place on an `array2<real>`, as the source does on its augmented array.
- The mouse handlers are methods of a class `Controls` holding `rotPlane` and the `rotation` array.

How the inputs that Dafny cannot compute are handled:

- `std::atan2`, `std::cos` and `std::sin` are inputs.
  - `rotationMatrixPart1` takes a function `trig` giving the cosine and sine of `atan2(y, x)`.
  - `rotationMatrixPart2` and `getRealPos` take the cosine and sine of each angle.
- Where a property depends on `atan2`, it is assumed through the predicate `ZeroingTrig`: the rotation chosen for the pair `(y, x)` sends `y` to zero. This is what the exact `atan2` guarantees.

## Model

| member | source | states |
|---|---|---|
| Matrices.IdentityMatrix | matrix.h:16-21 | the default matrix has 1 at `[y][y]` for `y < min(H, W)` and 0 everywhere else |
| Matrices.MultiplyVector | matrix.h:25-35 | `result[y]` is the running `fma` sum of `M[y][i]·v[i]` over `i < H` |
| Matrices.Multiply | matrix.h:37-48 | `ans[row][col]` is the running `fma` sum of `A[row][x]·B[x][col]` over `x < W` |
| Matrices.ApplyIdentity | matrix.h:16-35 | multiplying a vector by the identity returns it unchanged |
| Matrices.IdentityLeft | matrix.h:16-48 | the identity is a left neutral element of the matrix product |
| Matrices.IdentityRight | matrix.h:16-48 | the identity is a right neutral element of the matrix product |
| Matrices.MulAssoc | matrix.h:37-48 | the matrix product is associative |
| Matrices.ApplyMul | matrix.h:25-48 | applying `A·B` to a vector is applying `B`, then `A` |
| Inversion.AugmentedArray | matrix.h:62-69 | the workspace starts as `A` with the identity to its right |
| Inversion.EliminateInPlace | matrix.h:75-80 | one elimination step on the array is the specification step `EliminationStep` |
| Inversion.SubtractRow | matrix.h:77-79 | only row `j` changes, to `a[j] - ratio·a[i]` |
| Inversion.DivideByDiagonal | matrix.h:83-85 | each right-half entry is divided by its row's diagonal; nothing else changes |
| Inversion.RightHalf | matrix.h:87-90 | the answer is the right half of the array |
| Inversion.NormalizeAndCopy | matrix.h:83-91 | normalising and copying out yields `Normalized` of the eliminated array |
| Inversion.InverseMatrix | matrix.h:60-92 | the method computes `Inverse`: the normalised right half, or the identity once a running pivot is 0 |
| Inversion.StepClearsColumn | matrix.h:75-80 | step `i` leaves row `i` unchanged and zeroes column `i` in every other row |
| Inversion.StepEntry | matrix.h:77-79 | each entry after step `p` is `b[j][c] - b[j][p]/b[p][p]·b[p][c]` off row `p` |
| Inversion.NoneStaysNone | matrix.h:71-74 | once a zero pivot is met, elimination stays failed |
| Inversion.EliminateDiagonal | matrix.h:71-81 | after `i` successful steps the left half is diagonal in its first `i` columns with nonzero pivots |
| Inversion.EliminateTracksProduct | matrix.h:64-81 | throughout elimination each left-half row is its right-half row times `A` |
| Inversion.InverseIsLeftInverse | matrix.h:60-92 | when no running pivot is zero, `inverse(A)·A = I` |
| Inversion.LeftInverseEntry | matrix.h:83-91 | each entry of the normalised right half times `A` is the identity's entry |
| Inversion.ZeroPivotGivesIdentity | matrix.h:71-74 | a zero running pivot makes the result the identity |
| Inversion.RunningPivotExample | matrix.h:71-74 | an invertible matrix with all diagonal entries 1 still comes back as the identity, because a later running pivot is 0 |
| Inversion.SwapMatrixFallsBack | matrix.h:71-74 | the 2×2 swap matrix, its own inverse, comes back as the identity |
| Inversion.InverseOfDiagonal | matrix.h:60-92 | a diagonal matrix with nonzero entries inverts to the reciprocal diagonal |
| Inversion.DiagonalStepsChangeNothing | matrix.h:75-80 | on a diagonal matrix, every elimination step leaves the array unchanged |
| Inversion.InverseOfIdentity | matrix.h:60-92 | the identity inverts to itself |
| Rotations.PlaneRotationMatrix | matrix.h:104-108 | each elementary rotation is the identity except at the four entries of rows and columns `p`, `q` |
| Rotations.RotateRows | matrix.h:109-110 | left-multiplying by a plane rotation changes only rows `p` and `q`, to the rotated combinations |
| Rotations.RotateEntry | matrix.h:109-110 | each entry of the rotated matrix, case by case |
| Rotations.RotationPart1 | matrix.h:99-113 | the double loop computes `Part1`, the column-by-column composition of the sweeps |
| Rotations.SweepColumn | matrix.h:102-111 | the inner loop over `r = N-1 .. c+1` computes the sweep of column `c`, updating `v` and `M` together |
| Rotations.Part1FollowsSchedule | matrix.h:101-111 | `Part1` is the left fold of the rotations over the visiting order `Schedule` |
| Rotations.ScheduleMembers | matrix.h:101-102 | the loops visit exactly the pairs `(c, r)` with `c < N-2` and `c < r ≤ N-1` |
| Rotations.ScheduleInOrder | matrix.h:101-102 | `c` ascends, and within a column `r` descends |
| Rotations.ScheduleLength | matrix.h:101-102 | there are `N(N-1)/2 - 1` rotations |
| Rotations.SweepFolds | matrix.h:102-111 | the inner loop's sweep is the fold over the pairs visited so far |
| Rotations.ColumnsFold | matrix.h:101-111 | the outer loop's result is the fold over the pairs of the finished columns |
| Rotations.GivensStepTracks | matrix.h:109-110 | applying one rotation to both `v` and `M` keeps `v = M·basis` |
| Rotations.ColumnsTrack | matrix.h:99-111 | on return, `v = M·basis`: `M` is the accumulated product applied to the basis |
| Rotations.GivensStepClears | matrix.h:103-109 | with the `atan2` angle, the rotation zeroes `v[r][c]` and keeps the entries cleared before |
| Rotations.SweepClears | matrix.h:102-111 | sweeping column `c` from the bottom clears it below the diagonal |
| Rotations.ColumnsClear | matrix.h:101-111 | after `c` columns, those columns are zero below the diagonal |
| Rotations.Part1Triangularizes | matrix.h:99-113 | `Part1(basis)·basis` is upper triangular |
| Rotations.RotationPart2 | matrix.h:116-123 | computes `inverse(part1)·(R·part1)` with `R` the rotation of the last plane `(N-2, N-1)` |
| Rotations.Part2OfIdentity | matrix.h:116-123 | with `part1 = I` the result is exactly `R` |
| Rotations.Part2ZeroAngle | matrix.h:116-123 | with `c = 1`, `s = 0` the result is `inverse(part1)·part1`, which is `I` when no pivot is zero |
| Rotations.RotationFixesUpperRows | matrix.h:117-121 | `R` leaves unchanged any matrix whose last two rows are zero |
| Rotations.Part2FixesHeldAxes | matrix.h:99-123 | when no running pivot of `part1` is zero, the final rotation fixes every held axis: `Part2(Part1(basis))·basis = basis`. Under an exact `atan2` only the first plane the walk builds meets this premise; for N = 3 this is `Cube.OnlyFirstPlaneOfThree`, and the other planes are the finding below |
| Matrices.OrthogonalProduct | matrix.h:109-110 | a product of orthogonal matrices is orthogonal |
| Rotations.RotationOrthogonal | matrix.h:104-108 | with `c² + s² = 1` each elementary rotation is orthogonal, its transpose being the rotation by `-s` |
| Rotations.SweepOrthogonal | matrix.h:102-111 | the inner loop keeps `M` orthogonal when every `atan2` angle has `cos² + sin² = 1` |
| Rotations.ColumnsOrthogonal | matrix.h:101-111 | the outer loop keeps `M` orthogonal under the same condition |
| Rotations.Part1Orthogonal | matrix.h:99-113 | `rotationMatrixPart1` is orthogonal, so its transpose is its exact inverse |
| Rotations.Part2ExactIsPart2 | matrix.h:116-123 | for an orthogonal `part1` with no zero running pivot, `inverseMatrix` returns the transpose, so `rotationMatrixPart2` equals `Part2Exact` |
| Rotations.Part2ExactZeroAngle | matrix.h:116-123 | with the exact inverse, angle 0 gives the identity for every orthogonal `part1` |
| Rotations.Part2ExactFixesHeldAxes | matrix.h:99-123 | with the exact inverse, every plane's rotation fixes every held axis at every angle, with no pivot premise |
| Planes.Dof | main.cpp:20 | `dof = N(N-1)/2` is an exact division: `2·dof = N(N-1)`; `Planes.PairsCount` shows it is the number of planes |
| Planes.PrevPermutation | main.cpp:181 | returns `false` exactly when the sequence is ascending, the first permutation, and keeps its length; its effect on the masks is `Planes.PrevOfMask` and `Planes.PrevPermutationPermutes` |
| Planes.LastDescent | main.cpp:181 | the last descent of the sequence, or none |
| Planes.LastBelow | main.cpp:181 | the last element after `k` smaller than `x` |
| Planes.PrevPermutationPermutes | main.cpp:181 | `prev_permutation` only rearranges the mask |
| Planes.PrevOfMask | main.cpp:181 | on a mask with zeros at `(p, q)`, `prev_permutation` moves to the next pair, and wraps from `00 1…1` to `1…1 00` returning `false` |
| Planes.PrevAtDescent | main.cpp:181 | given the descent and the element to swap, `prev_permutation` swaps them and reverses the tail |
| Planes.PrevMovesSecondZero | main.cpp:181 | with zeros at `(p, q)` and `q > p+1`, the next mask has zeros at `(p, q-1)` |
| Planes.PrevMovesFirstZero | main.cpp:181 | with zeros at `(p, p+1)` and `p > 0`, the next mask has zeros at `(p-1, N-1)` |
| Planes.PrevOfLastMask | main.cpp:181 | `00 1…1` has no predecessor: the result is `false` and the mask wraps to `1…1 00` |
| Planes.PairsCount | main.cpp:169-181 | the loop visits `dof = N(N-1)/2` masks |
| Planes.MaskCounts | main.cpp:169-181 | every mask has `N-2` ones and two zeros |
| Planes.MasksDecrease | main.cpp:169-181 | the masks come in strictly decreasing lexicographic order and are pairwise distinct |
| Planes.MasksEnds | main.cpp:169-181 | the first mask is `1…1 00`, the last is `00 1…1` |
| Planes.MaskOrder | main.cpp:169-181 | a pair that is lexicographically smaller gives a lexicographically smaller mask |
| Planes.PairsFromDecrease | main.cpp:169-181 | the zero pairs the walk visits strictly decrease |
| Planes.SetPositions | main.cpp:174-175 | the positions of the ones, strictly increasing |
| Planes.SetPositionsComplete | main.cpp:174-175 | every one of the mask is listed |
| Planes.MaskPositions | main.cpp:173-179 | a mask has `N-2` ones, so all `N-2` columns get written |
| Planes.IndicatorColumns | main.cpp:172-179 | each column of `rotAxis` has one 1, at the row of its set position, and those rows increase with the column |
| Planes.PlaneBasis | main.cpp:172-179 | the loop builds the indicator basis from the default identity |
| Planes.WriteIndicatorColumn | main.cpp:176-177 | column `col` becomes `e_i`; nothing else changes |
| Planes.PartialBasisStep | main.cpp:176-178 | writing `e_{ps[col]}` extends the partial basis by one column |
| Planes.EnumeratePlanes | main.cpp:169-181 | the loop pushes `dof` matrices, the `k`-th being `rotationMatrixPart1` of the `k`-th mask's basis |
| Cube.Flerp | main.cpp:26-28 | `flerp(a, b, 0) = a` and `flerp(a, b, 1) = b` |
| Cube.FlerpCoords | main.cpp:29-34 | coordinatewise `flerp`, with the same endpoints |
| Cube.Delerp | main.cpp:35-37 | `flerp(a, b, delerp(a, b, v)) = v` when `a ≠ b`; no finite result when `a = b` |
| Cube.DelerpFlerp | main.cpp:26-37 | `delerp(a, b, flerp(a, b, p)) = p` when `a ≠ b` |
| Cube.Rerange | main.cpp:38-40 | `a1 ↦ a0` and `b1 ↦ b0`; no finite result when `a1 = b1` |
| Cube.RerangeIsFlerpOfDelerp | main.cpp:26-40 | `rerange` is `delerp` on the old range followed by `flerp` on the new one |
| Cube.Pow2 | main.cpp:21 | `verticesAmount = 2^N` is positive |
| Cube.GenerateVertices | main.cpp:161-167 | there are `2^N` vertices; coordinate `d` of vertex `i` is `R` if bit `d` of `i` is set, else `-R` |
| Cube.VerticesDistinct | main.cpp:161-167 | with `R ≠ 0` the vertices are pairwise distinct |
| Cube.SameAxes | main.cpp:101-105 | the count of equal coordinates is at most the dimension |
| Cube.CountSameAxes | main.cpp:101-105 | the loop counts the coordinates in which the two points agree |
| Cube.Edges | main.cpp:97-106 | a pair `i < j` is drawn exactly when the points agree in `N-1` coordinates, in the loops' order |
| Cube.Joined | main.cpp:106 | two points joined by an edge are distinct and the dimension is positive; on generated vertices the test is `Cube.EdgeIffOneBit` |
| Cube.SameAxesSelf | main.cpp:101-105 | a point agrees with itself in every coordinate |
| Cube.EdgeIffOneBit | main.cpp:101-106 | two generated vertices are joined exactly when their indices differ in one bit |
| Cube.GetRealPos | main.cpp:57-64 | the loop applies `rotationMatrixPart2(rotMatrices1[i], rotation[i])` for `i` in index order |
| Cube.RealPosOfIdentities | main.cpp:57-64 | if every plane's matrix is the identity, the position is unchanged |
| Cube.RealPosAtZeroAngles | main.cpp:57-64 | at zero angles, with no zero running pivot in any plane, the position is unchanged. Under an exact `atan2` only the first plane meets this premise; for N = 3 see `Cube.OnlyFirstPlaneOfThree` and `Cube.ZeroAnglesMovePoint` |
| Cube.PairsOfThree | main.cpp:169-181 | for N = 3 the walk visits the zero pairs `(1, 2)`, `(0, 2)`, `(0, 1)` in that order |
| Cube.FirstPlaneOfThree | main.cpp:169-181 | for N = 3 the first plane's `rotationMatrixPart1` is the identity and has no zero pivot |
| Cube.SecondPlaneOfThree | matrix.h:71-74 | with an exact `atan2`, the second plane of N = 3 has a zero running pivot, and its part 2 sends the held axis `e1` to `e0` at every angle |
| Cube.ThirdPlaneOfThree | matrix.h:71-74 | likewise for the third plane, whose part 2 sends the held axis `e2` to `e0` |
| Cube.OnlyFirstPlaneOfThree | main.cpp:169-181 | with an exact `atan2`, of the three planes of N = 3 exactly the first has no zero running pivot |
| Cube.ZeroAnglesMovePoint | main.cpp:57-64 | with an exact `atan2` and angle 0, the second plane of N = 3 moves `(0, 1, 0)` to `(1, 0, 0)` |
| Cube.RealPosIsComposite | main.cpp:57-64 | the result is the product of the plane matrices, latest leftmost, applied to `pos` |
| Cube.Controls.constructor | main.cpp:137 | `rotPlane` starts at 0 and every angle at 0 |
| Cube.Controls.OnMouseWheel | main.cpp:138-141 | only `rotation[rotPlane]` changes, by exactly `±0.2` after the sign of `d` |
| Cube.Controls.OnMousePress | main.cpp:142-145 | `rotPlane` advances cyclically and stays below `dof`; the angles are unchanged |
| Cube.WheelStep | main.cpp:139 | the step is `+0.2` exactly when `d ≥ 0`, else `-0.2` |
| Cube.NextPlane | main.cpp:143-144 | the next plane is `rotPlane + 1`, or 0 after the last |
| Cube.PressesAdvance | main.cpp:142-145 | after `k ≤ dof` presses, the plane is `rotPlane + k` modulo `dof` |
| Cube.PressesReachEveryPlane | main.cpp:142-145 | every plane is reached within `dof` presses, and `dof` presses return to the start |

## Left out

- The WinAPI window, painting, brushes, text, `BitBlt`, `redraw`, the `OOPWinAPI` base class and `exit` (main.cpp:69-155): presentation and foreign calls.
- `colorFromPos`, `RGB`, the edge samples and the perspective divide with `(LONG)` casts (main.cpp:50-56, 107-118): pixel and colour output.
- The `operator<<` stream printing (matrix.h:50-57): output.
- The commented-out animation thread (main.cpp:189-198): concurrency in dead code.
- The z-sort by `std::sort` (main.cpp:183-186): a library sort with no algorithm of the program's own.
- The heap allocation of `Point` objects with `new` and their ownership (main.cpp:67, 166): the model keeps each point's `pos` as a value, which is never modified.
- `long double` rounding and `std::fma`: arithmetic is exact `real`. `fma(a, b, c)` is `a*b + c`, so the results are exact where the program's are rounded. In particular, where the program's `cos(atan2(1, 0))` is a tiny nonzero number, the exact value is 0, so `inverseMatrix` meets a zero running pivot and takes the identity branch at matrix.h:72 (see Findings).
- `std::atan2`, `std::cos`, `std::sin`: they are inputs to the model, as described above.
- The determinant of the built rotations is not modelled. Orthogonality is proved only under the predicate `UnitTrig` (`cos² + sin² = 1` for every `atan2` angle), which the program's rounded values meet only approximately.
- Matrices.MultiplyVector: modelled for square matrices only. The template's `Matrix<W, H>` argument is read as `H × H`, and only the square `N × N` case is ever used.
- Inversion.InverseIsLeftInverse: proves `inverse(A)·A = I` only. The right inverse `A·inverse(A) = I` is not proved.
- Cube.Delerp: `a = b` gives `None`. The program's `long double` division would give an infinity or NaN instead.
- Cube.Rerange: `a1 = b1` gives `None`, for the same reason.
- Cube.GenerateVertices: the `coords` buffer starts at 0.0 rather than uninitialised. Every entry is overwritten before use.
- Cube.Bit: reads bits of an unbounded index. The program's 32-bit `bitset` agrees for every index below `2^N`.
- The `char` elements of the mask string are `int`: only the values 0 and 1 occur.
- `size_t` wrap-around: `rotPlane + 1` never exceeds `dof`, so no wrap-around occurs.

## Findings

`Cube.GetRealPos` keeps the program's construction with `inverseMatrix`. The corrected construction `Rotations.Part2Exact` uses the transpose, and `Rotations.Part2ExactIsPart2` shows that the two agree wherever the program's has no zero pivot.

| source | as written | input that shows it | evidently intended | confidence | as-written member | corrected member |
|---|---|---|---|---|---|---|
| matrix.h:71-74 | `rotationMatrixPart2` inverts `part1` by elimination without row exchanges, which returns the identity when a running pivot is 0 | N = 3, plane `(0, 2)` (held axis `e1`), exact `atan2`: `part1 = [[0,1,0],[-1,0,0],[0,0,1]]` has `part1[0][0] = 0`, so part 2 sends `e1` to `e0` even at angle 0 | the exact inverse of the orthogonal `part1` (its transpose), so that each plane's rotation fixes the held axes and is the identity at angle 0 | not executed; with `long double` rounding the pivot is tiny but nonzero, so the program probably avoids the branch | Cube.SecondPlaneOfThree | Rotations.Part2ExactFixesHeldAxes |

