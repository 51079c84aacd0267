# drawing-experiment: the vector/matrix engine, the canvas and the meshes, in Dafny

This project models the numeric and bookkeeping core of the Go program
`drawing-experiment`, a small software 3-D renderer:

- **Vectors** (`number/vector/genericVector.go`). A vector is a fixed-length
  container of one of twelve Go numeric kinds (`int`, `int8` … `uint64`,
  `float32`, `float64`). It offers a zero constructor and a literal
  constructor, bounds- and type-checked `Get` and `Set`, and element-wise
  `Add`, `Sub`, scalar `Divs`, `Unit` and `Equal`.
- **Matrices** (`number/matrix/genericMatrix.go`). A matrix is a row-major
  `rows*cols` buffer of the same kinds. It offers zero, unit and literal
  constructors, `Get`/`Set` at `row*cols + col`, `Mulv`, `Mulm` and `Equal`.
- **The older matrix** (`number/matrix/matrix.go`). An earlier
  `uint`-indexed snapshot of the container that also stores `complex64` and
  `complex128` cells.
- **The canvas** (`render/render.go`). A byte buffer of `width*height*4`
  bytes with `Clear` and a guarded three-byte `Set`.
- **Meshes, parts and boxes** (`model/model.go`). Triangles of three 3-D
  vertices, a part that places its triangles with a rotation and a position,
  and `NewBox`, which builds the twelve triangles of a box.

Modules:

- `Faults`: the failure reasons and the `Result`/`Outcome` wrappers.
- `Scalars`: the kind registry and per-kind arithmetic.
- `Vectors`, `Matrices`, `Snapshot` (for `matrix.go`), `Render` and `Model`.

How the Go program is represented:

- **Failures.** Every Go failure is an error value of a `Result`. This covers
  `log.Fatalf`/`log.Panicf`, a runtime panic from a slice index, a nil
  interface, `make` with a negative length, and an integer division by zero.
  The checks run in the order the source makes them.
- **Cells.** A cell is an `int` tagged by its kind. Integer kinds hold the
  value, and Go's fixed-width wrap-around is written out (`Scalars.Wrap`).
  Float kinds hold the IEEE 754 bit pattern.
- **Float arithmetic** is a parameter, `FloatUnit`; only the width of its
  results is known. Float `==` is modelled exactly on bit patterns: NaN is
  unequal to itself, and +0 equals −0.
- **Shared buffers.** Go vectors and matrices are value structs that share
  one backing slice, so `Set` on any copy writes that slice. Here they are
  classes over a constant `array`.
- **Loops.** Every loop of the source is a `while`/`for` loop with its
  invariants. A loop inside a loop is a method of its own.
- **Go `int` and `uint`** arithmetic on sizes and indices wraps modulo 2^64
  (`GoMul`, `GoAdd`, `UintMul`). Several findings below come from exactly
  that.

## Model

| member | source | states |
|---|---|---|
| Scalars.Wrap | number/vector/genericVector.go:190-219 | the result of every fixed-width integer operation is a value of the kind's range |
| Scalars.WrapShift | number/vector/genericVector.go:190-219 | wrapping ignores whole multiples of 2^width, so the cell arithmetic is arithmetic modulo 2^width |
| Scalars.Add | number/vector/genericVector.go:181-222 | the cell sum of `Add` is in the kind's range, for the integer and the float kinds alike |
| Scalars.Sub | number/vector/genericVector.go:225-266 | the cell difference of `Sub` is in the kind's range |
| Scalars.Mul | number/matrix/genericMatrix.go:180-222 | the product term of `Mulv`/`Mulm` is in the kind's range |
| Scalars.Div | number/vector/genericVector.go:336-373 | the quotient of `Divs` is in the kind's range; an integer divisor must be non-zero |
| Scalars.TruncDiv | number/vector/genericVector.go:345-364 | truncation toward zero: a non-zero quotient is negative exactly when the operands' signs differ, and the remainder `a - q*b` is smaller than the divisor and is zero or has the sign of `a` |
| Scalars.TruncRemainder | number/vector/genericVector.go:345-364 | the remainder of the truncated quotient is the remainder of Abs(a) / Abs(b) with the sign of `a` |
| Scalars.FloatNeg | model/model.go:125-132 | unary minus on a float flips the sign bit and stays a float of the same width |
| Scalars.Zero | number/vector/genericVector.go:19-52 | the zero of a storage type is a value of that type |
| Scalars.One | number/matrix/genericMatrix.go:65-104 | the `1` written on the diagonal is a value of the kind (1, or the bit pattern of 1.0) |
| Scalars.AddZeroLeft | number/matrix/genericMatrix.go:180-222 | 0 + x == x for every integer kind |
| Scalars.AddZeroRight | number/matrix/genericMatrix.go:224-269 | x + 0 == x for every integer kind |
| Scalars.MulZero | number/matrix/genericMatrix.go:180-222 | 0·x == x·0 == 0 for every integer kind, wrap-around included |
| Scalars.MulOne | number/matrix/genericMatrix.go:180-222 | 1·x == x·1 == x for every integer kind |
| Scalars.MulCommutes | number/matrix/genericMatrix.go:224-269 | x·y == y·x for every integer kind |
| Scalars.SubSelf | number/vector/genericVector.go:225-266 | x − x is 0 for every integer kind |
| Scalars.SubUndoesAdd | number/vector/genericVector.go:181-266 | (x + y) − y == x for every integer kind, even when the sum wrapped |
| Scalars.DivOne | number/vector/genericVector.go:336-373 | x / 1 == x for every integer kind |
| Scalars.DivMinByMinusOne | number/vector/genericVector.go:345-354 | MinInt64 / −1 is MinInt64 for `int` and `int64` |
| Scalars.DivTruncatesTowardZero | number/vector/genericVector.go:345-354 | −7 / 2 is −3 and 7 / −2 is −3 (truncation, not flooring) |
| Scalars.AddWraps | number/vector/genericVector.go:192-211 | 127 + 1 is −128 in int8, 255 + 1 is 0 in uint8, 0 − 1 is 2^64 − 1 in uint |
| Scalars.EqReflexiveExceptNaN | number/vector/genericVector.go:385-426 | a cell equals itself under `==` exactly when it is not a NaN |
| Scalars.FloatEqualityIsNotBitEquality | number/vector/genericVector.go:385-426 | +0.0 == −0.0 although the bits differ; a NaN is not equal to itself |
| Vectors.Vector.constructor | number/vector/genericVector.go:19-52 | `make` gives a fresh buffer of `dimension` zeros of the kind |
| Vectors.Vector.Len | number/vector/genericVector.go:381-383 | the dimension is the number of stored cells |
| Vectors.Vector.Get | number/vector/genericVector.go:429-434 | fails when i >= dimension or i >= MaxInt32; a negative i faults in the slice access; otherwise the scalar of kind `kind` stored at i |
| Vectors.Vector.Set | number/vector/genericVector.go:438-447 | the checks in order (bounds, type of cell 0, slice write); on success only cell i changes and the receiver is returned; on failure nothing changes |
| Vectors.Vector.Add | number/vector/genericVector.go:181-222 | kind mismatch first, then dimension mismatch; otherwise a fresh vector whose cells are the cell-wise sums `Sum`, the operands unchanged |
| Vectors.Vector.Sub | number/vector/genericVector.go:225-266 | the same checks; a fresh vector of the cell-wise differences `Difference` |
| Vectors.Vector.Divs | number/vector/genericVector.go:336-373 | the scalar's kind must be the vector's; an integer zero fails on a non-empty vector; otherwise a fresh vector of the quotients `Quotient` |
| Vectors.Vector.Unit | number/vector/genericVector.go:114-127 | only Float32 and Float64 vectors have a unit vector; it is the vector divided by the norm |
| Vectors.Vector.Equal | number/vector/genericVector.go:385-426 | kind mismatch, then dimension mismatch; otherwise true iff every cell pair is equal under the kind's `==` |
| Vectors.ZeroVector | number/vector/genericVector.go:19-52 | an unknown kind fails, a negative dimension fails; otherwise a fresh vector of `dimension` zeros |
| Vectors.FilledVector | number/vector/genericVector.go:93-111 | empty input fails; the kind is that of the first value; it succeeds iff every value has that kind (and the length is at most MaxInt32), and then cell i is value i |
| Vectors.DifferenceWithItselfIsZero | number/vector/genericVector_test.go:41-68 | v.Sub(v) is the zero vector of v's kind and length |
| Vectors.QuotientByOneIsIdentity | number/vector/genericVector_test.go:70-84 | v.Divs(1) is v for the integer kinds |
| Vectors.DifferenceUndoesSum | number/vector/genericVector.go:181-266 | (v + w) − w is v for the integer kinds |
| Vectors.AllEqualIsIdentityOnIntegers | number/vector/genericVector.go:385-426 | on integer kinds, Equal is true exactly when the cells are identical |
| Vectors.AllEqualReflexiveIffNoNaN | number/vector/genericVector.go:385-426 | v.Equal(v) holds exactly when v has no NaN cell, so it always holds on the integer kinds |
| Vectors.NonZeroDiffersFromZero | number/vector/genericVector_test.go:86-105 | [1, 2, 3] is not equal to the zero vector of length 3 |
| Vectors.NaNVectorIsNotEqualToItself | number/vector/genericVector.go:385-426 | a Float32 vector holding a NaN is not equal to itself |
| Vectors.SumWrapsAround | number/vector/genericVector.go:194-195 | [127] + [1] is [−128] for int8 |
| Matrices.OffsetIsProduct | number/matrix/genericMatrix.go:283-298 | the row-major offset is row·cols + col |
| Matrices.OffsetInjective | number/matrix/genericMatrix.go:283-298 | distinct in-range cells have distinct offsets |
| Matrices.CheckedOffset | number/matrix/genericMatrix.go:283-298 | the intended index: defined exactly on 0 <= row < rows, 0 <= col < cols, and then below rows·cols |
| Matrices.WrittenOffsetInRange | number/matrix/genericMatrix.go:287 | on in-range indices the as-written `row*cols + col` in Go `int` arithmetic is the row-major offset |
| Matrices.Matrix.constructor | number/matrix/genericMatrix.go:23-63 | `make` gives a fresh buffer whose grid is the zero grid of the shape |
| Matrices.Matrix.Grid | number/matrix/genericMatrix.go:283-298 | the buffer, viewed as `rows` rows of `cols` in-range cells |
| Matrices.Matrix.Get | number/matrix/genericMatrix.go:283-288 | only the upper bounds are checked; the cell at the wrapped offset, or a fault outside the buffer; on in-range indices, grid cell (row, col) |
| Matrices.Matrix.Set | number/matrix/genericMatrix.go:290-298 | upper bounds, then kind, then the slice write; on success exactly the slot at the written offset changes |
| Matrices.Matrix.GetChecked | number/matrix/genericMatrix.go:283-288 | with both bounds checked: grid cell (row, col), or IndexOutOfRange |
| Matrices.Matrix.SetChecked | number/matrix/genericMatrix.go:290-298 | with both bounds checked: the grid with cell (row, col) replaced and nothing else |
| Matrices.Matrix.Mulv | number/matrix/genericMatrix.go:180-222 | kind mismatch, then cols != v.Len(); otherwise a fresh vector whose entry r is Σ_c m[r][c]·v[c], accumulated left to right |
| Matrices.Matrix.Mulm | number/matrix/genericMatrix.go:224-269 | kind mismatch, then m.cols != n.rows, then the allocation's failure; otherwise a fresh rows × n.cols matrix whose cell (i, j) is Σ_k m[i][k]·n[k][j] in increasing k |
| Matrices.Matrix.Equal | number/matrix/genericMatrix.go:300-341 | kind mismatch, then shape mismatch; otherwise true iff every cell pair is equal under the kind's `==` |
| Matrices.ZeroMatrix | number/matrix/genericMatrix.go:23-63 | fails exactly when `Allocation` fails (64-bit product over MaxInt32, unknown kind, negative length), with its error; otherwise the zero grid |
| Matrices.UnitMatrix | number/matrix/genericMatrix.go:65-104 | fails as ZeroMatrix does; otherwise the grid with One at (i, i) for i < min(rows, cols) and Zero elsewhere |
| Matrices.WriteDiagonal | number/matrix/genericMatrix.go:98-101 | the loop turns the zero grid into the identity grid |
| Matrices.FilledMatrix | number/matrix/genericMatrix.go:143-178 | no rows or no columns fail; the allocation's failure, then the first irregular row or foreign kind, fail; otherwise cell (i, j) is values[i][j] |
| Matrices.PartialIdentityCell | number/matrix/genericMatrix.go:98-101 | after d diagonal writes, cell (i, j) is One exactly when i == j < d |
| Matrices.PartialIdentityEnds | number/matrix/genericMatrix.go:98-101 | once the loop stops at min(rows, cols), the written grid is the identity |
| Matrices.MulvCell | number/matrix/genericMatrix.go:189-219 | part-way through Mulv's loops, every entry holds the partial dot product of its row |
| Matrices.PartialCell | number/matrix/genericMatrix.go:234-266 | part-way through Mulm's three loops, every result cell holds the terms added so far, in increasing k |
| Matrices.MulmDone | number/matrix/genericMatrix.go:234-266 | once all three loops have run, the result is the matrix product |
| Matrices.AllocationSucceedsIff | number/matrix/genericMatrix.go:23-63 | genericZeroMatrix succeeds exactly on non-negative dimensions whose product fits MaxInt32, for the twelve kinds |
| Matrices.ScanPassesIff | number/matrix/genericMatrix.go:167-175 | the row checks pass exactly when every row has `cols` values of the first value's kind |
| Matrices.DotCommutes | number/matrix/genericMatrix.go:180-269 | on integer kinds the accumulated dot product is symmetric |
| Matrices.DotSelects | number/matrix/genericMatrix.go:180-269 | a dot product with a selector row picks one entry |
| Matrices.ProductWithIdentity | number/matrix/genericMatrix_test.go:20-54 | identity · v == v for the integer kinds |
| Matrices.IdentityTimesMatrix | number/matrix/genericMatrix_test.go:56-93 | I · N == N for the integer kinds |
| Matrices.MatrixTimesIdentity | number/matrix/genericMatrix_test.go:56-93 | M · I == M for the integer kinds |
| Matrices.SelectionExample | number/matrix/genericMatrix_test.go:20-54 | [[1,0,0],[1,0,0],[1,0,0]] · [1,2,3] == [1,1,1] |
| Matrices.ProjectionExample | number/matrix/genericMatrix_test.go:20-54 | [[1,0,1],[0,1,1]] · [1,2,3] == [4,5] |
| Matrices.GridEqualIsIdentityOnIntegers | number/matrix/genericMatrix.go:300-341 | on integer kinds Equal is true exactly when the grids are identical |
| Matrices.NegativeColumnAddressesPreviousRow | number/matrix/genericMatrix.go:283-298 | a column in [−cols, 0) passes the bounds check and addresses cell (row − 1, col + cols), which the intended check rejects |
| Matrices.NegativeColumnExample | number/matrix/genericMatrix.go:283-288 | Get(1, −1) on a 2 × 3 matrix reads cell (0, 2) |
| Matrices.CheckedOffsetIsOneToOne | number/matrix/genericMatrix.go:290-298 | the intended index maps cells one-to-one onto the buffer |
| Snapshot.ProductAgrees | number/matrix/matrix.go:68 | while rows·cols fits MaxInt64, the `uint` product is the true one |
| Snapshot.CreationsAgree | number/matrix/matrix.go:66-110 | without wrap-around the written and the intended checks agree |
| Snapshot.CheckedCreationIsStricter | number/matrix/matrix.go:66-110 | every matrix the intended check admits, the written one admits too |
| Snapshot.AccessExact | number/matrix/matrix.go:37-52 | in a buffer of exactly rows·cols cells, an in-range cell is found at its row-major offset and never faults |
| Snapshot.AccessInjective | number/matrix/matrix.go:37-52 | in such a buffer distinct cells never share a slot |
| Snapshot.WrappedSizeAdmitted | number/matrix/matrix.go:68-70 | NewMatrix(2^32, 2^32) passes the size check with an empty buffer, and Get(0, 0) then faults |
| Snapshot.WrappedIndexAliases | number/matrix/matrix.go:41 | in NewMatrix(2^32 + 1, 2^32), cells (2^32, 0) and (0, 0) are the same slot |
| Snapshot.Matrix.constructor | number/matrix/matrix.go:76-107 | `make` gives a fresh zeroed buffer of the wrapped length |
| Snapshot.Matrix.Grid | number/matrix/matrix.go:37-52 | when the dimensions did not wrap, the buffer as rows × cols cells |
| Snapshot.Matrix.Get | number/matrix/matrix.go:37-42 | the upper bounds, then the cell at the wrapped index or a fault; without wrap-around, grid cell (row, col) |
| Snapshot.Matrix.Set | number/matrix/matrix.go:44-52 | the upper bounds, the type of cell 0, then the write at the wrapped index; only that slot changes; without wrap-around, exactly cell (row, col) |
| Snapshot.NewMatrix | number/matrix/matrix.go:66-110 | fails exactly as the written checks do (wrapped size over MaxInt64, then a kind other than the twelve and the two complex ones); otherwise a zeroed buffer of the wrapped length |
| Snapshot.NewMatrixChecked | number/matrix/matrix.go:66-110 | with the intended size check: exactly rows·cols zero cells |
| Render.Painted | render/render.go:41-43 | writing a colour sets bytes k, k+1, k+2 and leaves every other byte alone |
| Render.Canvas.constructor | render/render.go:26-28 | a fresh zeroed buffer of width·height·4 bytes (Go `int` arithmetic) |
| Render.Canvas.Clear | render/render.go:31-35 | every byte of the buffer is 0 afterwards |
| Render.Canvas.Set | render/render.go:38-45 | the buffer becomes `Drawn`: the colour at (y·width + x)·4 when `index < len − 4 && index >= 0`, otherwise unchanged |
| Render.Canvas.SetPixel | render/render.go:38-45 | with the intended guard `index <= len − 4`: the colour whenever the whole pixel lies in the buffer |
| Render.NewCanvas | render/render.go:26-28 | a negative length fails as `make` does; otherwise a fresh canvas of exactly width·height·4 zero bytes, whose Width and Height are the arguments |
| Render.QuadrupleIsMultipleOfFour | render/render.go:27 | the buffer length and every pixel offset are multiples of 4, wrap-around included |
| Render.PixelIndexExact | render/render.go:39 | while the buffer fits a Go int, pixel (x, y) starts at (y·width + x)·4, a whole pixel before the end |
| Render.PixelsAreDisjoint | render/render.go:39-44 | distinct visible pixels occupy disjoint bytes |
| Render.LastPixelIsNeverWritten | render/render.go:40 | Set as written never changes the last four bytes |
| Render.SetPixelWritesEveryPixel | render/render.go:38-45 | the corrected Set writes the colour of every visible pixel, the last one included, and nothing else |
| Render.GuardsDifferOnlyAtLastPixel | render/render.go:40 | the written and the intended guards agree except at offset len − 4 |
| Render.OnePixelCanvas | render/render.go:38-45 | on a 1 × 1 canvas Set(0, 0, white) as written leaves the pixel black; the corrected one paints it |
| Model.VettedIff | model/model.go:26-31 | the vertex loop passes exactly when every vertex is present and 3-D, and otherwise fails with NilReference or WrongVertexDimension |
| Model.VettedSkipsPoints | model/model.go:26-31 | vertices already checked do not change the loop's outcome |
| Model.NewMesh | model/model.go:19-34 | a count other than 3 fails; it succeeds iff every vertex is a 3-D vector, with the error of the first bad one; then vertex i is input i |
| Model.GetVertex | model/model.go:37-42 | succeeds exactly for indices 0, 1 and 2 |
| Model.GetVertexReturnsStored | model/model.go:30-41 | GetVertex(i) returns the i-th vertex given to NewMesh |
| Model.PositionGuardAdmitsEither | model/model.go:59 | as written, a position passes when it is 3-D OR Float32; the intended guard needs both |
| Model.PositionGuardExamples | model/model.go:59 | a 2-D Float32 vector and a 3-D int vector pass the written guard and fail the intended one |
| Model.Part.constructor | model/model.go:111 | the zero Part: no position, rotation or scaling, no meshes |
| Model.Part.Meshes | model/model.go:97-99 | the number of stored meshes |
| Model.Part.SetPosition | model/model.go:58-63 | nil faults; rejected iff both `Len() != 3` and kind != Float32; otherwise only the position changes |
| Model.Part.SetPositionChecked | model/model.go:58-63 | with the intended "or" guard: only a 3-D Float32 position is stored |
| Model.Part.GetMesh | model/model.go:82-94 | index < 0 or > Meshes() fails; index == Meshes() faults; otherwise it succeeds iff the rotation is 3 × 3 and the position and vertices fit it, and vertex k is rotation·vertex_k + position |
| Model.Part.PlaceAll | model/model.go:88-91 | the three vertices are placed in order and all succeed iff all fit |
| Model.Part.PlaceVertex | model/model.go:89 | `rotation.Mulv(vertex).Add(position)`: succeeds iff the shapes and kinds fit, and is then the rotated, moved vertex |
| Model.Corner | model/model.go:125-132 | each corner has three Float32 coordinates |
| Model.BoxFacesTileTheSides | model/model.go:135-154 | each of the twelve triangles has three distinct corners on its side, and each side's two triangles cover its four corners |
| Model.BoxTriangles | model/model.go:135-154 | vertex k of triangle f is corner BoxFaces[f][k] |
| Model.BoxTrianglesShareCorners | model/model.go:135-154 | over distinct corners, two triangle vertices are the same object exactly when they are the same corner |
| Model.Point | model/model.go:125-132 | each corner is a new 3-D Float32 vector with corner c's coordinates |
| Model.CornerRun | model/model.go:125-132 | four corners in order, new and distinct from those made before |
| Model.BoxCorners | model/model.go:125-132 | the eight corners fbl … ftr, distinct, each with its coordinates |
| Model.Face | model/model.go:137-153 | NewMesh of three corners always succeeds and holds them in order |
| Model.BoxMeshes | model/model.go:135-154 | the twelve meshes are exactly BoxTriangles of the corners |
| Model.LowerSides | model/model.go:136-145 | the bottom, top and left triangles |
| Model.UpperSides | model/model.go:146-153 | the right, front and back triangles |
| Model.Box.constructor | model/model.go:156-158 | the sizes are stored |
| Model.NewBox | model/model.go:110-161 | fails iff a size is <= 0.0; otherwise a zero 3-D Float32 position, a 3 × 3 Float32 unit rotation, no scaling, the twelve triangles over eight distinct corners, and the sizes stored |
| Model.NewBoxIsValid | model/model.go:110-161 | a new box is a valid part, and vertex k of triangle f is corner BoxFaces[f][k] with its coordinates |

## Left out

- Floating-point arithmetic is not modelled. Float cells are bit patterns,
  and `+ − · /` on them come from the `FloatUnit` parameter, about which only
  the width of its results is known. So the identity, `Sub` and `Divs`
  laws are proved for the ten integer kinds only. Float `==` is modelled
  exactly.
- Matrices.Matrix.Mulv: its float cells, and those of Matrices.Matrix.Mulm,
  assume that the product and the sum of each step are rounded separately.
  Go lets a compiler fuse `x + y*z` into one rounding (a fused multiply-add)
  when no explicit float conversion intervenes, and the operands at
  genericMatrix.go:214-216 and 260-262 are type assertions. Fused results
  are not modelled.
- `Abs` (genericVector.go:131-166) and the numeric value of `Unit`'s norm are
  left out (`math.Pow`/`math.Sqrt`): `Unit` takes that norm as a parameter.
- `genericRandomVector` and `genericRandomMatrix` are left out: they depend on
  `math/rand`.
- The `String()` methods are left out: they are formatting only.
- The commented-out `Min`, `MinD`, `Max`, `MaxD` and `Muls` are not modelled:
  they are dead code.
- `reflect` is replaced by the `ElementKind` tag. A literal constructor's
  argument that is not an array or slice (genericVector.go:94-97,
  genericMatrix.go:146-158) cannot be expressed. `matrix.go`'s `Get`
  returns the cell as a value rather than a `reflect.Value`.
- `number/vector/vector.go`, `main.go` and, in `render.go`, `Camera`,
  `Project`, `drawLine`, `drawMesh`, `drawGrid`, `Draw` and `Pixels` are not
  part of this model. They are the SDL window, the float geometry and line
  drawing.
- `Part.SetRotation` (model.go:66-79) is not part of this model: it does not
  compile and uses trigonometry.
- A Go `Part` also has a scaling matrix that nothing sets. The model keeps
  the field, always nil.
- `Kind()`, `Rows()`, `Cols()`, `Width()` and `Height()` are plain field
  reads without a contract of their own. The constructors' contracts state
  what they return.
- Matrices.ZeroMatrix: in two cases genericZeroMatrix goes on to build a
  malformed matrix, but the model returns an error. The first is a negative
  dimension whose 64-bit product is non-negative. The second is a product
  that wraps into [0, MaxInt32]. The model reports NegativeLength and
  SizeOverflow, so those malformed matrices are not modelled.
- Matrices.UnitMatrix: it calls genericZeroMatrix and inherits both cases.
  For example `genericUnitMatrix(-1, -1, Int)` builds a matrix of one cell
  with rows and cols -1 in Go, and is an error here.
- Matrices.Matrix.Mulm: it allocates its result with genericZeroMatrix and
  inherits the wrapped-product case. `ZeroMatrix`, called at
  genericMatrix.go:234, is not defined in the modelled files; the model
  takes it to be genericZeroMatrix. For example a 2^32 x 0 matrix times a
  0 x 2^32 matrix of Int passes both of Mulm's checks; in Go the 64-bit
  product 2^64 wraps to 0, so Go returns a 2^32 x 2^32 matrix with no
  cells, and the model returns SizeOverflow. A negative dimension cannot
  reach Mulm, since both operands are valid matrices.
- Vectors.Vector.Get: a negative index reaches the slice access and faults,
  as in Go. The model reports it as `IndexFault` rather than as a runtime
  panic with a message.
- Model.Part.GetMesh: its contract states when it succeeds, but not which
  error it reports when a vertex cannot be placed.
- Model.NewBox: the corner coordinates are `∓size/2` through the
  `FloatUnit` parameter, so the model states them symbolically (`Corner`),
  not as numbers.
- Memory exhaustion is not modelled: allocation limits of the Go runtime
  beyond the source's MaxInt32 checks are not part of this model.
- A sequence of tagged values stands for a typed Go slice, whose elements
  all have one kind. The `KindMismatch` outcome that `FilledVector`,
  `Scan` and `FilledMatrix` give for a later value of another kind has no
  Go input: the only container that mixes kinds is `[]interface{}`, whose
  first element has kind Interface, so Go fails with "Unknown Kind" before
  any cell is set.
- Helpers such as `MulvRow`, `Accumulate`, `CornerRun`, `LowerSides` and
  `UpperSides` split long loops and call sequences into methods. They do not
  change the order of operations.

## Findings

| source | as written | input that shows it | evidently intended | confidence | as-written member | corrected member |
|---|---|---|---|---|---|---|
| render/render.go:40 | `index < len(c.pixels)-4` skips the last pixel | a 1 × 1 canvas, Set(0, 0, white): index 0 is not < 0, nothing is written | `index <= len(c.pixels)-4` | high (not executed) | Render.Canvas.Set, with Render.LastPixelIsNeverWritten and Render.OnePixelCanvas | Render.Canvas.SetPixel, with Render.SetPixelWritesEveryPixel |
| model/model.go:59 | `position.Len() != 3 && position.Kind() != reflect.Float32` rejects only vectors that are wrong in both ways | a 2-D Float32 vector, or a 3-D int vector, is stored | reject when either test fails, so only a 3-D Float32 vector is accepted | high (not executed) | Model.Part.SetPosition, with Model.PositionGuardExamples | Model.Part.SetPositionChecked |
| number/matrix/genericMatrix.go:284,291 | only the upper bounds of row and col are checked | Get(1, −1) on a 2 × 3 matrix returns cell (0, 2) | `0 <= row < rows && 0 <= col < cols` | medium (not executed) | Matrices.Matrix.Get and Matrices.Matrix.Set, with Matrices.NegativeColumnExample | Matrices.Matrix.GetChecked and Matrices.Matrix.SetChecked, with Matrices.CheckedOffsetIsOneToOne |
| number/matrix/matrix.go:68 | `rows*cols > math.MaxInt64` is computed in wrapping `uint` arithmetic | NewMatrix(2^32, 2^32) allocates 0 cells and Get(0, 0) faults; NewMatrix(2^32 + 1, 2^32) makes cells (2^32, 0) and (0, 0) share a slot | compare the true product with MaxInt64 | high (not executed) | Snapshot.NewMatrix, with Snapshot.WrappedSizeAdmitted and Snapshot.WrappedIndexAliases | Snapshot.NewMatrixChecked, with Snapshot.AccessExact and Snapshot.AccessInjective |
