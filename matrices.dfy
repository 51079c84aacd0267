/** The row-major, kind-tagged matrix of number/matrix/genericMatrix.go.

    A Go `genericMatrix` is a value struct {rows, cols, kind, values} whose
    `values` slice of rows*cols cells is shared by every copy, so `Set` on any
    copy writes the one backing array.  Here a `Matrix` is an object whose
    constant `cells` array is that backing slice; `Grid()` views it as a
    sequence of rows. */
module Matrices {
  import opened Faults
  import opened Scalars
  import opened Vectors

  // ---------------------------------------------------------------------
  // Row-major layout.

  /** The flat index i*cols + j of cell (i, j), written as repeated addition
      so that the container proofs stay linear. */
  function Offset(cols: nat, i: nat, j: nat): nat {
    if i == 0 then j else cols + Offset(cols, i - 1, j)
  }

  /** The number of cells of a rows x cols matrix. */
  function Area(rows: nat, cols: nat): nat { Offset(cols, rows, 0) }

  lemma {:induction false} OffsetIsProduct(cols: nat, i: nat, j: nat)
    ensures Offset(cols, i, j) == i * cols + j
  {
    if i > 0 {
      OffsetIsProduct(cols, i - 1, j);
      assert (i - 1) * cols + cols == i * cols;
    }
  }

  lemma MulMonotone(a: int, b: int, c: nat)
    requires a <= b
    ensures a * c <= b * c
  {
    assert b * c - a * c == (b - a) * c;
  }

  /** Cell (i, j) of a rows x cols matrix lies inside its cells. */
  lemma OffsetBounds(rows: nat, cols: nat, i: nat, j: nat)
    requires i < rows && j < cols
    ensures Offset(cols, i, j) < Area(rows, cols)
  {
    OffsetIsProduct(cols, i, j);
    OffsetIsProduct(cols, rows, 0);
    MulMonotone(i + 1, rows, cols);
    assert (i + 1) * cols == i * cols + cols;
  }

  /** Distinct cells have distinct offsets. */
  lemma OffsetInjective(cols: nat, i: nat, j: nat, i2: nat, j2: nat)
    requires j < cols && j2 < cols && Offset(cols, i, j) == Offset(cols, i2, j2)
    ensures i == i2 && j == j2
  {
    OffsetIsProduct(cols, i, j);
    OffsetIsProduct(cols, i2, j2);
    DivModUnique(i * cols + j, cols, i, j);
    DivModUnique(i2 * cols + j2, cols, i2, j2);
  }

  /** A matrix whose rows hold at least one cell has no more rows than
      cells, and likewise for its columns. */
  lemma AreaBounds(rows: nat, cols: nat)
    ensures cols >= 1 ==> rows <= Area(rows, cols)
    ensures rows >= 1 ==> cols <= Area(rows, cols)
  {
    OffsetIsProduct(cols, rows, 0);
    if cols >= 1 {
      MulMonotone(1, cols, rows);
    }
    if rows >= 1 {
      MulMonotone(1, rows, cols);
    }
  }

  /** The cells a[0..rows*cols) seen as `rows` rows of `cols` cells. */
  function Reshape(a: seq<int>, rows: nat, cols: nat): (g: seq<seq<int>>)
    requires |a| == Area(rows, cols)
    ensures |g| == rows
    ensures forall i :: 0 <= i < rows ==> |g[i]| == cols
    ensures forall i, j :: 0 <= i < rows && 0 <= j < cols ==>
      Offset(cols, i, j) < |a| && g[i][j] == a[Offset(cols, i, j)]
  {
    var g := seq(rows, i requires 0 <= i < rows =>
      seq(cols, j requires 0 <= j < cols => OffsetBounds(rows, cols, i, j); a[Offset(cols, i, j)]));
    assert forall i, j :: 0 <= i < rows && 0 <= j < cols ==> Offset(cols, i, j) < |a| by {
      forall i, j | 0 <= i < rows && 0 <= j < cols ensures Offset(cols, i, j) < |a| {
        OffsetBounds(rows, cols, i, j);
      }
    }
    g
  }

  /** Writing one cell of the buffer changes exactly that entry of the grid. */
  lemma ReshapeUpdate(a: seq<int>, rows: nat, cols: nat, i: nat, j: nat, v: int)
    requires |a| == Area(rows, cols) && i < rows && j < cols && Offset(cols, i, j) < |a|
    ensures Reshape(a[Offset(cols, i, j) := v], rows, cols) ==
            Reshape(a, rows, cols)[i := Reshape(a, rows, cols)[i][j := v]]
  {
    var g := Reshape(a, rows, cols);
    var g2 := Reshape(a[Offset(cols, i, j) := v], rows, cols);
    var h := g[i := g[i][j := v]];
    forall i2, j2 | 0 <= i2 < rows && 0 <= j2 < cols
      ensures g2[i2][j2] == h[i2][j2]
    {
      if Offset(cols, i2, j2) == Offset(cols, i, j) {
        OffsetInjective(cols, i2, j2, i, j);
      }
    }
    forall i2 | 0 <= i2 < rows
      ensures g2[i2] == h[i2]
    {
    }
  }

  predicate IsGrid(g: seq<seq<int>>, rows: nat, cols: nat) {
    |g| == rows && forall i :: 0 <= i < rows ==> |g[i]| == cols
  }

  predicate GridInRange(k: ElementKind, g: seq<seq<int>>) {
    forall i, j :: 0 <= i < |g| && 0 <= j < |g[i]| ==> InRange(k, g[i][j])
  }

  // ---------------------------------------------------------------------
  // Specification: the values the constructors and products compute.

  /** The cells of genericZeroMatrix(rows, cols, k). */
  function ZeroGrid(k: ElementKind, rows: nat, cols: nat): seq<seq<int>> {
    seq(rows, i => Zeros(k, cols))
  }

  /** The unit matrix: One on the diagonal i == j, Zero elsewhere. */
  function Identity(k: ElementKind, rows: nat, cols: nat): seq<seq<int>>
    requires IsElementKind(k)
  {
    seq(rows, i => seq(cols, j => if i == j then One(k) else Zero(k)))
  }

  /** The unit matrix with only the first d diagonal cells written, in the
      order genericUnitMatrix writes them. */
  ghost function PartialIdentity(k: ElementKind, rows: nat, cols: nat, d: nat): (g: seq<seq<int>>)
    requires IsElementKind(k) && d <= rows && d <= cols
    ensures IsGrid(g, rows, cols)
    decreases d
  {
    if d == 0 then ZeroGrid(k, rows, cols)
    else
      var p := PartialIdentity(k, rows, cols, d - 1);
      p[d - 1 := p[d - 1][d - 1 := One(k)]]
  }

  /** The checks genericZeroMatrix makes before it allocates: the 64-bit
      product against MaxInt32, then the kind, then `make`'s non-negative
      length.  The last two cases (a negative dimension, a product that
      wrapped) are where Go goes on to build a malformed matrix; the model
      rejects them. */
  function Allocation(rows: GoInt, cols: GoInt, kind: ElementKind): Outcome {
    var length := GoMul(rows, cols);
    if length > MaxInt32 then Fail(SizeOverflow)
    else if !IsElementKind(kind) then Fail(InvalidKind)
    else if length < 0 || rows < 0 || cols < 0 then Fail(NegativeLength)
    else if Area(rows, cols) > MaxInt32 then Fail(SizeOverflow)
    else Pass
  }

  /** Σ_{i < n} a[i]·b[i], accumulated from the left in the kind's
      arithmetic, as the accumulation loops of Mulv and Mulm add it up. */
  function Dot(k: ElementKind, a: seq<int>, b: seq<int>, n: nat, fpu: FloatUnit): (r: int)
    requires IsElementKind(k) && n <= |a| && n <= |b|
    ensures InRange(k, r)
  {
    if n == 0 then Zero(k)
    else Add(k, Dot(k, a, b, n - 1, fpu), Mul(k, a[n - 1], b[n - 1], fpu), fpu)
  }

  function Column(h: seq<seq<int>>, c: nat): (col: seq<int>)
    requires forall i :: 0 <= i < |h| ==> c < |h[i]|
    ensures |col| == |h| && forall i :: 0 <= i < |h| ==> col[i] == h[i][c]
  {
    seq(|h|, i requires 0 <= i < |h| => h[i][c])
  }

  /** The matrix-vector product: entry r is Σ_c g[r][c]·x[c]. */
  function Product(k: ElementKind, g: seq<seq<int>>, x: seq<int>, fpu: FloatUnit): (p: seq<int>)
    requires IsElementKind(k) && forall i :: 0 <= i < |g| ==> |g[i]| == |x|
    ensures |p| == |g|
  {
    seq(|g|, i requires 0 <= i < |g| => Dot(k, g[i], x, |x|, fpu))
  }

  /** The matrix-matrix product of g (|g| x |h|) and h (|h| x p): entry
      (i, j) is Σ_k g[i][k]·h[k][j]. */
  function MatProduct(k: ElementKind, g: seq<seq<int>>, h: seq<seq<int>>, p: nat, fpu: FloatUnit): seq<seq<int>>
    requires IsElementKind(k) && IsGrid(h, |h|, p)
    requires forall i :: 0 <= i < |g| ==> |g[i]| == |h|
  {
    seq(|g|, i requires 0 <= i < |g| =>
      seq(p, j requires 0 <= j < p => Dot(k, g[i], Column(h, j), |h|, fpu)))
  }

  /** Every cell pair of two equally shaped grids is equal under the
      kind's `==`. */
  predicate GridEqual(k: ElementKind, g: seq<seq<int>>, h: seq<seq<int>>, rows: nat, cols: nat)
    requires IsElementKind(k) && IsGrid(g, rows, cols) && IsGrid(h, rows, cols)
  {
    forall i, j :: 0 <= i < rows && 0 <= j < cols ==> Eq(k, g[i][j], h[i][j])
  }

  /** GridEqual restricted to the cells before (r, c) in row-major order. */
  predicate GridEqualBefore(k: ElementKind, g: seq<seq<int>>, h: seq<seq<int>>, rows: nat, cols: nat, r: nat, c: nat)
    requires IsElementKind(k) && IsGrid(g, rows, cols) && IsGrid(h, rows, cols)
  {
    forall i, j :: 0 <= i < rows && 0 <= j < cols && (i < r || (i == r && j < c)) ==>
      Eq(k, g[i][j], h[i][j])
  }

  /** The row checks genericFilledMatrix makes from row `from` on, in its
      order: the row's length first, then the kind of each of its values. */
  function Scan(values: seq<seq<Value>>, cols: nat, kind: ElementKind, from: nat): Outcome
    requires from <= |values|
    decreases |values| - from
  {
    if from == |values| then Pass
    else if |values[from]| != cols then Fail(IrregularInput)
    else if exists c :: 0 <= c < cols && values[from][c].kind != kind then Fail(KindMismatch)
    else Scan(values, cols, kind, from + 1)
  }

  // ---------------------------------------------------------------------
  // Loop progress: how far the accumulation and fill loops have got.

  /** The loop positions of Mulv: row `row` of the matrix, column `col`. */
  predicate MulvBounds(k: ElementKind, g: seq<seq<int>>, x: seq<int>, row: nat, col: nat) {
    IsElementKind(k) && (forall i :: 0 <= i < |g| ==> |g[i]| == |x|) &&
    row <= |g| && col <= |x| && (col > 0 ==> row < |g|)
  }

  /** The result vector of Mulv(g, x) once its loops reach (row, col): the
      zero vector, updated by the loop body at every earlier position. */
  ghost function MulvPartial(k: ElementKind, g: seq<seq<int>>, x: seq<int>, row: nat, col: nat, fpu: FloatUnit): (out: seq<int>)
    requires MulvBounds(k, g, x, row, col)
    ensures |out| == |g|
    decreases row, col
  {
    if col > 0 then
      var out := MulvPartial(k, g, x, row, col - 1, fpu);
      out[row := Add(k, out[row], Mul(k, g[row][col - 1], x[col - 1], fpu), fpu)]
    else if row > 0 then MulvPartial(k, g, x, row - 1, |x|, fpu)
    else Zeros(k, |g|)
  }

  /** Part-way through the loops, entry i holds the first terms of its dot
      product: all of them for the rows already done, col of them for the
      current row, none for the rows to come. */
  lemma {:induction false} MulvCell(k: ElementKind, g: seq<seq<int>>, x: seq<int>, row: nat, col: nat, i: nat,
                                    fpu: FloatUnit)
    requires MulvBounds(k, g, x, row, col) && i < |g|
    ensures MulvPartial(k, g, x, row, col, fpu)[i] ==
            Dot(k, g[i], x, if i < row then |x| else if i == row then col else 0, fpu)
    decreases row, col
  {
    if col > 0 {
      MulvCell(k, g, x, row, col - 1, i, fpu);
    } else if row > 0 {
      MulvCell(k, g, x, row - 1, |x|, i, fpu);
    }
  }

  lemma MulvNextRow(k: ElementKind, g: seq<seq<int>>, x: seq<int>, row: nat, col: nat, fpu: FloatUnit)
    requires MulvBounds(k, g, x, row, col) && col == |x| && row < |g|
    ensures MulvBounds(k, g, x, row + 1, 0)
    ensures MulvPartial(k, g, x, row, col, fpu) == MulvPartial(k, g, x, row + 1, 0, fpu)
  {
  }

  /** When the loops finish, the result is the matrix-vector product. */
  lemma MulvDone(k: ElementKind, g: seq<seq<int>>, x: seq<int>, row: nat, fpu: FloatUnit)
    requires MulvBounds(k, g, x, row, 0) && row == |g|
    ensures MulvPartial(k, g, x, row, 0, fpu) == Product(k, g, x, fpu)
  {
    forall i | 0 <= i < |g|
      ensures MulvPartial(k, g, x, row, 0, fpu)[i] == Product(k, g, x, fpu)[i]
    {
      MulvCell(k, g, x, row, 0, i, fpu);
    }
  }

  /** The vector is the result of Mulv(g, x) part-way through its loops. */
  ghost predicate MulvAt(res: Vector, k: ElementKind, g: seq<seq<int>>, x: seq<int>, row: nat, col: nat, fpu: FloatUnit)
    reads res.cells
  {
    res.Valid() && res.kind == k && res.dimension == |g| && MulvBounds(k, g, x, row, col) &&
    res.cells[..] == MulvPartial(k, g, x, row, col, fpu)
  }

  /** The loop positions of Mulm: column cn of n, row rn of n, row rm of
      the result (the innermost), as far as the loops ever reach. */
  predicate MulmBounds(k: ElementKind, g: seq<seq<int>>, h: seq<seq<int>>, p: nat, cn: nat, rn: nat, rm: nat) {
    IsElementKind(k) && IsGrid(g, |g|, |h|) && IsGrid(h, |h|, p) &&
    cn <= p && rn <= |h| && rm <= |g| && (rm > 0 ==> rn < |h|) && (rn > 0 || rm > 0 ==> cn < p)
  }

  /** The result grid of Mulm(g, h) once its loops reach (cn, rn, rm): the
      zero grid, updated by the loop body at every earlier position. */
  ghost function Partial(k: ElementKind, g: seq<seq<int>>, h: seq<seq<int>>, p: nat,
                         cn: nat, rn: nat, rm: nat, fpu: FloatUnit): (q: seq<seq<int>>)
    requires MulmBounds(k, g, h, p, cn, rn, rm)
    ensures IsGrid(q, |g|, p)
    decreases cn, rn, rm
  {
    if rm > 0 then
      var q := Partial(k, g, h, p, cn, rn, rm - 1, fpu);
      q[rm - 1 := q[rm - 1][cn := Add(k, q[rm - 1][cn], Mul(k, g[rm - 1][rn], h[rn][cn], fpu), fpu)]]
    else if rn > 0 then Partial(k, g, h, p, cn, rn - 1, |g|, fpu)
    else if cn > 0 then Partial(k, g, h, p, cn - 1, |h|, 0, fpu)
    else ZeroGrid(k, |g|, p)
  }

  /** The inner and middle loops close by stepping their counters on. */
  lemma MulmNextRow(k: ElementKind, g: seq<seq<int>>, h: seq<seq<int>>, p: nat,
                    cn: nat, rn: nat, rm: nat, fpu: FloatUnit)
    requires MulmBounds(k, g, h, p, cn, rn, rm) && rm == |g| && rn < |h| && cn < p
    ensures MulmBounds(k, g, h, p, cn, rn + 1, 0)
    ensures Partial(k, g, h, p, cn, rn, rm, fpu) == Partial(k, g, h, p, cn, rn + 1, 0, fpu)
  {
  }

  lemma MulmNextColumn(k: ElementKind, g: seq<seq<int>>, h: seq<seq<int>>, p: nat, cn: nat, rn: nat, fpu: FloatUnit)
    requires MulmBounds(k, g, h, p, cn, rn, 0) && rn == |h| && cn < p
    ensures MulmBounds(k, g, h, p, cn + 1, 0, 0)
    ensures Partial(k, g, h, p, cn, rn, 0, fpu) == Partial(k, g, h, p, cn + 1, 0, 0, fpu)
  {
  }

  /** The number of terms result cell (i, j) of Mulm holds once the loops
      reach column cn of n, row rn of n and row rm of the result. */
  function Done(terms: nat, cn: nat, rn: nat, rm: nat, i: nat, j: nat): nat {
    if j < cn then terms else if j > cn then 0 else if i < rm then rn + 1 else rn
  }

  /** One step of the innermost loop adds one term to one cell. */
  lemma PartialTerm(k: ElementKind, g: seq<seq<int>>, h: seq<seq<int>>, p: nat,
                    cn: nat, rn: nat, rm: nat, i: nat, j: nat, fpu: FloatUnit)
    requires MulmBounds(k, g, h, p, cn, rn, rm) && rm > 0 && i < |g| && j < p
    requires Partial(k, g, h, p, cn, rn, rm - 1, fpu)[i][j] ==
             Dot(k, g[i], Column(h, j), Done(|h|, cn, rn, rm - 1, i, j), fpu)
    ensures Partial(k, g, h, p, cn, rn, rm, fpu)[i][j] ==
            Dot(k, g[i], Column(h, j), Done(|h|, cn, rn, rm, i, j), fpu)
  {
    if i == rm - 1 && j == cn {
      assert Column(h, j)[rn] == h[rn][j];
      assert Done(|h|, cn, rn, rm, i, j) == rn + 1;
    } else {
      assert Done(|h|, cn, rn, rm, i, j) == Done(|h|, cn, rn, rm - 1, i, j);
    }
  }

  /** Part-way through the loops, result cell (i, j) holds the first Done
      terms of its dot product. */
  lemma {:induction false} PartialCell(k: ElementKind, g: seq<seq<int>>, h: seq<seq<int>>, p: nat,
                                       cn: nat, rn: nat, rm: nat, i: nat, j: nat, fpu: FloatUnit)
    requires MulmBounds(k, g, h, p, cn, rn, rm) && i < |g| && j < p
    ensures Partial(k, g, h, p, cn, rn, rm, fpu)[i][j] ==
            Dot(k, g[i], Column(h, j), Done(|h|, cn, rn, rm, i, j), fpu)
    decreases cn, rn, rm
  {
    if rm > 0 {
      PartialCell(k, g, h, p, cn, rn, rm - 1, i, j, fpu);
      PartialTerm(k, g, h, p, cn, rn, rm, i, j, fpu);
    } else if rn > 0 {
      PartialCell(k, g, h, p, cn, rn - 1, |g|, i, j, fpu);
      assert Done(|h|, cn, rn, 0, i, j) == Done(|h|, cn, rn - 1, |g|, i, j);
    } else if cn > 0 {
      PartialCell(k, g, h, p, cn - 1, |h|, 0, i, j, fpu);
      assert Done(|h|, cn, 0, 0, i, j) == Done(|h|, cn - 1, |h|, 0, i, j);
    }
  }

  /** When the loops finish, the result is the matrix product. */
  lemma MulmDone(k: ElementKind, g: seq<seq<int>>, h: seq<seq<int>>, p: nat, cn: nat, fpu: FloatUnit)
    requires MulmBounds(k, g, h, p, cn, 0, 0) && cn == p
    ensures Partial(k, g, h, p, cn, 0, 0, fpu) == MatProduct(k, g, h, p, fpu)
  {
    var q := Partial(k, g, h, p, cn, 0, 0, fpu);
    var m := MatProduct(k, g, h, p, fpu);
    forall i, j | 0 <= i < |g| && 0 <= j < p
      ensures q[i][j] == m[i][j]
    {
      PartialCell(k, g, h, p, cn, 0, 0, i, j, fpu);
    }
    assert forall i | 0 <= i < |g| :: q[i] == m[i];
  }

  /** genericFilledMatrix after `row` complete rows and `col` cells of row
      `row`: the rows seen so far are regular and their cells are stored. */
  ghost predicate FilledProgress(values: seq<seq<Value>>, q: seq<seq<int>>, cols: nat, row: nat, col: nat) {
    IsGrid(q, |values|, cols) && row <= |values| && col <= cols &&
    (col > 0 ==> row < |values| && |values[row]| == cols) &&
    (forall i :: 0 <= i < row ==> |values[i]| == cols) &&
    (forall i, j :: 0 <= i < row && 0 <= j < cols ==> q[i][j] == values[i][j].raw) &&
    (forall j :: 0 <= j < col ==> q[row][j] == values[row][j].raw)
  }

  lemma FilledStep(values: seq<seq<Value>>, q: seq<seq<int>>, cols: nat, row: nat, col: nat)
    requires FilledProgress(values, q, cols, row, col) && row < |values| && |values[row]| == cols && col < cols
    ensures FilledProgress(values, q[row := q[row][col := values[row][col].raw]], cols, row, col + 1)
  {
  }

  lemma FilledNextRow(values: seq<seq<Value>>, q: seq<seq<int>>, cols: nat, row: nat, col: nat)
    requires FilledProgress(values, q, cols, row, col) && col == cols && row < |values| && |values[row]| == cols
    ensures FilledProgress(values, q, cols, row + 1, 0)
  {
  }

  /** After d writes, exactly the diagonal cells below d hold One. */
  lemma {:induction false} PartialIdentityCell(k: ElementKind, rows: nat, cols: nat, d: nat, i: nat, j: nat)
    requires IsElementKind(k) && d <= rows && d <= cols && i < rows && j < cols
    ensures PartialIdentity(k, rows, cols, d)[i][j] == if i == j && i < d then One(k) else Zero(k)
    decreases d
  {
    if d > 0 {
      PartialIdentityCell(k, rows, cols, d - 1, i, j);
    }
  }

  /** Once the diagonal is exhausted the unit matrix is complete. */
  lemma PartialIdentityEnds(k: ElementKind, rows: nat, cols: nat, d: nat)
    requires IsElementKind(k) && d <= rows && d <= cols && (d == rows || d == cols)
    ensures PartialIdentity(k, rows, cols, d) == Identity(k, rows, cols)
  {
    var p := PartialIdentity(k, rows, cols, d);
    var e := Identity(k, rows, cols);
    forall i, j | 0 <= i < rows && 0 <= j < cols
      ensures p[i][j] == e[i][j]
    {
      PartialIdentityCell(k, rows, cols, d, i, j);
    }
    assert forall i | 0 <= i < rows :: p[i] == e[i];
  }

  // ---------------------------------------------------------------------
  // Index computation of Get and Set.

  /** Get and Set check only the upper bounds. */
  predicate GuardAdmits(row: int, col: int, rows: int, cols: int) {
    !(row >= rows || col >= cols)
  }

  /** The flat index row*cols + col of Get and Set, in Go `int` arithmetic. */
  function WrittenOffset(row: GoInt, col: GoInt, cols: GoInt): GoInt {
    GoAdd(GoMul(row, cols), col)
  }

  /** The flat index of a cell whose row and column are both in range. */
  function CheckedOffset(row: GoInt, col: GoInt, rows: nat, cols: nat): (r: Result<nat>)
    ensures r.Ok? <==> 0 <= row < rows && 0 <= col < cols
    ensures r.Err? ==> r.error == IndexOutOfRange
    ensures r.Ok? ==> r.value < Area(rows, cols) && r.value == Offset(cols, row, col)
  {
    if 0 <= row < rows && 0 <= col < cols then
      OffsetBounds(rows, cols, row, col);
      Ok(Offset(cols, row, col))
    else Err(IndexOutOfRange)
  }

  /** On in-range indices the as-written offset is the checked one. */
  lemma WrittenOffsetInRange(row: GoInt, col: GoInt, rows: nat, cols: nat)
    requires Area(rows, cols) <= MaxInt32 && 0 <= row < rows && 0 <= col < cols
    ensures WrittenOffset(row, col, cols) == Offset(cols, row, col)
  {
    OffsetBounds(rows, cols, row, col);
    OffsetIsProduct(cols, row, col);
    OffsetIsProduct(cols, rows, 0);
    MulMonotone(row, rows, cols);
    GoMulExact(row, cols);
    GoAddExact(row * cols, col);
  }

  // ---------------------------------------------------------------------
  // The container.

  class Matrix {
    const rows: GoInt
    const cols: GoInt
    const kind: ElementKind
    const cells: array<int>

    ghost predicate Valid()
      reads cells
    {
      0 <= rows && 0 <= cols && Area(rows, cols) <= MaxInt32 && cells.Length == Area(rows, cols) &&
      IsElementKind(kind) &&
      forall i :: 0 <= i < cells.Length ==> InRange(kind, cells[i])
    }

    ghost function Grid(): (g: seq<seq<int>>)
      reads cells
      requires Valid()
      ensures IsGrid(g, rows, cols) && GridInRange(kind, g)
    {
      Reshape(cells[..], rows, cols)
    }

    /** Allocation of the zeroed backing slice (`make([]T, rows*cols)`). */
    constructor (rows: GoInt, cols: GoInt, kind: ElementKind)
      requires 0 <= rows && 0 <= cols && Area(rows, cols) <= MaxInt32 && IsElementKind(kind)
      ensures Valid() && fresh(cells)
      ensures this.rows == rows && this.cols == cols && this.kind == kind
      ensures Grid() == ZeroGrid(kind, rows, cols)
    {
      this.rows := rows;
      this.cols := cols;
      this.kind := kind;
      cells := new int[Area(rows, cols)](i => Zero(kind));
      new;
      assert forall i | 0 <= i < rows :: Grid()[i] == ZeroGrid(kind, rows, cols)[i];
    }

    function Kind(): ElementKind { kind }

    function Rows(): GoInt { rows }

    function Cols(): GoInt { cols }

    /** Get as written: only the upper bounds are checked, then the slice is
        indexed at row*cols + col, which faults outside the buffer. */
    method Get(row: GoInt, col: GoInt) returns (r: Result<Value>)
      requires Valid()
      ensures !GuardAdmits(row, col, rows, cols) ==> r == Err(IndexOutOfRange)
      ensures GuardAdmits(row, col, rows, cols) ==>
        r == if 0 <= WrittenOffset(row, col, cols) < cells.Length
             then Ok(Scalar(kind, cells[WrittenOffset(row, col, cols)]))
             else Err(IndexFault)
      ensures 0 <= row < rows && 0 <= col < cols ==> r == Ok(Scalar(kind, Grid()[row][col]))
    {
      if row >= rows || col >= cols {
        return Err(IndexOutOfRange);
      }
      if 0 <= row && 0 <= col {
        WrittenOffsetInRange(row, col, rows, cols);
      }
      var index := WrittenOffset(row, col, cols);
      if index < 0 || index >= cells.Length {
        return Err(IndexFault);
      }
      r := Ok(Scalar(kind, cells[index]));
    }

    /** Set as written: the upper bounds, then the value's kind, then the
        slice write at row*cols + col, which faults outside the buffer. */
    method Set(row: GoInt, col: GoInt, value: Value) returns (r: Outcome)
      requires Valid()
      modifies cells
      ensures Valid()
      ensures r ==
        if !GuardAdmits(row, col, rows, cols) then Fail(IndexOutOfRange)
        else if value.kind != kind then Fail(KindMismatch)
        else if !(0 <= WrittenOffset(row, col, cols) < cells.Length) then Fail(IndexFault)
        else Pass
      ensures r.Pass? ==> cells[..] == old(cells[..])[WrittenOffset(row, col, cols) := value.raw]
      ensures r.Fail? ==> cells[..] == old(cells[..])
    {
      if row >= rows || col >= cols {
        return Fail(IndexOutOfRange);
      }
      if value.kind != kind {
        return Fail(KindMismatch);
      }
      var index := WrittenOffset(row, col, cols);
      if index < 0 || index >= cells.Length {
        return Fail(IndexFault);
      }
      cells[index] := value.raw;
      r := Pass;
    }

    /** Get with both bounds checked. */
    method GetChecked(row: GoInt, col: GoInt) returns (r: Result<Value>)
      requires Valid()
      ensures r == if 0 <= row < rows && 0 <= col < cols then Ok(Scalar(kind, Grid()[row][col]))
                   else Err(IndexOutOfRange)
    {
      var index :- CheckedOffset(row, col, rows, cols);
      r := Ok(Scalar(kind, cells[index]));
    }

    /** Set with both bounds checked: it writes exactly cell (row, col). */
    method SetChecked(row: GoInt, col: GoInt, value: Value) returns (r: Outcome)
      requires Valid()
      modifies cells
      ensures Valid()
      ensures r ==
        if !(0 <= row < rows && 0 <= col < cols) then Fail(IndexOutOfRange)
        else if value.kind != kind then Fail(KindMismatch)
        else Pass
      ensures r.Pass? ==> Grid() == old(Grid())[row := old(Grid())[row][col := value.raw]]
      ensures r.Fail? ==> cells[..] == old(cells[..])
    {
      var offset := CheckedOffset(row, col, rows, cols);
      if offset.Err? {
        return Fail(IndexOutOfRange);
      }
      if value.kind != kind {
        return Fail(KindMismatch);
      }
      var index := offset.value;
      ReshapeUpdate(cells[..], rows, cols, row, col, value.raw);
      cells[index] := value.raw;
      r := Pass;
    }

    /** The matrix-vector product into a fresh vector of length rows.  The
        kinds are checked before the shapes.  Neither operand changes. */
    method Mulv(v: Vector, fpu: FloatUnit) returns (r: Result<Vector>)
      requires Valid() && v.Valid()
      ensures v.kind != kind ==> r == Err(KindMismatch)
      ensures v.kind == kind && v.dimension != cols ==> r == Err(DimensionMismatch)
      ensures v.kind == kind && v.dimension == cols ==>
        r.Ok? && fresh(r.value.cells) && r.value.Valid() && r.value.kind == kind &&
        r.value.cells[..] == Product(kind, Grid(), v.cells[..], fpu)
    {
      if Kind() != v.Kind() {
        return Err(KindMismatch);
      }
      if Cols() != v.Len() {
        return Err(DimensionMismatch);
      }
      ghost var g := Grid();
      ghost var x := v.cells[..];
      var zero := ZeroVector(rows, kind);
      var res := zero.value;
      var row := 0;
      while row < Rows()
        invariant 0 <= row <= rows
        invariant fresh(res.cells)
        invariant MulvAt(res, kind, g, x, row, 0, fpu)
      {
        MulvRow(v, res, g, x, row, fpu);
        row := row + 1;
      }
      MulvDone(kind, g, x, row, fpu);
      r := Ok(res);
    }

    /** The inner loop of Mulv: all terms of entry `row`. */
    method MulvRow(v: Vector, res: Vector, ghost g: seq<seq<int>>, ghost x: seq<int>, row: GoInt, fpu: FloatUnit)
      requires Valid() && v.Valid() && g == Grid() && x == v.cells[..] && v.kind == kind && v.dimension == cols
      requires res.cells != cells && res.cells != v.cells
      requires 0 <= row < rows && MulvAt(res, kind, g, x, row, 0, fpu)
      modifies res.cells
      ensures MulvAt(res, kind, g, x, row + 1, 0, fpu)
    {
      var col := 0;
      while col < Cols()
        invariant 0 <= col <= cols
        invariant MulvAt(res, kind, g, x, row, col, fpu)
      {
        MulvAddTerm(v, res, g, x, row, col, fpu);
        col := col + 1;
      }
      MulvNextRow(kind, g, x, row, col, fpu);
    }

    /** The body of Mulv's inner loop: term col of entry row. */
    method MulvAddTerm(v: Vector, res: Vector, ghost g: seq<seq<int>>, ghost x: seq<int>,
                       row: GoInt, col: GoInt, fpu: FloatUnit)
      requires Valid() && v.Valid() && g == Grid() && x == v.cells[..] && v.kind == kind && v.dimension == cols
      requires 0 <= row < rows && 0 <= col < cols && MulvAt(res, kind, g, x, row, col, fpu)
      modifies res.cells
      ensures MulvAt(res, kind, g, x, row, col + 1, fpu)
    {
      AreaBounds(rows, cols);
      var acc := res.Get(row);
      var a := GetChecked(row, col);
      var b := v.Get(col);
      var sum := Scalars.Add(kind, acc.value.raw, Mul(kind, a.value.raw, b.value.raw, fpu), fpu);
      var written := res.Set(row, Scalar(kind, sum));
    }

    /** The matrix-matrix product into a fresh rows x n.cols matrix.  The
        kinds are checked before the shapes; the result is allocated by
        genericZeroMatrix, which can fail. */
    method Mulm(n: Matrix, fpu: FloatUnit) returns (r: Result<Matrix>)
      requires Valid() && n.Valid()
      ensures n.kind != kind ==> r == Err(KindMismatch)
      ensures n.kind == kind && n.rows != cols ==> r == Err(DimensionMismatch)
      ensures n.kind == kind && n.rows == cols && Allocation(rows, n.cols, kind).Fail? ==>
        r == Err(Allocation(rows, n.cols, kind).error)
      ensures n.kind == kind && n.rows == cols && Allocation(rows, n.cols, kind).Pass? ==>
        r.Ok? && fresh(r.value) && fresh(r.value.cells) && r.value.Valid() && r.value.kind == kind &&
        r.value.rows == rows && r.value.cols == n.cols &&
        r.value.Grid() == MatProduct(kind, Grid(), n.Grid(), n.cols, fpu)
    {
      if Kind() != n.Kind() {
        return Err(KindMismatch);
      }
      if Cols() != n.Rows() {
        return Err(DimensionMismatch);
      }
      var res :- ZeroMatrix(Rows(), n.Cols(), Kind());
      Accumulate(n, res, fpu);
      r := Ok(res);
    }

    /** This matrix is the result of Mulm(g, h) part-way through its loops. */
    ghost predicate Accumulated(g: seq<seq<int>>, h: seq<seq<int>>, p: nat, cn: nat, rn: nat, rm: nat, fpu: FloatUnit)
      reads cells
    {
      Valid() && MulmBounds(kind, g, h, p, cn, rn, rm) && |g| == rows && p == cols &&
      Grid() == Partial(kind, g, h, p, cn, rn, rm, fpu)
    }

    /** The outer loop of Mulm, adding this · n into the zeroed result.  The
        loops run over the columns of n, then its rows, then the rows of this
        matrix, so every result cell adds its terms in increasing k. */
    method Accumulate(n: Matrix, res: Matrix, fpu: FloatUnit)
      requires Valid() && n.Valid() && res.Valid() && n.kind == kind && res.kind == kind
      requires n.rows == cols && res.rows == rows && res.cols == n.cols
      requires res.cells != cells && res.cells != n.cells
      requires res.Grid() == ZeroGrid(kind, rows, n.cols)
      modifies res.cells
      ensures res.Valid()
      ensures res.Grid() == MatProduct(kind, Grid(), n.Grid(), n.cols, fpu)
    {
      ghost var g := Grid();
      ghost var h := n.Grid();
      var cn := 0;
      while cn < n.Cols()
        invariant 0 <= cn <= n.cols
        invariant res.Accumulated(g, h, n.cols, cn, 0, 0, fpu)
      {
        AccumulateColumn(n, res, g, h, cn, fpu);
        cn := cn + 1;
      }
      MulmDone(kind, g, h, n.cols, cn, fpu);
    }

    /** The middle loop of Mulm: every term k of result column cn. */
    method AccumulateColumn(n: Matrix, res: Matrix, ghost g: seq<seq<int>>, ghost h: seq<seq<int>>,
                            cn: GoInt, fpu: FloatUnit)
      requires Valid() && n.Valid() && g == Grid() && h == n.Grid() && n.kind == kind && res.kind == kind
      requires n.rows == cols && res.rows == rows && res.cols == n.cols
      requires res.cells != cells && res.cells != n.cells
      requires 0 <= cn < n.cols
      requires res.Accumulated(g, h, n.cols, cn, 0, 0, fpu)
      modifies res.cells
      ensures res.Accumulated(g, h, n.cols, cn + 1, 0, 0, fpu)
    {
      var rn := 0;
      while rn < n.Rows()
        invariant 0 <= rn <= cols
        invariant res.Accumulated(g, h, n.cols, cn, rn, 0, fpu)
      {
        AccumulateTerm(n, res, g, h, rn, cn, fpu);
        rn := rn + 1;
      }
      MulmNextColumn(kind, g, h, n.cols, cn, rn, fpu);
    }

    /** The inner loop of Mulm: term rn of every cell of result column cn. */
    method AccumulateTerm(n: Matrix, res: Matrix, ghost g: seq<seq<int>>, ghost h: seq<seq<int>>,
                          rn: GoInt, cn: GoInt, fpu: FloatUnit)
      requires Valid() && n.Valid() && g == Grid() && h == n.Grid() && n.kind == kind && res.kind == kind
      requires n.rows == cols && res.rows == rows && res.cols == n.cols
      requires res.cells != cells && res.cells != n.cells
      requires 0 <= rn < cols && 0 <= cn < n.cols
      requires res.Accumulated(g, h, n.cols, cn, rn, 0, fpu)
      modifies res.cells
      ensures res.Accumulated(g, h, n.cols, cn, rn + 1, 0, fpu)
    {
      var rm := 0;
      while rm < Rows()
        invariant 0 <= rm <= rows
        invariant res.Accumulated(g, h, n.cols, cn, rn, rm, fpu)
      {
        AddTerm(n, res, g, h, rm, rn, cn, fpu);
        rm := rm + 1;
      }
      MulmNextRow(kind, g, h, n.cols, cn, rn, rm, fpu);
    }

    /** The body of Mulm's innermost loop: term rn of cell (rm, cn). */
    method AddTerm(n: Matrix, res: Matrix, ghost g: seq<seq<int>>, ghost h: seq<seq<int>>,
                   rm: GoInt, rn: GoInt, cn: GoInt, fpu: FloatUnit)
      requires Valid() && n.Valid() && g == Grid() && h == n.Grid() && n.kind == kind && res.kind == kind
      requires n.rows == cols && res.rows == rows && res.cols == n.cols
      requires 0 <= rm < rows && 0 <= rn < cols && 0 <= cn < n.cols
      requires res.Accumulated(g, h, n.cols, cn, rn, rm, fpu)
      modifies res.cells
      ensures res.Accumulated(g, h, n.cols, cn, rn, rm + 1, fpu)
    {
      var acc := res.GetChecked(rm, cn);
      var a := GetChecked(rm, rn);
      var b := n.GetChecked(rn, cn);
      var sum := Scalars.Add(kind, acc.value.raw, Mul(kind, a.value.raw, b.value.raw, fpu), fpu);
      var written := res.SetChecked(rm, cn, Scalar(kind, sum));
    }

    /** Cell-wise equality with an early exit, in row-major order.  Kinds are
        checked before the shapes. */
    method Equal(n: Matrix) returns (r: Result<bool>)
      requires Valid() && n.Valid()
      ensures r ==
        if n.kind != kind then Err(KindMismatch)
        else if n.rows != rows || n.cols != cols then Err(DimensionMismatch)
        else Ok(GridEqual(kind, Grid(), n.Grid(), rows, cols))
    {
      if n.Kind() != Kind() {
        return Err(KindMismatch);
      }
      if n.Rows() != Rows() || n.Cols() != Cols() {
        return Err(DimensionMismatch);
      }
      ghost var g := Grid();
      ghost var h := n.Grid();
      var equal := true;
      var row := 0;
      while row < Rows() && equal
        invariant 0 <= row <= rows
        invariant equal == GridEqualBefore(kind, g, h, rows, cols, row, 0)
      {
        var col := 0;
        while col < Cols() && equal
          invariant 0 <= col <= cols
          invariant equal == GridEqualBefore(kind, g, h, rows, cols, row, col)
        {
          var a := GetChecked(row, col);
          var b := n.GetChecked(row, col);
          equal := Eq(kind, a.value.raw, b.value.raw);
          col := col + 1;
        }
        row := row + 1;
      }
      r := Ok(equal);
    }
  }

  // ---------------------------------------------------------------------
  // Constructors.

  /** genericZeroMatrix: rows*cols zero cells of the kind. */
  method ZeroMatrix(rows: GoInt, cols: GoInt, kind: ElementKind) returns (r: Result<Matrix>)
    ensures r.Err? <==> Allocation(rows, cols, kind).Fail?
    ensures r.Err? ==> Allocation(rows, cols, kind) == Fail(r.error)
    ensures r.Ok? ==>
      fresh(r.value) && fresh(r.value.cells) && r.value.Valid() &&
      r.value.rows == rows && r.value.cols == cols && r.value.kind == kind &&
      r.value.Grid() == ZeroGrid(kind, rows, cols)
  {
    if GoMul(rows, cols) > MaxInt32 {
      return Err(SizeOverflow);
    }
    if !IsElementKind(kind) {
      return Err(InvalidKind);
    }
    if GoMul(rows, cols) < 0 || rows < 0 || cols < 0 {
      return Err(NegativeLength);
    }
    if Area(rows, cols) > MaxInt32 {
      return Err(SizeOverflow);
    }
    var m := new Matrix(rows, cols, kind);
    r := Ok(m);
  }

  /** genericUnitMatrix: a zero matrix whose first min(rows, cols) diagonal
      cells are set to the kind's one. */
  method UnitMatrix(rows: GoInt, cols: GoInt, kind: ElementKind) returns (r: Result<Matrix>)
    ensures r.Err? <==> Allocation(rows, cols, kind).Fail?
    ensures r.Err? ==> Allocation(rows, cols, kind) == Fail(r.error)
    ensures r.Ok? ==>
      fresh(r.value) && fresh(r.value.cells) && r.value.Valid() &&
      r.value.rows == rows && r.value.cols == cols && r.value.kind == kind &&
      r.value.Grid() == Identity(kind, rows, cols)
  {
    var m :- ZeroMatrix(rows, cols, kind);
    WriteDiagonal(m);
    r := Ok(m);
  }

  /** The loop of genericUnitMatrix: cell (i, i) := One for i < min(rows, cols). */
  method WriteDiagonal(m: Matrix)
    requires m.Valid() && m.Grid() == ZeroGrid(m.kind, m.rows, m.cols)
    modifies m.cells
    ensures m.Valid() && m.Grid() == Identity(m.kind, m.rows, m.cols)
  {
    var one := Scalar(m.kind, One(m.kind));
    var i := 0;
    while i < m.Rows() && i < m.Cols()
      invariant 0 <= i && i <= m.rows && i <= m.cols
      invariant m.Valid() && m.Grid() == PartialIdentity(m.kind, m.rows, m.cols, i)
    {
      var written := m.SetChecked(i, i, one);
      i := i + 1;
    }
    PartialIdentityEnds(m.kind, m.rows, m.cols, i);
  }

  /** genericFilledMatrix: the shape comes from the first row, the kind from
      its first value; each row is checked for its length and each value is
      stored through Set, which rejects a value of another kind. */
  method FilledMatrix(values: seq<seq<Value>>) returns (r: Result<Matrix>)
    requires |values| <= MaxInt64 && (|values| > 0 ==> |values[0]| <= MaxInt64)
    ensures |values| == 0 || |values[0]| == 0 ==> r == Err(EmptyInput)
    ensures |values| > 0 && |values[0]| > 0 ==>
      var alloc := Allocation(|values|, |values[0]|, values[0][0].kind);
      var scan := Scan(values, |values[0]|, values[0][0].kind, 0);
      (alloc.Fail? ==> r == Err(alloc.error)) &&
      (alloc.Pass? && scan.Fail? ==> r == Err(scan.error)) &&
      (alloc.Pass? && scan.Pass? ==> r.Ok?)
    ensures r.Ok? ==>
      fresh(r.value.cells) && r.value.Valid() &&
      r.value.rows == |values| && r.value.cols == |values[0]| && r.value.kind == values[0][0].kind &&
      forall i, j :: 0 <= i < |values| && 0 <= j < |values[0]| ==>
        |values[i]| == |values[0]| && r.value.Grid()[i][j] == values[i][j].raw
  {
    if |values| == 0 || |values[0]| == 0 {
      return Err(EmptyInput);
    }
    var rows := |values|;
    var cols := |values[0]|;
    var kind := values[0][0].kind;
    var m :- ZeroMatrix(rows, cols, kind);
    var row := 0;
    while row < rows
      invariant 0 <= row <= rows
      invariant fresh(m.cells) && m.Valid() && m.rows == rows && m.cols == cols && m.kind == kind
      invariant Scan(values, cols, kind, 0) == Scan(values, cols, kind, row)
      invariant FilledProgress(values, m.Grid(), cols, row, 0)
    {
      if |values[row]| != cols {
        return Err(IrregularInput);
      }
      var col := 0;
      while col < cols
        invariant 0 <= col <= cols
        invariant fresh(m.cells) && m.Valid() && m.rows == rows && m.cols == cols && m.kind == kind
        invariant forall j :: 0 <= j < col ==> values[row][j].kind == kind
        invariant FilledProgress(values, m.Grid(), cols, row, col)
      {
        ghost var before := m.Grid();
        var written := m.SetChecked(row, col, values[row][col]);
        if written.Fail? {
          return Err(written.error);
        }
        FilledStep(values, before, cols, row, col);
        col := col + 1;
      }
      FilledNextRow(values, m.Grid(), cols, row, col);
      row := row + 1;
    }
    r := Ok(m);
  }

  // ---------------------------------------------------------------------
  // Properties.

  /** genericZeroMatrix succeeds exactly on non-negative dimensions whose
      product fits in MaxInt32, for the twelve element kinds. */
  lemma AllocationSucceedsIff(rows: GoInt, cols: GoInt, kind: ElementKind)
    ensures Allocation(rows, cols, kind).Pass? <==>
      0 <= rows && 0 <= cols && Area(rows, cols) <= MaxInt32 && IsElementKind(kind)
  {
    if 0 <= rows && 0 <= cols {
      OffsetIsProduct(cols, rows, 0);
      if Area(rows, cols) <= MaxInt32 {
        GoMulExact(rows, cols);
      }
    }
  }

  /** The row checks pass exactly when every row has `cols` values of the
      kind. */
  lemma {:induction false} ScanPassesIff(values: seq<seq<Value>>, cols: nat, kind: ElementKind, from: nat)
    requires from <= |values|
    ensures Scan(values, cols, kind, from).Pass? <==>
      forall i :: from <= i < |values| ==>
        |values[i]| == cols && forall c :: 0 <= c < cols ==> values[i][c].kind == kind
    decreases |values| - from
  {
    if from < |values| {
      ScanPassesIff(values, cols, kind, from + 1);
    }
  }

  /** Mulm's operands commute inside each term on the integer kinds. */
  lemma {:induction false} DotCommutes(k: ElementKind, a: seq<int>, b: seq<int>, n: nat, fpu: FloatUnit)
    requires IsInteger(k) && n <= |a| && n <= |b|
    ensures Dot(k, a, b, n, fpu) == Dot(k, b, a, n, fpu)
  {
    if n > 0 {
      DotCommutes(k, a, b, n - 1, fpu);
      MulCommutes(k, a[n - 1], b[n - 1], fpu);
    }
  }

  /** Multiplying by a selector (One at j, Zero elsewhere) picks entry j. */
  lemma {:induction false} DotSelects(k: ElementKind, a: seq<int>, b: seq<int>, n: nat, j: nat, fpu: FloatUnit)
    requires IsInteger(k) && n <= |a| && n <= |b|
    requires forall i :: 0 <= i < n ==> InRange(k, a[i])
    requires forall i :: 0 <= i < n ==> b[i] == if i == j then One(k) else Zero(k)
    ensures Dot(k, a, b, n, fpu) == if j < n then a[j] else Zero(k)
  {
    if n > 0 {
      DotSelects(k, a, b, n - 1, j, fpu);
      var d := Dot(k, a, b, n - 1, fpu);
      if n - 1 == j {
        MulOne(k, a[j], fpu);
        AddZeroLeft(k, a[j], fpu);
      } else {
        MulZero(k, a[n - 1], fpu);
        AddZeroRight(k, d, fpu);
      }
    }
  }

  /** identity · v == v, for the integer kinds. */
  lemma ProductWithIdentity(k: ElementKind, x: seq<int>, fpu: FloatUnit)
    requires IsInteger(k) && AllInRange(k, x)
    ensures Product(k, Identity(k, |x|, |x|), x, fpu) == x
  {
    var e := Identity(k, |x|, |x|);
    forall i | 0 <= i < |x|
      ensures Product(k, e, x, fpu)[i] == x[i]
    {
      DotCommutes(k, e[i], x, |x|, fpu);
      DotSelects(k, x, e[i], |x|, i, fpu);
    }
  }

  /** I · N == N, for the integer kinds. */
  lemma IdentityTimesMatrix(k: ElementKind, h: seq<seq<int>>, p: nat, fpu: FloatUnit)
    requires IsInteger(k) && IsGrid(h, |h|, p) && GridInRange(k, h)
    ensures MatProduct(k, Identity(k, |h|, |h|), h, p, fpu) == h
  {
    var e := Identity(k, |h|, |h|);
    var q := MatProduct(k, e, h, p, fpu);
    forall i, j | 0 <= i < |h| && 0 <= j < p
      ensures q[i][j] == h[i][j]
    {
      var column := Column(h, j);
      DotCommutes(k, e[i], column, |h|, fpu);
      DotSelects(k, column, e[i], |h|, i, fpu);
    }
    assert forall i | 0 <= i < |h| :: q[i] == h[i];
  }

  /** M · I == M, for the integer kinds. */
  lemma MatrixTimesIdentity(k: ElementKind, g: seq<seq<int>>, n: nat, fpu: FloatUnit)
    requires IsInteger(k) && IsGrid(g, |g|, n) && GridInRange(k, g)
    ensures MatProduct(k, g, Identity(k, n, n), n, fpu) == g
  {
    var e := Identity(k, n, n);
    var q := MatProduct(k, g, e, n, fpu);
    forall i, j | 0 <= i < |g| && 0 <= j < n
      ensures q[i][j] == g[i][j]
    {
      DotSelects(k, g[i], Column(e, j), n, j, fpu);
    }
    assert forall i | 0 <= i < |g| :: q[i] == g[i];
  }

  /** [[1,0,0],[1,0,0],[1,0,0]] · [1,2,3] == [1,1,1]. */
  lemma SelectionExample(fpu: FloatUnit)
    ensures Product(Int, [[1, 0, 0], [1, 0, 0], [1, 0, 0]], [1, 2, 3], fpu) == [1, 1, 1]
  {
    var row := [1, 0, 0];
    var x := [1, 2, 3];
    assert Dot(Int, row, x, 1, fpu) == 1;
    assert Dot(Int, row, x, 2, fpu) == 1;
    assert Dot(Int, row, x, 3, fpu) == 1;
  }

  /** [[1,0,1],[0,1,1]] · [1,2,3] == [4,5]. */
  lemma ProjectionExample(fpu: FloatUnit)
    ensures Product(Int, [[1, 0, 1], [0, 1, 1]], [1, 2, 3], fpu) == [4, 5]
  {
    var x := [1, 2, 3];
    assert Dot(Int, [1, 0, 1], x, 1, fpu) == 1;
    assert Dot(Int, [1, 0, 1], x, 2, fpu) == 1;
    assert Dot(Int, [1, 0, 1], x, 3, fpu) == 4;
    assert Dot(Int, [0, 1, 1], x, 1, fpu) == 0;
    assert Dot(Int, [0, 1, 1], x, 2, fpu) == 2;
    assert Dot(Int, [0, 1, 1], x, 3, fpu) == 5;
  }

  /** On the integer kinds Equal is plain equality of the grids. */
  lemma GridEqualIsIdentityOnIntegers(k: ElementKind, g: seq<seq<int>>, h: seq<seq<int>>, rows: nat, cols: nat)
    requires IsInteger(k) && IsGrid(g, rows, cols) && IsGrid(h, rows, cols)
    ensures GridEqual(k, g, h, rows, cols) <==> g == h
  {
    if GridEqual(k, g, h, rows, cols) {
      forall i | 0 <= i < rows ensures g[i] == h[i] {
        forall j | 0 <= j < cols ensures g[i][j] == h[i][j] {
          assert Eq(k, g[i][j], h[i][j]);
        }
      }
    }
  }

  /** A negative column passes the bounds check of Get and Set and addresses
      a cell of the previous row: (row, col) with -cols <= col < 0 is the
      cell (row - 1, col + cols). */
  lemma NegativeColumnAddressesPreviousRow(row: GoInt, col: GoInt, rows: nat, cols: nat)
    requires Area(rows, cols) <= MaxInt32 && 0 < row < rows && col < 0 && 0 <= col + cols
    ensures GuardAdmits(row, col, rows, cols)
    ensures WrittenOffset(row, col, cols) == Offset(cols, row - 1, col + cols)
    ensures CheckedOffset(row, col, rows, cols) == Err(IndexOutOfRange)
  {
    OffsetIsProduct(cols, rows, 0);
    OffsetIsProduct(cols, row - 1, col + cols);
    MulMonotone(row, rows, cols);
    GoMulExact(row, cols);
    GoAddExact(row * cols, col);
    assert (row - 1) * cols == row * cols - cols;
  }

  /** Get(1, -1) on a 2 x 3 matrix reads cell (0, 2) instead of failing. */
  lemma NegativeColumnExample()
    ensures GuardAdmits(1, -1, 2, 3) && WrittenOffset(1, -1, 3) == Offset(3, 0, 2)
    ensures CheckedOffset(1, -1, 2, 3) == Err(IndexOutOfRange)
  {
    NegativeColumnAddressesPreviousRow(1, -1, 2, 3);
  }

  /** The checked offset maps the cells one-to-one onto the buffer. */
  lemma CheckedOffsetIsOneToOne(r1: GoInt, c1: GoInt, r2: GoInt, c2: GoInt, rows: nat, cols: nat)
    requires CheckedOffset(r1, c1, rows, cols).Ok? && CheckedOffset(r2, c2, rows, cols).Ok?
    requires CheckedOffset(r1, c1, rows, cols) == CheckedOffset(r2, c2, rows, cols)
    ensures r1 == r2 && c1 == c2
  {
    OffsetInjective(cols, r1, c1, r2, c2);
  }
}
