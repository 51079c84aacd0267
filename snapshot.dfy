/** The older matrix of number/matrix/matrix.go: the same row-major,
    kind-tagged layout as genericMatrix.go, but with `uint` dimensions and
    indices, and with the two complex kinds among the storage types.

    Every `uint` computation of the Go code wraps modulo 2^64, and the
    conversion `int(...)` of an index reinterprets the 64 bits as a signed
    value; both are written out here.  Because the size check itself is a
    wrapped product, the length of the backing slice is the product modulo
    2^64, which is not always rows*cols. */
module Snapshot {
  import opened Faults
  import opened Scalars
  import opened Matrices

  /** A value of Go's `uint` (64 bits). */
  type GoUint = x: int | 0 <= x < 0x1_0000_0000_0000_0000

  /** `uint` multiplication, modulo 2^64. */
  function UintMul(a: GoUint, b: GoUint): GoUint { Wrap(Uint, Times(a, b)) }

  /** `uint` addition, modulo 2^64. */
  function UintAdd(a: GoUint, b: GoUint): GoUint { Wrap(Uint, a + b) }

  /** The conversion `int(x)` of a `uint`: the same 64 bits, read as signed. */
  function ToInt(x: GoUint): GoInt { Wrap(Int, x) }

  /** The storage types NewMatrix can allocate: the twelve element kinds and
      complex64 / complex128 (a cell holds the bit patterns of both parts). */
  predicate IsStorageKind(k: ElementKind) {
    IsElementKind(k) || k.Complex64? || k.Complex128?
  }

  /** The checks NewMatrix makes, as written: the wrapped product against
      MaxInt64, then the kind. */
  function Creation(rows: GoUint, cols: GoUint, kind: ElementKind): Outcome {
    if UintMul(rows, cols) > MaxInt64 then Fail(SizeOverflow)
    else if !IsStorageKind(kind) then Fail(InvalidKind)
    else Pass
  }

  /** The checks NewMatrix evidently intends: the true product against
      MaxInt64, then the kind. */
  function CheckedCreation(rows: GoUint, cols: GoUint, kind: ElementKind): Outcome {
    if Area(rows, cols) > MaxInt64 then Fail(SizeOverflow)
    else if !IsStorageKind(kind) then Fail(InvalidKind)
    else Pass
  }

  /** Where Get and Set look for cell (row, col) in a slice of `length`
      cells: the upper-bound check, then the wrapped index, which faults
      when it is negative as an `int` or beyond the slice. */
  function Access(row: GoUint, col: GoUint, rows: GoUint, cols: GoUint, length: nat): Result<nat> {
    if row >= rows || col >= cols then Err(IndexOutOfRange)
    else
      var index := ToInt(UintAdd(UintMul(row, cols), col));
      if index < 0 || index >= length then Err(IndexFault) else Ok(index)
  }

  /** While the true product fits, the wrapped product is the true one. */
  lemma ProductAgrees(rows: GoUint, cols: GoUint)
    requires Area(rows, cols) <= MaxInt64
    ensures UintMul(rows, cols) == Area(rows, cols)
  {
    TimesIsProduct(rows, cols);
    OffsetIsProduct(cols, rows, 0);
    WrapIdentity(Uint, rows * cols);
  }

  /** Without wrap-around the written and the intended checks agree. */
  lemma CreationsAgree(rows: GoUint, cols: GoUint, kind: ElementKind)
    requires Area(rows, cols) <= MaxInt64
    ensures Creation(rows, cols, kind) == CheckedCreation(rows, cols, kind)
  {
    ProductAgrees(rows, cols);
  }

  /** Everything the intended check admits, the written one admits too. */
  lemma CheckedCreationIsStricter(rows: GoUint, cols: GoUint, kind: ElementKind)
    requires CheckedCreation(rows, cols, kind).Pass?
    ensures Creation(rows, cols, kind).Pass?
  {
    ProductAgrees(rows, cols);
  }

  /** In a slice of exactly rows*cols cells, an in-range cell is found at its
      row-major offset, and never faults. */
  lemma AccessExact(row: GoUint, col: GoUint, rows: GoUint, cols: GoUint)
    requires Area(rows, cols) <= MaxInt64 && row < rows && col < cols
    ensures Access(row, col, rows, cols, Area(rows, cols)) == Ok(Offset(cols, row, col))
  {
    OffsetBounds(rows, cols, row, col);
    OffsetIsProduct(cols, row, col);
    TimesIsProduct(row, cols);
    assert row * cols <= Offset(cols, row, col);
    WrapIdentity(Uint, row * cols);
    WrapIdentity(Uint, row * cols + col);
    WrapIdentity(Int, row * cols + col);
  }

  /** In such a slice, distinct cells never share a slot. */
  lemma AccessInjective(row: GoUint, col: GoUint, row2: GoUint, col2: GoUint, rows: GoUint, cols: GoUint)
    requires Area(rows, cols) <= MaxInt64
    requires Access(row, col, rows, cols, Area(rows, cols)).Ok?
    requires Access(row2, col2, rows, cols, Area(rows, cols)) == Access(row, col, rows, cols, Area(rows, cols))
    ensures row == row2 && col == col2
  {
    AccessExact(row, col, rows, cols);
    AccessExact(row2, col2, rows, cols);
    OffsetInjective(cols, row, col, row2, col2);
  }

  /** NewMatrix(2^32, 2^32, Int): the product wraps to 0, the check passes
      and the slice is empty, so Get(0, 0), which passes its own bounds
      check, faults.  The intended check rejects the size. */
  lemma WrappedSizeAdmitted()
    ensures UintMul(0x1_0000_0000, 0x1_0000_0000) == 0
    ensures Creation(0x1_0000_0000, 0x1_0000_0000, Int) == Pass
    ensures Access(0, 0, 0x1_0000_0000, 0x1_0000_0000, 0) == Err(IndexFault)
    ensures CheckedCreation(0x1_0000_0000, 0x1_0000_0000, Int) == Fail(SizeOverflow)
  {
    TimesIsProduct(0x1_0000_0000, 0x1_0000_0000);
    TimesIsProduct(0, 0x1_0000_0000);
    OffsetIsProduct(0x1_0000_0000, 0x1_0000_0000, 0);
  }

  /** NewMatrix(2^32 + 1, 2^32, Int) allocates only 2^32 cells, and the
      wrapped index of cell (2^32, 0) is 0: it aliases cell (0, 0). */
  lemma WrappedIndexAliases()
    ensures UintMul(0x1_0000_0001, 0x1_0000_0000) == 0x1_0000_0000
    ensures Creation(0x1_0000_0001, 0x1_0000_0000, Int) == Pass
    ensures Access(0x1_0000_0000, 0, 0x1_0000_0001, 0x1_0000_0000, 0x1_0000_0000) == Ok(0)
    ensures Access(0, 0, 0x1_0000_0001, 0x1_0000_0000, 0x1_0000_0000) == Ok(0)
  {
    TimesIsProduct(0x1_0000_0001, 0x1_0000_0000);
    TimesIsProduct(0x1_0000_0000, 0x1_0000_0000);
    TimesIsProduct(0, 0x1_0000_0000);
  }

  /** matrix.go's genericMatrix.  `cells` is the shared backing slice; its
      length is the wrapped product of the dimensions. */
  class Matrix {
    const rows: GoUint
    const cols: GoUint
    const kind: ElementKind
    const cells: array<int>

    ghost predicate Valid()
      reads cells
    {
      UintMul(rows, cols) <= MaxInt64 && cells.Length == UintMul(rows, cols) &&
      IsStorageKind(kind) &&
      forall i :: 0 <= i < cells.Length ==> InRange(kind, cells[i])
    }

    /** The dimensions did not wrap: the slice holds exactly rows*cols cells. */
    predicate Exact() {
      Area(rows, cols) <= MaxInt64
    }

    ghost function Grid(): (g: seq<seq<int>>)
      reads cells
      requires Valid() && Exact()
      ensures IsGrid(g, rows, cols)
    {
      ProductAgrees(rows, cols);
      Reshape(cells[..], rows, cols)
    }

    /** Allocation of the zeroed backing slice (`make([]T, rows*cols)`). */
    constructor (rows: GoUint, cols: GoUint, kind: ElementKind)
      requires UintMul(rows, cols) <= MaxInt64 && IsStorageKind(kind)
      ensures Valid() && fresh(cells)
      ensures this.rows == rows && this.cols == cols && this.kind == kind
      ensures forall i :: 0 <= i < cells.Length ==> cells[i] == Zero(kind)
    {
      this.rows := rows;
      this.cols := cols;
      this.kind := kind;
      cells := new int[UintMul(rows, cols)](i => Zero(kind));
    }

    function Rows(): GoUint { rows }

    function Cols(): GoUint { cols }

    /** Get: the upper bounds, then the cell at the wrapped index. */
    method Get(row: GoUint, col: GoUint) returns (r: Result<Value>)
      requires Valid()
      ensures r.Err? <==> Access(row, col, rows, cols, cells.Length).Err?
      ensures r.Err? ==> r.error == Access(row, col, rows, cols, cells.Length).error
      ensures r.Ok? ==> r.value == Scalar(kind, cells[Access(row, col, rows, cols, cells.Length).value])
      ensures Exact() && row < rows && col < cols ==> r == Ok(Scalar(kind, Grid()[row][col]))
    {
      if row >= rows || col >= cols {
        return Err(IndexOutOfRange);
      }
      if Exact() {
        ProductAgrees(rows, cols);
        AccessExact(row, col, rows, cols);
      }
      var index := ToInt(UintAdd(UintMul(row, cols), col));
      if index < 0 || index >= cells.Length {
        return Err(IndexFault);
      }
      r := Ok(Scalar(kind, cells[index]));
    }

    /** Set: the upper bounds, then the value's type against that of cell 0
        (which faults on an empty slice), then the write at the wrapped
        index. */
    method Set(row: GoUint, col: GoUint, value: Value) returns (r: Outcome)
      requires Valid()
      modifies cells
      ensures Valid()
      ensures r ==
        if row >= rows || col >= cols then Fail(IndexOutOfRange)
        else if cells.Length == 0 then Fail(IndexFault)
        else if value.kind != kind then Fail(KindMismatch)
        else if Access(row, col, rows, cols, cells.Length).Err? then Fail(IndexFault)
        else Pass
      ensures r.Pass? ==>
        cells[..] == old(cells[..])[Access(row, col, rows, cols, cells.Length).value := value.raw]
      ensures r.Fail? ==> cells[..] == old(cells[..])
      ensures r.Pass? && Exact() ==> Grid() == old(Grid())[row := old(Grid())[row][col := value.raw]]
    {
      if row >= rows || col >= cols {
        return Fail(IndexOutOfRange);
      }
      if cells.Length == 0 {
        return Fail(IndexFault);
      }
      if value.kind != kind {
        return Fail(KindMismatch);
      }
      var index := ToInt(UintAdd(UintMul(row, cols), col));
      if index < 0 || index >= cells.Length {
        return Fail(IndexFault);
      }
      if Exact() {
        ProductAgrees(rows, cols);
        AccessExact(row, col, rows, cols);
        ReshapeUpdate(cells[..], rows, cols, row, col, value.raw);
      }
      cells[index] := value.raw;
      r := Pass;
    }
  }

  /** NewMatrix as written: the wrapped size check, the kind switch, then a
      zeroed slice of the wrapped length. */
  method NewMatrix(rows: GoUint, cols: GoUint, kind: ElementKind) returns (r: Result<Matrix>)
    ensures r.Err? <==> Creation(rows, cols, kind).Fail?
    ensures r.Err? ==> Creation(rows, cols, kind) == Fail(r.error)
    ensures r.Ok? ==>
      fresh(r.value) && fresh(r.value.cells) && r.value.Valid() &&
      r.value.rows == rows && r.value.cols == cols && r.value.kind == kind &&
      r.value.cells.Length == UintMul(rows, cols) &&
      forall i :: 0 <= i < r.value.cells.Length ==> r.value.cells[i] == Zero(kind)
  {
    if UintMul(rows, cols) > MaxInt64 {
      return Err(SizeOverflow);
    }
    if !IsStorageKind(kind) {
      return Err(InvalidKind);
    }
    var m := new Matrix(rows, cols, kind);
    r := Ok(m);
  }

  /** NewMatrix with the size check it intends: the matrix it returns has
      exactly rows*cols cells, all of them zero, and every in-range Get and
      Set on it reaches its own cell. */
  method NewMatrixChecked(rows: GoUint, cols: GoUint, kind: ElementKind) returns (r: Result<Matrix>)
    ensures r.Err? <==> CheckedCreation(rows, cols, kind).Fail?
    ensures r.Err? ==> CheckedCreation(rows, cols, kind) == Fail(r.error)
    ensures r.Ok? ==>
      fresh(r.value) && fresh(r.value.cells) && r.value.Valid() && r.value.Exact() &&
      r.value.rows == rows && r.value.cols == cols && r.value.kind == kind &&
      r.value.Grid() == ZeroGrid(kind, rows, cols)
  {
    if Area(rows, cols) > MaxInt64 {
      return Err(SizeOverflow);
    }
    if !IsStorageKind(kind) {
      return Err(InvalidKind);
    }
    ProductAgrees(rows, cols);
    var m := new Matrix(rows, cols, kind);
    assert forall i | 0 <= i < rows :: m.Grid()[i] == ZeroGrid(kind, rows, cols)[i];
    r := Ok(m);
  }
}
