/** The kind-tagged vector of number/vector/genericVector.go.

    A Go `genericVector` is a value struct {dimension, kind, cells} whose
    `cells` slice is shared by every copy, so `Set` on any copy writes the
    one backing array and returns the receiver.  Here a `Vector` is an
    object whose constant `cells` array is that backing slice. */
module Vectors {
  import opened Faults
  import opened Scalars

  // ---------------------------------------------------------------------
  // Specification: element-wise results on cell sequences.

  /** Cell-wise `v[i] + w[i]` in the kind's arithmetic. */
  function Sum(k: ElementKind, a: seq<int>, b: seq<int>, fpu: FloatUnit): seq<int>
    requires IsElementKind(k) && |a| == |b|
  {
    seq(|a|, i requires 0 <= i < |a| => Add(k, a[i], b[i], fpu))
  }

  /** Cell-wise `v[i] - w[i]` in the kind's arithmetic. */
  function Difference(k: ElementKind, a: seq<int>, b: seq<int>, fpu: FloatUnit): seq<int>
    requires IsElementKind(k) && |a| == |b|
  {
    seq(|a|, i requires 0 <= i < |a| => Sub(k, a[i], b[i], fpu))
  }

  /** Cell-wise `v[i] / d` in the kind's arithmetic. */
  function Quotient(k: ElementKind, a: seq<int>, d: int, fpu: FloatUnit): seq<int>
    requires IsElementKind(k) && (IsInteger(k) && |a| > 0 ==> d != 0)
  {
    seq(|a|, i requires 0 <= i < |a| => Div(k, a[i], d, fpu))
  }

  /** The cells of genericZeroVector(n, k). */
  function Zeros(k: ElementKind, n: nat): seq<int> {
    seq(n, i => Zero(k))
  }

  /** The first n cell pairs are equal under the kind's `==`. */
  predicate EqualUpTo(k: ElementKind, a: seq<int>, b: seq<int>, n: nat)
    requires IsElementKind(k) && n <= |a| && n <= |b|
  {
    forall i :: 0 <= i < n ==> Eq(k, a[i], b[i])
  }

  predicate AllEqual(k: ElementKind, a: seq<int>, b: seq<int>)
    requires IsElementKind(k) && |a| == |b|
  {
    EqualUpTo(k, a, b, |a|)
  }

  /** Every cell is a value of the kind. */
  predicate AllInRange(k: ElementKind, a: seq<int>) {
    forall i :: 0 <= i < |a| ==> InRange(k, a[i])
  }

  /** The first n literal values have the kind of the first. */
  predicate SameKindUpTo(values: seq<Value>, n: nat)
    requires 0 < |values| && n <= |values|
  {
    forall i :: 0 <= i < n ==> values[i].kind == values[0].kind
  }

  function Min(a: int, b: int): int { if a < b then a else b }

  // ---------------------------------------------------------------------
  // The container.

  class Vector {
    const dimension: GoInt
    const kind: ElementKind
    const cells: array<int>

    ghost predicate Valid()
      reads cells
    {
      dimension == cells.Length && IsElementKind(kind) &&
      forall i :: 0 <= i < cells.Length ==> InRange(kind, cells[i])
    }

    /** Allocation of the zeroed backing slice (`make([]T, dimension)`). */
    constructor (dimension: GoInt, kind: ElementKind)
      requires 0 <= dimension && IsElementKind(kind)
      ensures Valid() && fresh(cells)
      ensures this.dimension == dimension && this.kind == kind
      ensures cells[..] == Zeros(kind, dimension)
    {
      this.dimension := dimension;
      this.kind := kind;
      cells := new int[dimension](i => Zero(kind));
    }

    function Kind(): ElementKind { kind }

    /** The number of dimensions, which is the number of stored cells. */
    function Len(): (n: GoInt)
      reads cells
      requires Valid()
      ensures n == cells.Length
    {
      dimension
    }

    /** Reads cell i.  The bounds check rejects i >= dimension and
        i >= MaxInt32; a negative i passes it and faults in the slice access. */
    method Get(i: GoInt) returns (r: Result<Value>)
      requires Valid()
      ensures i >= dimension || i >= MaxInt32 ==> r == Err(IndexOutOfRange)
      ensures i < 0 ==> r == Err(IndexFault)
      ensures 0 <= i < dimension && i < MaxInt32 ==> r == Ok(Scalar(kind, cells[i]))
    {
      if i >= dimension || i >= MaxInt32 {
        return Err(IndexOutOfRange);
      }
      if i < 0 {
        return Err(IndexFault);
      }
      r := Ok(Scalar(kind, cells[i]));
    }

    /** Writes cell i in place and returns the receiver.  The checks run in
        the order of the source: bounds, then the type of cell 0 (which
        faults on an empty vector), then the write itself (which faults on
        a negative index). */
    method Set(i: GoInt, value: Value) returns (r: Result<Vector>)
      requires Valid()
      modifies cells
      ensures Valid()
      ensures r.Ok? <==> 0 <= i < dimension && i < MaxInt32 && value.kind == kind
      ensures r.Ok? ==> r.value == this && cells[..] == old(cells[..])[i := value.raw]
      ensures r.Err? ==> cells[..] == old(cells[..])
      ensures r.Err? ==>
        r.error == (if i >= dimension || i >= MaxInt32 then IndexOutOfRange
                    else if i < 0 && (dimension == 0 || value.kind == kind) then IndexFault
                    else KindMismatch)
    {
      if i >= dimension || i >= MaxInt32 {
        return Err(IndexOutOfRange);
      }
      if dimension == 0 {
        return Err(IndexFault);
      }
      if value.kind != kind {
        return Err(KindMismatch);
      }
      if i < 0 {
        return Err(IndexFault);
      }
      cells[i] := value.raw;
      r := Ok(this);
    }

    /** Element-wise sum.  Kinds are checked before lengths; the loop's own
        Get fails once i reaches MaxInt32.  Both operands are unchanged. */
    method Add(w: Vector, fpu: FloatUnit) returns (r: Result<Vector>)
      requires Valid() && w.Valid()
      ensures w.kind != kind ==> r == Err(KindMismatch)
      ensures w.kind == kind && w.dimension != dimension ==> r == Err(DimensionMismatch)
      ensures w.kind == kind && w.dimension == dimension && dimension > MaxInt32 ==>
        r == Err(IndexOutOfRange)
      ensures w.kind == kind && w.dimension == dimension && dimension <= MaxInt32 ==>
        r.Ok? && fresh(r.value.cells) && r.value.Valid() && r.value.kind == kind &&
        r.value.cells[..] == Sum(kind, cells[..], w.cells[..], fpu)
    {
      if w.Kind() != Kind() {
        return Err(KindMismatch);
      }
      if w.Len() != Len() {
        return Err(DimensionMismatch);
      }
      var zero := ZeroVector(Len(), Kind());
      var res := zero.value;
      var i := 0;
      while i < res.Len()
        invariant res.Valid() && fresh(res.cells)
        invariant res.dimension == dimension && res.kind == kind
        invariant 0 <= i <= dimension && i <= MaxInt32
        invariant forall j :: 0 <= j < i ==> res.cells[j] == Scalars.Add(kind, cells[j], w.cells[j], fpu)
      {
        var a :- Get(i);
        var b := w.Get(i);
        var written := res.Set(i, Scalar(kind, Scalars.Add(kind, a.raw, b.value.raw, fpu)));
        i := i + 1;
      }
      r := Ok(res);
    }

    /** Element-wise difference, checked like Add. */
    method Sub(w: Vector, fpu: FloatUnit) returns (r: Result<Vector>)
      requires Valid() && w.Valid()
      ensures w.kind != kind ==> r == Err(KindMismatch)
      ensures w.kind == kind && w.dimension != dimension ==> r == Err(DimensionMismatch)
      ensures w.kind == kind && w.dimension == dimension && dimension > MaxInt32 ==>
        r == Err(IndexOutOfRange)
      ensures w.kind == kind && w.dimension == dimension && dimension <= MaxInt32 ==>
        r.Ok? && fresh(r.value.cells) && r.value.Valid() && r.value.kind == kind &&
        r.value.cells[..] == Difference(kind, cells[..], w.cells[..], fpu)
    {
      if w.Kind() != Kind() {
        return Err(KindMismatch);
      }
      if w.Len() != Len() {
        return Err(DimensionMismatch);
      }
      var zero := ZeroVector(Len(), Kind());
      var res := zero.value;
      var i := 0;
      while i < res.Len()
        invariant res.Valid() && fresh(res.cells)
        invariant res.dimension == dimension && res.kind == kind
        invariant 0 <= i <= dimension && i <= MaxInt32
        invariant forall j :: 0 <= j < i ==> res.cells[j] == Scalars.Sub(kind, cells[j], w.cells[j], fpu)
      {
        var a :- Get(i);
        var b := w.Get(i);
        var written := res.Set(i, Scalar(kind, Scalars.Sub(kind, a.raw, b.value.raw, fpu)));
        i := i + 1;
      }
      r := Ok(res);
    }

    /** Division of every cell by the scalar s, whose kind must be the
        vector's.  An integer division by zero panics at the first cell, so
        it fails only on a non-empty vector; a float division by zero is the
        floating-point unit's business. */
    method Divs(s: Value, fpu: FloatUnit) returns (r: Result<Vector>)
      requires Valid()
      ensures s.kind != kind ==> r == Err(KindMismatch)
      ensures s.kind == kind && dimension > 0 && IsInteger(kind) && s.raw == 0 ==>
        r == Err(DivideByZero)
      ensures s.kind == kind && !(dimension > 0 && IsInteger(kind) && s.raw == 0) ==>
        (dimension > MaxInt32 ==> r == Err(IndexOutOfRange)) &&
        (dimension <= MaxInt32 ==>
          r.Ok? && fresh(r.value.cells) && r.value.Valid() && r.value.kind == kind &&
          r.value.cells[..] == Quotient(kind, cells[..], s.raw, fpu))
    {
      if s.kind != Kind() {
        return Err(KindMismatch);
      }
      var zero := ZeroVector(Len(), Kind());
      var res := zero.value;
      var i := 0;
      while i < res.Len()
        invariant res.Valid() && fresh(res.cells)
        invariant res.dimension == dimension && res.kind == kind
        invariant 0 <= i <= dimension && i <= MaxInt32
        invariant i > 0 && IsInteger(kind) ==> s.raw != 0
        invariant forall j :: 0 <= j < i ==> res.cells[j] == Div(kind, cells[j], s.raw, fpu)
      {
        var a :- Get(i);
        if IsInteger(kind) && s.raw == 0 {
          return Err(DivideByZero);
        }
        var written := res.Set(i, Scalar(kind, Div(kind, a.raw, s.raw, fpu)));
        i := i + 1;
      }
      r := Ok(res);
    }

    /** The unit vector: only Float32 and Float64 vectors have one.  The
        vector is divided by its Euclidean norm, which Abs computes in
        float64 and Unit converts to the vector's kind; that norm is the
        parameter `norm`. */
    method Unit(norm: int, fpu: FloatUnit) returns (r: Result<Vector>)
      requires Valid()
      requires IsFloat(kind) ==> InRange(kind, norm)
      ensures !IsFloat(kind) ==> r == Err(UnsupportedKind)
      ensures IsFloat(kind) && dimension > MaxInt32 ==> r == Err(IndexOutOfRange)
      ensures IsFloat(kind) && dimension <= MaxInt32 ==>
        r.Ok? && fresh(r.value.cells) && r.value.Valid() && r.value.kind == kind &&
        r.value.cells[..] == Quotient(kind, cells[..], norm, fpu)
    {
      if Kind() != Float32 && Kind() != Float64 {
        return Err(UnsupportedKind);
      }
      r := Divs(Scalar(kind, norm), fpu);
    }

    /** Cell-wise equality with an early exit.  Kinds are checked before
        lengths; as in Add, the loop's Get fails at i == MaxInt32 if every
        earlier pair was equal. */
    method Equal(w: Vector) returns (r: Result<bool>)
      requires Valid() && w.Valid()
      ensures r ==
        if w.kind != kind then Err(KindMismatch)
        else if w.dimension != dimension then Err(DimensionMismatch)
        else if dimension > MaxInt32 && EqualUpTo(kind, cells[..], w.cells[..], MaxInt32)
        then Err(IndexOutOfRange)
        else Ok(AllEqual(kind, cells[..], w.cells[..]))
    {
      if w.Kind() != Kind() {
        return Err(KindMismatch);
      }
      if w.Len() != Len() {
        return Err(DimensionMismatch);
      }
      var equal := true;
      var i := 0;
      while i < Len() && equal
        invariant 0 <= i <= dimension && i <= MaxInt32
        invariant equal == EqualUpTo(kind, cells[..], w.cells[..], i)
      {
        var a :- Get(i);
        var b := w.Get(i);
        equal := Eq(kind, a.raw, b.value.raw);
        i := i + 1;
      }
      r := Ok(equal);
    }
  }

  // ---------------------------------------------------------------------
  // Constructors.

  /** genericZeroVector: an unknown kind panics before `make`, and `make`
      panics on a negative length. */
  method ZeroVector(dimension: GoInt, kind: ElementKind) returns (r: Result<Vector>)
    ensures !IsElementKind(kind) ==> r == Err(InvalidKind)
    ensures IsElementKind(kind) && dimension < 0 ==> r == Err(NegativeLength)
    ensures IsElementKind(kind) && dimension >= 0 ==>
      r.Ok? && fresh(r.value) && fresh(r.value.cells) && r.value.Valid() &&
      r.value.dimension == dimension && r.value.kind == kind &&
      r.value.cells[..] == Zeros(kind, dimension)
  {
    if !IsElementKind(kind) {
      return Err(InvalidKind);
    }
    if dimension < 0 {
      return Err(NegativeLength);
    }
    var v := new Vector(dimension, kind);
    r := Ok(v);
  }

  /** genericFilledVector: the kind is that of the first value, and each
      value is stored through Set, which rejects a value of another kind
      and stops at MaxInt32. */
  method FilledVector(values: seq<Value>) returns (r: Result<Vector>)
    requires |values| <= MaxInt64
    ensures |values| == 0 ==> r == Err(EmptyInput)
    ensures |values| > 0 && !IsElementKind(values[0].kind) ==> r == Err(InvalidKind)
    ensures |values| > 0 && IsElementKind(values[0].kind) ==>
      (r.Ok? <==> SameKindUpTo(values, |values|) && |values| <= MaxInt32)
    ensures |values| > 0 && IsElementKind(values[0].kind) && r.Err? ==>
      r.error == if SameKindUpTo(values, Min(|values|, MaxInt32)) then IndexOutOfRange else KindMismatch
    ensures r.Ok? ==>
      fresh(r.value) && fresh(r.value.cells) && r.value.Valid() && r.value.dimension == |values| &&
      r.value.kind == values[0].kind &&
      forall i :: 0 <= i < |values| ==> r.value.cells[i] == values[i].raw
  {
    if |values| == 0 {
      return Err(EmptyInput);
    }
    var v :- ZeroVector(|values|, values[0].kind);
    var i := 0;
    while i < v.Len()
      invariant v.Valid() && fresh(v.cells)
      invariant v.dimension == |values| && v.kind == values[0].kind
      invariant 0 <= i <= |values| && i <= MaxInt32
      invariant SameKindUpTo(values, i)
      invariant forall j :: 0 <= j < i ==> v.cells[j] == values[j].raw
    {
      var written := v.Set(i, values[i]);
      if written.Err? {
        return Err(written.error);
      }
      i := i + 1;
    }
    r := Ok(v);
  }

  // ---------------------------------------------------------------------
  // Properties.

  /** v.Sub(v) is the zero vector of v's kind and length. */
  lemma {:induction false} DifferenceWithItselfIsZero(k: ElementKind, a: seq<int>, fpu: FloatUnit)
    requires IsInteger(k)
    ensures Difference(k, a, a, fpu) == Zeros(k, |a|)
  {
    forall i | 0 <= i < |a|
      ensures Difference(k, a, a, fpu)[i] == Zeros(k, |a|)[i]
    {
      SubSelf(k, a[i], fpu);
    }
  }

  /** v.Divs(one) is v, for the integer kinds. */
  lemma {:induction false} QuotientByOneIsIdentity(k: ElementKind, a: seq<int>, fpu: FloatUnit)
    requires IsInteger(k) && AllInRange(k, a)
    ensures Quotient(k, a, One(k), fpu) == a
  {
    forall i | 0 <= i < |a|
      ensures Quotient(k, a, One(k), fpu)[i] == a[i]
    {
      DivOne(k, a[i], fpu);
    }
  }

  /** Sub undoes Add: (v + w) - w is v, for the integer kinds, wrap-around
      included. */
  lemma {:induction false} DifferenceUndoesSum(k: ElementKind, a: seq<int>, b: seq<int>, fpu: FloatUnit)
    requires IsInteger(k) && |a| == |b| && AllInRange(k, a)
    ensures Difference(k, Sum(k, a, b, fpu), b, fpu) == a
  {
    var s := Sum(k, a, b, fpu);
    forall i | 0 <= i < |a|
      ensures Difference(k, s, b, fpu)[i] == a[i]
    {
      SubUndoesAdd(k, a[i], b[i], fpu);
    }
  }

  /** On integer kinds Equal is plain equality of the cells. */
  lemma AllEqualIsIdentityOnIntegers(k: ElementKind, a: seq<int>, b: seq<int>)
    requires IsInteger(k) && |a| == |b|
    ensures AllEqual(k, a, b) <==> a == b
  {
    if AllEqual(k, a, b) {
      assert forall i :: 0 <= i < |a| ==> a[i] == b[i] by {
        forall i | 0 <= i < |a| ensures a[i] == b[i] {
          assert Eq(k, a[i], b[i]);
        }
      }
    }
  }

  /** Equal is reflexive exactly when no cell is a NaN; so it always is on
      integer vectors. */
  lemma AllEqualReflexiveIffNoNaN(k: ElementKind, a: seq<int>)
    requires IsElementKind(k)
    ensures AllEqual(k, a, a) <==> forall i :: 0 <= i < |a| ==> !(IsFloat(k) && IsNaN(k, a[i]))
  {
    forall i | 0 <= i < |a| ensures Eq(k, a[i], a[i]) <==> !(IsFloat(k) && IsNaN(k, a[i])) {
      EqReflexiveExceptNaN(k, a[i]);
    }
  }

  /** [1, 2, 3] is not equal to the zero vector of length 3. */
  lemma NonZeroDiffersFromZero()
    ensures !AllEqual(Int, [1, 2, 3], Zeros(Int, 3))
  {
    assert !Eq(Int, [1, 2, 3][0], Zeros(Int, 3)[0]);
  }

  /** A Float32 vector holding the quiet NaN is not equal to itself. */
  lemma NaNVectorIsNotEqualToItself()
    ensures !AllEqual(Float32, [0x7FC0_0000], [0x7FC0_0000])
  {
    assert !Eq(Float32, [0x7FC0_0000][0], [0x7FC0_0000][0]);
  }

  /** Addition wraps in the kind's width: [127] + [1] is [-128] for Int8. */
  lemma SumWrapsAround(fpu: FloatUnit)
    ensures Sum(Int8, [127], [1], fpu) == [-128]
  {
    AddWraps(fpu);
  }
}
