/** The fail-fast paths of the library.
    Every `log.Fatalf`, `log.Panicf` and runtime panic of the Go code ends the
    computation; the model returns the corresponding `Error` instead. */
module Faults {

  datatype Error =
    | InvalidKind           // "Unknown Kind": the element kind has no storage type
    | NegativeLength        // `make` with a negative length panics
    | EmptyInput            // literal constructor given no rows, columns or values
    | IrregularInput        // a literal row whose length differs from row 0
    | IndexOutOfRange       // an accessor's own bounds check rejected the index
    | IndexFault            // the index passed the check but the slice access faulted
    | KindMismatch          // operand, scalar or stored value of another kind
    | DimensionMismatch     // vector lengths or matrix shapes disagree
    | UnsupportedKind       // operation defined only for some kinds
    | SizeOverflow          // rows*cols exceeds the addressable limit
    | DivideByZero          // integer division by zero (runtime panic)
    | WrongVertexCount      // a mesh needs exactly three vertices
    | WrongVertexDimension  // a mesh vertex must be three-dimensional
    | NonPositiveSize       // a box needs positive width, depth and height
    | WrongPosition         // a part position must be a 3-D Float32 vector
    | NilReference          // a method called on a nil interface value

  datatype Result<+T> = Ok(value: T) | Err(error: Error) {
    predicate IsFailure() { Err? }

    function PropagateFailure<U>(): Result<U>
      requires Err?
    {
      Err(error)
    }

    function Extract(): T
      requires Ok?
    {
      value
    }
  }

  datatype Outcome = Pass | Fail(error: Error) {
    predicate IsFailure() { Fail? }

    function PropagateFailure<U>(): Result<U>
      requires Fail?
    {
      Err(error)
    }
  }
}
