/** Failure-compatible result types and the error conditions of the modelled
    code. Every `throw` of the source becomes an `Err` carrying one of these. */
module Base {

  datatype Option<+T> = None | Some(value: T)

  /** An error raised by the source. The source throws `TileDBSOMAError`
      except where a tag says otherwise. */
  datatype Error =
    | NotSparse                      // nnz on a dense array
    | NotWriteMode                   // a shape mutation on an array opened for read
    | ProtectedKey(key: string)      // a reserved metadata key without `force`
    | NoSuchColumn(name: string)     // ArrayBuffers::at of an unknown name
    | DuplicateColumn(name: string)  // ArrayBuffers::emplace of a known name
    | UnexpectedFormat(format: string)
    | InvalidIndexType               // enumeration index type is not an integer
    | CapacityExceeded               // enumeration would overflow its index type
    | InvalidResultOrder(code: int)  // std::invalid_argument from reset
    | ShapeAlreadySet                // upgrade of an array with a current domain
    | ShapeNotSet                    // resize of an array without a current domain
    | DimsNotInt64                   // "internal coding error: expected all dims to be int64"
    | DimTypeNotInt64(dim: string)   // one dimension is not int64 where it must be
    | NdimMismatch(given: nat, actual: nat)
    | NoCurrentDomain                // current domain requested but absent
    | RangeNotSet(dim: string)       // the current-domain rectangle has no range for a dimension

  datatype Result<+T> = Ok(value: T) | Err(error: Error) {
    predicate IsFailure() { Err? }

    function PropagateFailure<U>(): Result<U>
      requires Err?
    {
      Err(error)
    }

    function Extract(): T
      requires Ok?
    {
      value
    }
  }

  /** The outcome of an operation that returns nothing but may throw. */
  datatype Outcome = Pass | Fail(error: Error)
}
