/** Failure-compatible wrappers used throughout the model. */
module Wrappers {

  /** A value that may be absent, the model of Python's `None` default arguments. */
  datatype Option<+T> = None | Some(value: T)

  /** The outcome of an operation that either returns a value or raises. */
  datatype Result<+T, +E> = Ok(value: T) | Err(error: E) {

    predicate IsFailure() {
      Err?
    }

    function PropagateFailure<U>(): Result<U, E>
      requires Err?
    {
      Err(error)
    }

    function Extract(): T
      requires Ok?
    {
      value
    }
  }
}

/** The exceptions the modelled Python code raises, named by their cause. */
module Errors {

  datatype Error =
    /** The B-spline constructor's own "Coefficients size doesn't match" exception. */
    | SizeMismatch
    /** TypeError: `len()` of a zero-dimensional array. */
    | UnsizedObject
    /** AttributeError: the named attribute does not exist on the object. */
    | MissingAttribute(attribute: string)
    /** IndexError: a tuple, list or array index past its end. */
    | IndexOutOfRange
    /** numpy ValueError: operands could not be broadcast together. */
    | BroadcastFailure
    /** numpy ValueError: a sequence of arrays of different lengths cannot form one array. */
    | InhomogeneousShape
    /** numpy ValueError: the array cannot be reshaped to the requested shape. */
    | ReshapeFailure
    /** numpy/scipy ValueError: a negative dimension or sample count. */
    | NegativeDimension
    /** scipy ValueError: a sparse-matrix row or column index exceeds the matrix dimensions. */
    | SparseIndexOutOfRange
    /** UnboundLocalError on the named local variable. */
    | UnboundVariable(variable: string)
    /** numpy ValueError: a reduction (min, max) over an empty array. */
    | EmptyReduction
    /** ValueError from `create_b_spline_set` for string members. */
    | StringMembers
    /** ValueError from `FFDBlock.embed_entities` for an entity of the named unsupported type. */
    | UnsupportedEntity(typeName: string)
    /** ValueError from a matrix product whose inner dimensions disagree. */
    | DimensionMismatch
    /** A division by zero: numpy produces infinities or NaN, which real numbers cannot hold. */
    | NonFinite
}
