/** Result values standing in for the places where the Rust code panics
    (`unwrap` on a missing map entry, the ground-size check of `Mul`, an
    index past the end of a vector). */
module Outcomes {

  datatype Option<T> = None | Some(value: T)

  /** Why an operation that would panic in the Rust code failed. */
  datatype Fault =
    | DomainMismatch  // `Mul` on cycles whose ground vectors differ in length
    | MissingImage    // `get_by_left(..).unwrap()` found no image
    | MissingNode     // `nodemap.get(..).unwrap()` found no node for an element
    | OutOfBounds     // a vector index past the end

  datatype Result<T> = Ok(value: T) | Err(fault: Fault)
}
