// Option and Result: the tagged values that stand for the source's null,
// std::optional and exceptions at every boundary of the model.
module Wrappers {

  datatype Option<+T> = None | Some(value: T)

  datatype Result<+T, +E> = Ok(value: T) | Err(error: E) {
    predicate IsFailure() { Err? }
  }
}
