/** Small wrapper types shared by both groups of models. */
module Common {

  /** A nullable value: a Django field declared with `null=True`. */
  datatype Option<T> = None | Some(value: T)

  /** A computed value, or the error the source raises instead. */
  datatype Result<T, E> = Ok(value: T) | Err(error: E)
}
