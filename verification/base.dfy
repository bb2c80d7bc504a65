/** Optional values and results: the model's stand-ins for Python's None and raised exceptions. */
module Base {

  /** A value that may be absent, as a dictionary lookup or an optional property. */
  datatype Option<T> = None | Some(value: T) {

    /** The value, or `default` when absent. */
    function GetOr(default: T): T {
      match this
      case Some(v) => v
      case None => default
    }
  }

  /** The outcome of a step that can raise: `Ok` with a value, or `Err` with the reason. */
  datatype Result<T, E> = Ok(value: T) | Err(error: E)

  /** Concatenation regroups freely. */
  lemma AppendAssoc<T>(x: seq<T>, y: seq<T>, z: seq<T>)
    ensures x + (y + z) == x + y + z
  {
  }
}
