/** Outcome values shared by every part of the model: the places where the
    script raises an exception or calls `quit` return an `Err` instead. */
module Results {

  datatype Option<T> = None | Some(value: T) {
    /** The value as a list of zero or one element. */
    function ToSeq(): (s: seq<T>)
      ensures |s| <= 1
    {
      if Some? then [value] else []
    }
  }

  datatype Result<T, E> = Ok(value: T) | Err(error: E)
}
