/** Optional values, used where the source has a nullable reference or a
    failure the caller must handle. */
module Results {

  datatype Option<+T> = None | Some(value: T)

  /** The elements of an optional value as a sequence of length 0 or 1. */
  function ToSeq<T>(o: Option<T>): (r: seq<T>)
    ensures o.None? ==> r == []
    ensures o.Some? ==> r == [o.value]
  {
    match o
    case None => []
    case Some(x) => [x]
  }
}
