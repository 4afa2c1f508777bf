/** The optional value used where the source returns null or throws for a missing item. */
module Optional {

  datatype Option<+T> = None | Some(value: T)

  /** The zero- or one-element sequence holding the value of `o`, if any. */
  function ToSeq<T>(o: Option<T>): (s: seq<T>)
    ensures |s| == (if o.Some? then 1 else 0)
    ensures o.Some? ==> s[0] == o.value
  {
    match o
    case None => []
    case Some(x) => [x]
  }
}
