/** The Option type shared by the models: Ruby's `nil` is `None`. */
module Wrappers {

  datatype Option<+T> = None | Some(value: T)

  /** The elements of an option as a list of zero or one element (Ruby's `compact` on one entry). */
  function OptionToSeq<T>(o: Option<T>): (r: seq<T>)
    ensures |r| <= 1
    ensures o.None? ==> r == []
    ensures o.Some? ==> r == [o.value]
  {
    match o
    case None => []
    case Some(v) => [v]
  }
}
