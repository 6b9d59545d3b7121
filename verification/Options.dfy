/** Results that may be missing. */
module Options {
  datatype Option<+T> = None | Some(value: T)

  /** A list in front of the rest, if there is a rest. */
  function Prepend<T>(items: seq<T>, rest: Option<seq<T>>): Option<seq<T>> {
    match rest
    case None => None
    case Some(more) => Some(items + more)
  }

  lemma PrependConcat<T>(a: seq<T>, b: seq<T>, rest: Option<seq<T>>)
    ensures Prepend(a, Prepend(b, rest)) == Prepend(a + b, rest)
    ensures Prepend([], rest) == rest
  {
    match rest {
      case None =>
      case Some(more) =>
        assert a + (b + more) == a + b + more;
        assert [] + more == more;
    }
  }
}
