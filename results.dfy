/** Option and Result values, and the one way results of the two formatters
    are put together: a replacement followed by the rendering of the rest. */
module Results {

  datatype Option<+T> = None | Some(value: T)

  datatype Result<+T, +E> = Success(value: T) | Failure(error: E)

  /** `piece` in front of a successful rendering; a failure passes through. */
  function Prefix<E>(piece: string, r: Result<string, E>): Result<string, E>
  {
    if r.Success? then Success(piece + r.value) else r
  }

  lemma PrefixEmpty<E>(r: Result<string, E>)
    ensures Prefix([], r) == r
  {
    if r.Success? {
      assert [] + r.value == r.value;
    }
  }

  lemma PrefixPrefix<E>(a: string, b: string, r: Result<string, E>)
    ensures Prefix(a, Prefix(b, r)) == Prefix(a + b, r)
  {
    if r.Success? {
      assert a + (b + r.value) == (a + b) + r.value;
    }
  }
}
