/** Optional values, results with an error, and positions in sequences, used across the model. */
module Base {

  datatype Option<+T> = None | Some(value: T)

  datatype Result<+T, +E> = Ok(value: T) | Err(error: E)

  /** Splitting off the first element of the left operand of a concatenation. */
  lemma ConsAppend<T>(w: seq<T>, x: seq<T>)
    requires w != []
    ensures (w + x)[0] == w[0] && (w + x)[1..] == w[1..] + x
    ensures [w[0]] + (w[1..] + x) == w + x
  {
    assert w == [w[0]] + w[1..];
  }

  /** Position of the first element equal to `x` (Python's `list.index`). */
  function IndexOf<T(==)>(s: seq<T>, x: T): (i: nat)
    requires x in s
    ensures i < |s| && s[i] == x
    ensures forall j :: 0 <= j < i ==> s[j] != x
  {
    if s[0] == x then 0 else 1 + IndexOf(s[1..], x)
  }
}
