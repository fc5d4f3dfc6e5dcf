/**
  Document-order lookups: `getElementById`, `querySelector` and `Array.find`
  all return the FIRST element that matches, or nothing.
*/
module Dom {
  import opened Wrappers

  /** The index of the first occurrence of `x` in `xs`, or `None` when there is none. */
  function FirstIndexOf<T(==)>(xs: seq<T>, x: T): (r: Option<nat>)
    ensures r.None? <==> x !in xs
    ensures r.Some? ==> r.value < |xs| && xs[r.value] == x && x !in xs[..r.value]
  {
    if xs == [] then None
    else if xs[0] == x then Some(0)
    else
      match FirstIndexOf(xs[1..], x)
      case None => None
      case Some(i) =>
        assert xs[..i + 1] == [xs[0]] + xs[1..][..i];
        Some(i + 1)
  }
}
