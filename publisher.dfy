/** The finite sequence of elements a publisher emits, and the per-element
    `map` operator applied to it. */
module Publisher {

  /** `map`: every upstream element is transformed by `f`; no element is
      dropped, added or reordered. */
  function Map<A, B>(f: A -> B, s: seq<A>): (r: seq<B>)
    ensures |r| == |s|
    ensures forall i :: 0 <= i < |s| ==> r[i] == f(s[i])
  {
    if s == [] then [] else [f(s[0])] + Map(f, s[1..])
  }
}
