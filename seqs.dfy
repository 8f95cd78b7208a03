/** Searching a sequence: the first position of a value, as pandas'
    `idxmax` of an `eq` mask and a column-label look-up both find it. */
module Seqs {
  import opened Wrappers

  /** The first position holding `v`; `None` when `v` does not occur. */
  function FirstIndexOf<T(==)>(vs: seq<T>, v: T): (r: Option<nat>)
    ensures r.Some? ==> r.value < |vs| && vs[r.value] == v
    ensures r.None? <==> v !in vs
  {
    if vs == [] then None
    else if vs[0] == v then Some(0)
    else
      match FirstIndexOf(vs[1..], v)
      case None => None
      case Some(k) => Some(k + 1)
  }

  /** `FirstIndexOf` finds the first occurrence. */
  lemma {:induction false} FirstIndexOfIsFirst<T>(vs: seq<T>, v: T)
    ensures var r := FirstIndexOf(vs, v);
      r.Some? ==> forall j :: 0 <= j < r.value ==> vs[j] != v
  {
    if vs != [] && vs[0] != v {
      FirstIndexOfIsFirst(vs[1..], v);
    }
  }
}
