/** `indexOf`/`findIndex` and `flat` on sequences. */
module Sequences {
  import opened Results

  /** The position of the first element equal to `x`, as `indexOf` or `findIndex(e => e === x)` report it. */
  function FirstIndexOf<T(==)>(s: seq<T>, x: T): (r: Option<nat>)
    ensures r.Some? ==> r.value < |s| && s[r.value] == x
    ensures r.Some? ==> forall j :: 0 <= j < r.value ==> s[j] != x
    ensures r.None? <==> x !in s
  {
    if |s| == 0 then None
    else if s[0] == x then Some(0)
    else match FirstIndexOf(s[1..], x)
      case None => None
      case Some(k) => Some(k + 1)
  }

  /** One level of `Array.prototype.flat`: the concatenation of the inner sequences. */
  function Flatten<T>(ss: seq<seq<T>>): (r: seq<T>)
    ensures (forall j :: 0 <= j < |ss| ==> |ss[j]| <= 1) ==> |r| <= |ss|
  {
    if |ss| == 0 then [] else ss[0] + Flatten(ss[1..])
  }
}
