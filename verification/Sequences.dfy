/** Small notions shared by the other modules. */
module Sequences {

  ghost predicate Distinct<T>(list: seq<T>) {
    forall i, j :: 0 <= i < j < |list| ==> list[i] != list[j]
  }

  function Min(a: int, b: int): int {
    if a < b then a else b
  }
}
