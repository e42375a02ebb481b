/**
 Small definitions shared by modules that have nothing else in common.
 */
module Basics {

  datatype Option<+T> = None | Some(value: T)

  function Min(a: int, b: int): (m: int) { if a <= b then a else b }

  function Max(a: int, b: int): (m: int) { if a >= b then a else b }

  predicate Unique<T(==)>(s: seq<T>)
  {
    forall i, j :: 0 <= i < j < |s| ==> s[i] != s[j]
  }

  function Flatten<T>(ss: seq<seq<T>>): (s: seq<T>)
  {
    if ss == [] then [] else ss[0] + Flatten(ss[1..])
  }
}
