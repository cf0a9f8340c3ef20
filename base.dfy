/** Small shared vocabulary: an optional value and duplicate-free sequences. */
module Base {

  datatype Option<+T> = None | Some(value: T)

  /** No element of `s` occurs twice (what a Python `list(set(...))` guarantees). */
  predicate NoDup<T(==)>(s: seq<T>)
  {
    forall i, j :: 0 <= i < j < |s| ==> s[i] != s[j]
  }

  /** The elements of a sequence, as a set. */
  function Elements<T>(s: seq<T>): set<T>
  {
    set x | x in s
  }
}
