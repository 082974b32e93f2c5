/** Positional insertion into and deletion from a sequence, described element by
    element, which is how the list operations below link and unlink one cell. */
module Sequences {

  /** s with x placed at position i; the elements from i on move one place right. */
  function Insert<T>(s: seq<T>, i: nat, x: T): (r: seq<T>)
    requires i <= |s|
    ensures |r| == |s| + 1 && r[i] == x
    ensures forall j {:trigger r[j]} :: 0 <= j < i ==> r[j] == s[j]
    ensures forall j :: i < j < |r| ==> r[j] == s[j - 1]
  {
    if i == |s| then s + [x] else Insert(s[..|s| - 1], i, x) + [s[|s| - 1]]
  }

  /** s without its element at position i; the later elements move one place left. */
  function Delete<T>(s: seq<T>, i: nat): (r: seq<T>)
    requires i < |s|
    ensures |r| == |s| - 1
    ensures forall j {:trigger r[j]} :: 0 <= j < i ==> r[j] == s[j]
    ensures forall j :: i <= j < |r| ==> r[j] == s[j + 1]
  {
    if i == |s| - 1 then s[..i] else Delete(s[..|s| - 1], i) + [s[|s| - 1]]
  }


  /** after is before with one cell linked in between positions i and i + 1. */
  ghost predicate InsertedAt<T>(before: seq<T>, after: seq<T>, i: int)
  {
    0 <= i < |before| - 1 && |after| == |before| + 1 &&
    after == Insert(before, i + 1, after[i + 1])
  }

  /** after is before with the cell at position i (not a sentinel) unlinked. */
  ghost predicate RemovedAt<T>(before: seq<T>, after: seq<T>, i: int)
  {
    0 < i < |before| - 1 && after == Delete(before, i)
  }
}
