/** The small containers of td6.cpp, run by one thread: a sorted vector with a
    search counter, a halving step that waits for an even number, and an
    unbounded FIFO queue whose pop waits for an element. A wait that one thread
    could never see end is reported as a Blocked outcome. */
module Containers {

  /** What a call that may wait on a condition variable does: it returns a
      value, or it blocks because the condition it waits for is false. */
  datatype Outcome<T> = Returned(value: T) | Blocked

  /** Ascending order, duplicates allowed. */
  predicate Sorted(s: seq<int>)
  {
    forall i, j :: 0 <= i < j < |s| ==> s[i] <= s[j]
  }

  /** The length of the longest prefix of s whose elements are at most val:
      for a sorted s, the position std::upper_bound returns. */
  function UpperBoundOf(s: seq<int>, val: int): (p: nat)
    ensures p <= |s|
    ensures forall j :: 0 <= j < p ==> s[j] <= val
    ensures p < |s| ==> val < s[p]
  {
    if |s| == 0 || val < s[0] then 0 else 1 + UpperBoundOf(s[1..], val)
  }

  /** s with val inserted at its upper bound, after every copy already there. */
  function InsertSorted(s: seq<int>, val: int): seq<int>
  {
    var p := UpperBoundOf(s, val);
    s[..p] + [val] + s[p..]
  }

  /** std::upper_bound: the first position whose element is above val; all
      elements before it are at most val. */
  method UpperBound(s: seq<int>, val: int) returns (p: nat)
    requires Sorted(s)
    ensures p <= |s|
    ensures forall j :: 0 <= j < p ==> s[j] <= val
    ensures forall j :: p <= j < |s| ==> val < s[j]
    ensures p == UpperBoundOf(s, val)
  {
    var lo, hi := 0, |s|;
    while lo < hi
      invariant 0 <= lo <= hi <= |s|
      invariant forall j :: 0 <= j < lo ==> s[j] <= val
      invariant forall j :: hi <= j < |s| ==> val < s[j]
    {
      var mid := (lo + hi) / 2;
      if s[mid] <= val {
        lo := mid + 1;
      } else {
        hi := mid;
      }
    }
    p := lo;
    var q := UpperBoundOf(s, val);
    assert p < |s| ==> val < s[p];
    assert q < |s| ==> val < s[q];
  }

  /** std::lower_bound: the first position whose element is at least val; all
      elements before it are below val. */
  method LowerBound(s: seq<int>, val: int) returns (p: nat)
    requires Sorted(s)
    ensures p <= |s|
    ensures forall j :: 0 <= j < p ==> s[j] < val
    ensures forall j :: p <= j < |s| ==> val <= s[j]
  {
    var lo, hi := 0, |s|;
    while lo < hi
      invariant 0 <= lo <= hi <= |s|
      invariant forall j :: 0 <= j < lo ==> s[j] < val
      invariant forall j :: hi <= j < |s| ==> val <= s[j]
    {
      var mid := (lo + hi) / 2;
      if s[mid] < val {
        lo := mid + 1;
      } else {
        hi := mid;
      }
    }
    p := lo;
  }

  /** Inserting keeps a sorted sequence sorted. */
  lemma InsertSortedSorted(s: seq<int>, val: int)
    requires Sorted(s)
    ensures Sorted(InsertSorted(s, val))
  {
    var p := UpperBoundOf(s, val);
    var r := InsertSorted(s, val);
    forall i, j | 0 <= i < j < |r|
      ensures r[i] <= r[j]
    {
      if j < p {
        assert r[i] == s[i] && r[j] == s[j];
      } else if j == p {
        assert r[j] == val && r[i] == s[i];
      } else if i < p {
        assert r[i] == s[i] && r[j] == s[j - 1];
        assert s[p] <= s[j - 1];
      } else if i == p {
        assert r[i] == val && r[j] == s[j - 1];
        assert s[p] <= s[j - 1];
      } else {
        assert r[i] == s[i - 1] && r[j] == s[j - 1];
      }
    }
  }

  /** Inserting adds exactly one copy of val and nothing else. */
  lemma InsertSortedAddsOne(s: seq<int>, val: int)
    ensures multiset(InsertSorted(s, val)) == multiset(s) + multiset{val}
  {
    var p := UpperBoundOf(s, val);
    calc {
      multiset(InsertSorted(s, val));
      multiset(s[..p]) + multiset{val} + multiset(s[p..]);
      multiset(s[..p] + s[p..]) + multiset{val};
      { assert s[..p] + s[p..] == s; }
      multiset(s) + multiset{val};
    }
  }

  /** The new copy goes after every element at most val and before every
      element above it. */
  lemma InsertSortedPlace(s: seq<int>, val: int)
    requires Sorted(s)
    ensures exists p :: 0 <= p <= |s| && InsertSorted(s, val) == s[..p] + [val] + s[p..] &&
                        (forall j :: 0 <= j < p ==> s[j] <= val) &&
                        (forall j :: p <= j < |s| ==> val < s[j])
  {
    var p := UpperBoundOf(s, val);
    assert forall j :: p <= j < |s| ==> s[p] <= s[j];
  }

  /** An element of a sorted sequence that is not below val's lower bound
      equals val only if the element at the lower bound does. */
  lemma LowerBoundFinds(s: seq<int>, p: nat, val: int)
    requires Sorted(s) && p <= |s|
    requires forall j :: 0 <= j < p ==> s[j] < val
    requires forall j :: p <= j < |s| ==> val <= s[j]
    ensures val in s <==> p < |s| && s[p] == val
  {
    if val in s {
      var j :| 0 <= j < |s| && s[j] == val;
      assert p <= j && s[p] <= s[j];
    }
  }

  class OrderedVec {
    var data: seq<int>
    /** The number of searches in progress. */
    var numSearchers: int

    /** Between calls the vector is sorted and no search is in progress. */
    ghost predicate Valid()
      reads this
    {
      Sorted(data) && numSearchers == 0
    }

    /** OrderedVec(): empty, with no searcher. */
    constructor ()
      ensures Valid() && data == []
    {
      data := [];
      numSearchers := 0;
    }

    /** OrderedVec::insert: val goes in at its upper bound, after every copy
        already there, so the vector stays sorted and holds one more val. */
    method Insert(val: int)
      requires Valid()
      modifies this
      ensures Valid()
      ensures data == InsertSorted(old(data), val)
    {
      var p := UpperBound(data, val);
      InsertSortedSorted(data, val);
      data := data[..p] + [val] + data[p..];
    }

    /** OrderedVec::search: true exactly when val is in the vector; the vector
        is left as it was and the searcher count goes back to its old value. */
    method Search(val: int) returns (r: bool)
      requires Valid()
      modifies this
      ensures Valid() && data == old(data) && numSearchers == old(numSearchers)
      ensures r <==> val in data
    {
      numSearchers := numSearchers + 1;
      var p := LowerBound(data, val);
      LowerBoundFinds(data, p, val);
      r := p < |data| && data[p] == val;
      numSearchers := numSearchers - 1;
    }
  }

  /** A run: inserting 2, 1, 2 into an empty vector gives [1, 2, 2], the
      second 2 after the first; 2 is found and 3 is not. */
  method InsertThenSearch() returns (data: seq<int>, found: bool, missing: bool)
    ensures data == [1, 2, 2] && found && !missing
  {
    var v := new OrderedVec();
    v.Insert(2);
    assert v.data == [2];
    v.Insert(1);
    assert UpperBoundOf([2], 1) == 0;
    assert v.data == [1, 2];
    v.Insert(2);
    assert UpperBoundOf([1, 2], 2) == 2;
    assert v.data == [1, 2, 2];
    data := v.data;
    found := v.Search(2);
    assert v.data[1] == 2;
    missing := v.Search(3);
  }

  /** DivideOnceEven: waits until n is even, then halves it. One thread cannot
      change n while it waits, so an odd n blocks; an even n is halved
      exactly (the division then has no remainder to round). */
  method DivideOnceEven(n: int) returns (r: Outcome<int>)
    ensures r == Blocked <==> n % 2 != 0
    ensures r.Returned? ==> r.value * 2 == n
  {
    if n % 2 != 0 {
      return Blocked;
    }
    r := Returned(n / 2);
  }

  class SafeUnboundedQueue<E> {
    /** The queued elements, front first. */
    var elements: seq<E>

    /** SafeUnboundedQueue(): empty. */
    constructor ()
      ensures elements == []
    {
      elements := [];
    }

    /** push: the element goes at the back. */
    method Push(element: E)
      modifies this
      ensures elements == old(elements) + [element]
    {
      elements := elements + [element];
    }

    /** pop: the front element, removed from the queue; on an empty queue
        the call blocks and nothing changes. */
    method Pop() returns (r: Outcome<E>)
      modifies this
      ensures |old(elements)| == 0 ==> r == Blocked && elements == old(elements)
      ensures |old(elements)| > 0 ==> r == Returned(old(elements)[0]) && elements == old(elements)[1..]
    {
      if |elements| == 0 {
        return Blocked;
      }
      r := Returned(elements[0]);
      elements := elements[1..];
    }

    /** is_empty. */
    method IsEmpty() returns (r: bool)
      ensures r <==> elements == []
    {
      r := |elements| == 0;
    }
  }

  /** First in, first out: pushing xs into a new queue and then popping as
      many times gives xs back in the same order, and leaves the queue empty. */
  method PushAllPopAll<E>(xs: seq<E>) returns (ys: seq<E>, empty: bool)
    ensures ys == xs && empty
  {
    var q := new SafeUnboundedQueue<E>();
    var k := 0;
    while k < |xs|
      invariant k <= |xs| && q.elements == xs[..k]
    {
      q.Push(xs[k]);
      assert xs[..k + 1] == xs[..k] + [xs[k]];
      k := k + 1;
    }
    ys := [];
    k := 0;
    while k < |xs|
      invariant k <= |xs| && ys == xs[..k] && q.elements == xs[k..]
    {
      var r := q.Pop();
      assert xs[k..][0] == xs[k] && xs[k..][1..] == xs[k + 1..];
      ys := ys + [r.value];
      assert xs[..k + 1] == xs[..k] + [xs[k]];
      k := k + 1;
    }
    assert xs[..k] == xs;
    empty := q.IsEmpty();
  }
}
