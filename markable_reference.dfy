/** AtomicMarkableReference of td8.cpp: one cell holding a (reference, mark)
    pair that is only ever replaced as a whole, by a compare-and-swap. Run by
    one thread, the compare-and-swap fails only when the stored pair differs
    from the expected one. */
module MarkableReferences {
  /** The stored pair (struct RefAndMark). */
  datatype RefAndMark<T> = RefAndMark(ref: T, mark: bool)

  class AtomicMarkableReference<T(==)> {
    var data: RefAndMark<T>

    /** AtomicMarkableReference(ref, mark). */
    constructor (ref: T, mark: bool)
      ensures data == RefAndMark(ref, mark)
    {
      data := RefAndMark(ref, mark);
    }

    /** compare_and_set: replaces the pair by (desiredRef, desiredMark) exactly
        when it equals (expectedRef, expectedMark), and otherwise leaves it.
        The expected values are passed by reference in the source, but the swap
        works on local copies, so the caller's arguments are never written. */
    method CompareAndSet(expectedRef: T, expectedMark: bool, desiredRef: T, desiredMark: bool)
      returns (ok: bool)
      modifies this
      ensures ok <==> old(data) == RefAndMark(expectedRef, expectedMark)
      ensures data == if ok then RefAndMark(desiredRef, desiredMark) else old(data)
    {
      var expected := RefAndMark(expectedRef, expectedMark);
      ok := data == expected;
      if ok {
        data := RefAndMark(desiredRef, desiredMark);
      }
    }

    /** attempt_mark: a compare-and-swap from (expectedRef, false) to
        (expectedRef, newMark). It fails when the mark is already set, even if
        the reference matches; the reference never changes. */
    method AttemptMark(expectedRef: T, newMark: bool) returns (ok: bool)
      modifies this
      ensures ok <==> old(data.ref) == expectedRef && !old(data.mark)
      ensures data.ref == old(data.ref)
      ensures data.mark == if ok then newMark else old(data.mark)
    {
      ok := CompareAndSet(expectedRef, false, expectedRef, newMark);
    }

    /** get: the stored reference, and the stored mark through the out-parameter. */
    method Get() returns (ref: T, mark: bool)
      ensures RefAndMark(ref, mark) == data
    {
      ref := data.ref;
      mark := data.mark;
    }
  }

  /** A run on a new cell holding (r, false): marking it succeeds once;
      marking it again fails because the mark is no longer false; a swap that
      expects the old mark fails and one that expects the new mark succeeds;
      get then reports the swapped-in pair. */
  method MarkThenSwap<T(==)>(r: T, s: T)
    returns (marked: bool, markedAgain: bool, staleSwap: bool, swap: bool, ref: T, mark: bool)
    ensures marked && !markedAgain && !staleSwap && swap
    ensures ref == s && !mark
  {
    var cell := new AtomicMarkableReference(r, false);
    marked := cell.AttemptMark(r, true);
    markedAgain := cell.AttemptMark(r, false);
    staleSwap := cell.CompareAndSet(r, false, s, false);
    swap := cell.CompareAndSet(r, true, s, false);
    ref, mark := cell.Get();
  }
}
