/** BoundedSetList of td7.cpp: the lazy list of SetLists with a fixed capacity
    and a count of its elements. An add that finds the list full and the value
    absent blocks until a remove frees room and then starts again from the
    top. With one thread the wait cannot end by itself, so the model splits
    that add in two: Add reports MustWait, and ResumeAdd is what the blocked
    call does once count < capacity holds again. */
module BoundedSets {
  import opened Sequences
  import opened Keys
  import opened SetLists

  /** What one call of add does: it returns, or it blocks on not_full. */
  datatype AddOutcome = Done(added: bool) | MustWait

  class BoundedSetList {
    const list: SetList
    const capacity: nat
    var count: nat
    ghost var Repr: set<object>

    ghost predicate Valid()
      reads this, Repr
      ensures Valid() ==> this in Repr
    {
      this in Repr && list in Repr && list.Repr <= Repr && this !in list.Repr &&
      list.Valid() && count == |list.Items()| && count <= capacity
    }

    /** BoundedSetList(capacity): an empty list with count 0. */
    constructor (hash: Hasher, capacity: nat)
      ensures Valid() && fresh(Repr)
      ensures this.capacity == capacity && count == 0 && list.hash == hash
      ensures list.Contents() == {}
    {
      this.capacity := capacity;
      count := 0;
      var l := new SetList(hash);
      list := l;
      Repr := {this} + l.Repr;
    }

    /** BoundedSetList::add: false with nothing changed when hash(val) is
        present; when it is absent and count < capacity, one new cell between
        pred and curr and count + 1; when it is absent and the list is full,
        nothing changes and the call blocks. */
    method Add(val: string) returns (r: AddOutcome)
      requires Valid()
      modifies Repr
      ensures Valid() && fresh(Repr - old(Repr))
      ensures list.hash(val) in old(list.Contents()) ==>
                r == Done(false) && count == old(count) && Repr == old(Repr) && unchanged(Repr)
      ensures list.hash(val) !in old(list.Contents()) && old(count) < capacity ==>
                r == Done(true) && count == old(count) + 1 &&
                list.Contents() == old(list.Contents()) + {list.hash(val)} &&
                exists i :: InsertedAt(old(list.nodes), list.nodes, i) &&
                            fresh(list.nodes[i + 1]) && list.nodes[i + 1].item == val
      ensures list.hash(val) !in old(list.Contents()) && old(count) >= capacity ==>
                r == MustWait && Repr == old(Repr) && unchanged(Repr)
    {
      var key := list.hash(val);
      var pred, curr, i := list.Search(key);
      var present := curr.key == key;
      if present {
        return Done(false);
      }
      if count < capacity {
        var node := list.AddCell(pred, curr, val, i);
        count := count + 1;
        Repr := Repr + {node};
        return Done(true);
      }
      return MustWait;
    }

    /** The rest of a blocked add once count < capacity (td7.cpp:90-95): add is
        called again from the start and the result is negated, as written. So a
        value that gets inserted is reported as false, and a value that turned
        up in the meantime as true. */
    method ResumeAdd(val: string) returns (r: bool)
      requires Valid() && count < capacity
      modifies Repr
      ensures Valid() && fresh(Repr - old(Repr))
      ensures r <==> list.hash(val) in old(list.Contents())
      ensures list.Contents() == old(list.Contents()) + {list.hash(val)}
    {
      var retried := Add(val);
      r := !retried.added;
    }

    /** The corrected rest of a blocked add: the retried add's own result is
        the result, so true exactly when the value was inserted. */
    method ResumeAddCorrected(val: string) returns (r: bool)
      requires Valid() && count < capacity
      modifies Repr
      ensures Valid() && fresh(Repr - old(Repr))
      ensures r <==> list.hash(val) !in old(list.Contents())
      ensures list.Contents() == old(list.Contents()) + {list.hash(val)}
      ensures count == old(count) + (if r then 1 else 0)
    {
      var inner := Add(val);
      r := inner.added;
    }

    /** BoundedSetList::remove: the list's own remove, and count - 1 exactly
        when it returns true. */
    method Remove(val: string) returns (r: bool)
      requires Valid()
      modifies Repr
      ensures Valid() && Repr == old(Repr)
      ensures r <==> list.hash(val) in old(list.Contents())
      ensures list.Contents() == old(list.Contents()) - {list.hash(val)}
      ensures count == if r then old(count) - 1 else old(count)
      ensures !r ==> unchanged(Repr)
      ensures r ==> exists i :: RemovedAt(old(list.nodes), list.nodes, i) &&
                             old(list.nodes)[i].key == list.hash(val) && old(list.nodes)[i].marked
    {
      r := list.Remove(val);
      if r {
        count := count - 1;
      }
    }

    /** get_count: never above the capacity. */
    method GetCount() returns (c: nat)
      requires Valid()
      ensures c == count && c == |list.Contents()| && c <= capacity
    {
      ElementsSize(list.keys);
      c := count;
    }

    /** get_capacity. */
    method GetCapacity() returns (c: nat)
      ensures c == capacity
    {
      c := capacity;
    }
  }

  /** The retry of a blocked add reports the opposite of what it did. With
      capacity 1: add(a) succeeds; add(b) blocks; remove(a) frees the room;
      the resumed add(b) inserts b but returns false. */
  method BlockedAddAsWritten(hash: Hasher, a: string, b: string)
    returns (first: AddOutcome, second: AddOutcome, removed: bool, resumed: bool, present: bool)
    requires hash(a) != hash(b)
    ensures first == Done(true) && second == MustWait && removed
    ensures !resumed && present
  {
    var s := new BoundedSetList(hash, 1);
    first := s.Add(a);
    second := s.Add(b);
    removed := s.Remove(a);
    resumed := s.ResumeAdd(b);
    present := s.list.Contains(b);
  }

  /** The same run with the corrected retry: the resumed add(b) returns true. */
  method BlockedAddCorrected(hash: Hasher, a: string, b: string)
    returns (first: AddOutcome, second: AddOutcome, removed: bool, resumed: bool, present: bool)
    requires hash(a) != hash(b)
    ensures first == Done(true) && second == MustWait && removed
    ensures resumed && present
  {
    var s := new BoundedSetList(hash, 1);
    first := s.Add(a);
    second := s.Add(b);
    removed := s.Remove(a);
    resumed := s.ResumeAddCorrected(b);
    present := s.list.Contains(b);
  }
}
