/** SetListTrans::transform of td7.cpp on the lazy list of SetLists: every
    item v of the list is replaced by f(v). The first loop detaches the cells
    after the head one by one, keeping their items in order; the second adds
    f(v) for each kept item. */
module SetListTransforms {
  import opened Sequences
  import opened Keys
  import opened SetLists

  /** The first loop of transform: while the head's successor is not the
      tail, its item is kept and the cell is unlinked (without marking it).
      The items come out in list order, which is ascending key order, and the
      head ends linked directly to the tail. */
  method Drain(l: SetList) returns (values: seq<string>)
    requires l.Valid()
    modifies l.Repr
    ensures l.Valid() && l.Repr == old(l.Repr)
    ensures values == old(l.Items())
    ensures |l.nodes| == 2 && l.head.next == l.nodes[1] && l.Contents() == {}
  {
    var pred := l.head;
    assert pred.next == l.nodes[1];
    var curr := pred.next;
    values := [];
    while curr.key != LARGEST_KEY
      invariant l.Valid() && l.Repr == old(l.Repr)
      invariant pred == l.head && curr == l.nodes[1]
      invariant values + l.Items() == old(l.Items())
      decreases |l.nodes|
    {
      ghost var ns := l.nodes;
      ItemsOfDeleteFirst(ns);
      values := values + [curr.item];
      l.Unlink(pred, curr, 0);
      assert pred.next == l.nodes[1];
      curr := pred.next;
    }
    assert l.Items() == [];
  }

  /** The keys of f(v) for the values v in vs. */
  ghost function Image(hash: Hasher, f: string -> string, vs: seq<string>): set<int>
  {
    set v | v in vs :: hash(f(v))
  }

  /** The keys of f(v) for the first n values of vs. */
  ghost function PrefixImage(hash: Hasher, f: string -> string, vs: seq<string>, n: nat): set<int>
    requires n <= |vs|
  {
    set j | 0 <= j < n :: hash(f(vs[j]))
  }

  /** One more value adds the key of its image. */
  lemma PrefixImageStep(hash: Hasher, f: string -> string, vs: seq<string>, n: nat)
    requires n < |vs|
    ensures PrefixImage(hash, f, vs, n + 1) == PrefixImage(hash, f, vs, n) + {hash(f(vs[n]))}
  {
    assert hash(f(vs[n])) in PrefixImage(hash, f, vs, n + 1);
  }

  /** The whole prefix is the image of all the values. */
  lemma PrefixImageAll(hash: Hasher, f: string -> string, vs: seq<string>)
    ensures PrefixImage(hash, f, vs, |vs|) == Image(hash, f, vs)
  {
    forall x | x in Image(hash, f, vs) ensures x in PrefixImage(hash, f, vs, |vs|) {
      var v :| v in vs && x == hash(f(v));
      var j :| 0 <= j < |vs| && vs[j] == v;
    }
  }

  /** The second loop of transform: add(f(v)) for each kept value, in order. */
  method AddEach(l: SetList, f: string -> string, values: seq<string>)
    requires l.Valid()
    modifies l.Repr
    ensures l.Valid() && fresh(l.Repr - old(l.Repr))
    ensures l.Contents() == old(l.Contents()) + Image(l.hash, f, values)
  {
    var k := 0;
    while k < |values|
      invariant l.Valid() && fresh(l.Repr - old(l.Repr)) && k <= |values|
      invariant l.Contents() == old(l.Contents()) + PrefixImage(l.hash, f, values, k)
    {
      var _ := l.Add(f(values[k]));
      PrefixImageStep(l.hash, f, values, k);
      k := k + 1;
    }
    PrefixImageAll(l.hash, f, values);
  }

  /** SetListTrans::transform: afterwards the set holds exactly the keys of
      f(v) for the items v it held before. */
  method Transform(l: SetList, f: string -> string)
    requires l.Valid()
    modifies l.Repr
    ensures l.Valid() && fresh(l.Repr - old(l.Repr))
    ensures l.Contents() == Image(l.hash, f, old(l.Items()))
  {
    var values := Drain(l);
    AddEach(l, f, values);
  }
}
