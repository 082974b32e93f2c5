/** The insert-only lock-free sorted list of td8.cpp (MonotonicLockFreeSet over
    AtomicNode), run by one thread. The compare-and-swap on pred.next always
    finds the successor the traversal saw, so the retry loop of add runs once. */
module LockFreeSets {
  import opened Sequences
  import opened Keys

  /** A list cell whose successor link is atomic. */
  class AtomicNode {
    const item: string
    const key: Key
    var next: AtomicNode?

    /** AtomicNode(s): holds s under the key hash(s), with no successor yet. */
    constructor (s: string, hash: Hasher)
      ensures item == s && key == hash(s) && next == null
    {
      item := s;
      key := hash(s);
      next := null;
    }

    /** AtomicNode(k): a sentinel with key k and an empty item. */
    constructor Sentinel(k: Key)
      ensures item == "" && key == k && next == null
    {
      item := "";
      key := k;
      next := null;
    }

    /** next.compare_exchange(expected, desired): stores desired exactly when
        next is still expected. */
    method CompareExchangeNext(expected: AtomicNode?, desired: AtomicNode?) returns (ok: bool)
      modifies this
      ensures ok <==> old(next) == expected
      ensures next == if ok then desired else old(next)
    {
      ok := next == expected;
      if ok {
        next := desired;
      }
    }
  }

  class MonotonicLockFreeSet {
    const hash: Hasher
    const head: AtomicNode
    /** The chain of cells reachable from head, sentinels included. */
    ghost var nodes: seq<AtomicNode>
    /** Their keys, in list order. */
    ghost var keys: seq<int>
    ghost var Repr: set<object>

    ghost predicate Valid()
      reads this, Repr
      ensures Valid() ==> this in Repr
    {
      this in Repr &&
      |nodes| == |keys| && Bracketed(keys) &&
      (forall i :: 0 <= i < |nodes| ==> nodes[i] in Repr) &&
      nodes[0] == head &&
      (forall i :: 0 <= i < |nodes| ==> nodes[i].key == keys[i]) &&
      (forall i :: 0 <= i < |nodes| - 1 ==> nodes[i].next == nodes[i + 1]) &&
      nodes[|nodes| - 1].next == null
    }

    /** The keys in the set. */
    ghost function Contents(): set<int>
      reads this
    {
      Elements(keys)
    }

    /** MonotonicLockFreeSet(): head sentinel (key 0) linked to tail sentinel (key ULONG_MAX). */
    constructor (hash: Hasher)
      ensures Valid() && fresh(Repr)
      ensures this.hash == hash
      ensures keys == [LOWEST_KEY, LARGEST_KEY] && Contents() == {}
    {
      this.hash := hash;
      var h := new AtomicNode.Sentinel(LOWEST_KEY);
      var tail := new AtomicNode.Sentinel(LARGEST_KEY);
      h.next := tail;
      head := h;
      nodes := [h, tail];
      keys := [LOWEST_KEY, LARGEST_KEY];
      Repr := {this, h, tail};
    }

    /** MonotonicLockFreeSet::add: the new cell is made first; false when
        hash(val) is already present, otherwise the cell is spliced in between
        pred and curr by a compare-and-swap on pred.next. */
    method Add(val: string) returns (r: bool)
      requires Valid()
      modifies Repr
      ensures Valid() && fresh(Repr - old(Repr))
      ensures r <==> hash(val) !in old(Contents())
      ensures Contents() == old(Contents()) + {hash(val)}
      ensures !r ==> Repr == old(Repr) && unchanged(Repr)
      ensures r ==> exists i :: InsertedAt(old(nodes), nodes, i) &&
                             fresh(nodes[i + 1]) && nodes[i + 1].item == val
    {
      var key := hash(val);
      var node := new AtomicNode(val, hash);
      var pred := head;
      assert pred.next == nodes[1];
      var curr := pred.next;
      ghost var i := 0;
      while curr.key < key
        invariant i < |nodes| - 1 && pred == nodes[i] && curr == nodes[i + 1]
        invariant pred.key < key
        decreases |nodes| - i
      {
        assert i + 1 < |nodes| - 1 && curr.next == nodes[i + 2];
        pred := curr;
        curr := curr.next;
        i := i + 1;
      }
      Locate(keys, i, key);
      if curr.key == key {
        return false;
      }
      node.next := curr;
      ghost var ns, ks := nodes, keys;
      r := Splice(pred, curr, node, i);
      assert nodes[i + 1] == node && InsertedAt(ns, nodes, i);
      InsertElements(ks, i, key);
    }

    /** The compare-and-swap of add: pred.next goes from curr to node, whose
        successor is already curr; with no other writer it succeeds. */
    method Splice(pred: AtomicNode, curr: AtomicNode, node: AtomicNode, ghost i: nat) returns (ok: bool)
      requires Valid()
      requires i < |nodes| - 1 && pred == nodes[i] && curr == nodes[i + 1] && node !in Repr
      requires node.next == curr && keys[i] < node.key < keys[i + 1]
      modifies this, pred
      ensures ok
      ensures Valid() && Repr == old(Repr) + {node}
      ensures nodes == Insert(old(nodes), i + 1, node)
      ensures keys == Insert(old(keys), i + 1, node.key)
    {
      ok := pred.CompareExchangeNext(curr, node);
      ghost var ns, ks := nodes, keys;
      nodes := Insert(ns, i + 1, node);
      keys := Insert(ks, i + 1, node.key);
      Repr := Repr + {node};
      forall j | 0 <= j < |nodes|
        ensures nodes[j] in Repr && nodes[j].key == keys[j]
      {
      }
      forall j | 0 <= j < |nodes| - 1
        ensures nodes[j].next == nodes[j + 1]
      {
        if j < i {
          assert nodes[j] == ns[j] && nodes[j + 1] == ns[j + 1];
          assert ns[j].key == ks[j] < ks[i] == pred.key;
          assert ns[j].next == old(ns[j].next);
        } else if j > i + 1 {
          assert nodes[j] == ns[j - 1] && nodes[j + 1] == ns[j];
          assert ns[j - 1].key == ks[j - 1] > ks[i] == pred.key;
          assert ns[j - 1].next == old(ns[j - 1].next);
        }
      }
      assert nodes[|nodes| - 1] == ns[|ns| - 1] && ns[|ns| - 1].key == ks[|ks| - 1] > ks[i];
      assert ns[|ns| - 1].next == old(ns[|ns| - 1].next) == null;
      assert nodes[|nodes| - 1].next == null;
      InsertBracketed(ks, i, node.key);
    }

    /** MonotonicLockFreeSet::contains: the traversal starts after the head
        sentinel and reports whether it stops on the key hash(val). */
    method Contains(val: string) returns (r: bool)
      requires Valid()
      ensures r <==> hash(val) in Contents()
    {
      var key := hash(val);
      assert head.next == nodes[1];
      var curr := head.next;
      ghost var i := 1;
      while curr.key < key
        invariant 0 < i < |nodes| && curr == nodes[i]
        invariant keys[i - 1] < key
        decreases |nodes| - i
      {
        curr := curr.next;
        i := i + 1;
      }
      Locate(keys, i - 1, key);
      r := curr.key == key;
    }
  }

  /** The set only grows: after adding vals in order to a new set, each of
      them is still there, whatever was added after it. */
  method AddAll(hash: Hasher, vals: seq<string>) returns (s: MonotonicLockFreeSet)
    ensures s.Valid()
    ensures s.Contents() == set v | v in vals :: hash(v)
  {
    s := new MonotonicLockFreeSet(hash);
    var k := 0;
    while k < |vals|
      invariant s.Valid() && fresh(s.Repr) && k <= |vals|
      invariant s.Contents() == set v | v in vals[..k] :: hash(v)
    {
      var _ := s.Add(vals[k]);
      assert vals[..k + 1] == vals[..k] + [vals[k]];
      k := k + 1;
    }
    assert vals[..k] == vals;
  }
}
