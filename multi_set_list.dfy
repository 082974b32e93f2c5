/** The multiset variant of the lazy list in td8.cpp (class MultiSetList over
    MultiNode): one cell per distinct key, carrying how many copies of that key
    the multiset holds. Run by one thread, so every validation succeeds and
    each retry loop runs its body once. */
module MultiSetLists {
  import opened Sequences
  import opened Keys

  /** A list cell with a multiplicity counter. */
  class MultiNode {
    const item: string
    const key: Key
    var next: MultiNode?
    var multiplicity: nat

    /** MultiNode(s, n): one copy of s, under the key hash(s). */
    constructor (s: string, hash: Hasher, n: MultiNode?)
      ensures item == s && key == hash(s) && next == n && multiplicity == 1
    {
      item := s;
      key := hash(s);
      next := n;
      multiplicity := 1;
    }

    /** MultiNode(k): a sentinel with key k; its multiplicity is 1 as well. */
    constructor Sentinel(k: Key)
      ensures item == "" && key == k && next == null && multiplicity == 1
    {
      item := "";
      key := k;
      next := null;
      multiplicity := 1;
    }
  }

  /** MultiSetList::validate: both cells still counted and still adjacent. */
  predicate Validate(pred: MultiNode, curr: MultiNode)
    reads pred, curr
  {
    pred.multiplicity > 0 && curr.multiplicity > 0 && pred.next == curr
  }

  /** m copies of k. */
  function Copies(k: int, m: nat): (r: multiset<int>)
    ensures r[k] == m && forall x :: x != k ==> r[x] == 0
  {
    multiset{}[k := m]
  }

  /** The multiset in which each key ks[i] occurs ms[i] times, position by position. */
  ghost function All(ks: seq<int>, ms: seq<nat>): multiset<int>
    decreases |ks|
  {
    if |ks| == 0 || |ms| == 0 then multiset{}
    else All(ks[..|ks| - 1], ms[..|ms| - 1]) + Copies(ks[|ks| - 1], ms[|ms| - 1])
  }

  lemma AllSnoc(ks: seq<int>, ms: seq<nat>, k: int, m: nat)
    requires |ks| == |ms|
    ensures All(ks + [k], ms + [m]) == All(ks, ms) + Copies(k, m)
  {
    assert (ks + [k])[..|ks|] == ks && (ms + [m])[..|ms|] == ms;
  }

  /** A cell inserted anywhere adds its copies to the multiset. */
  lemma {:induction false} AllInsert(ks: seq<int>, ms: seq<nat>, p: nat, k: int, m: nat)
    requires |ks| == |ms| && p <= |ks|
    ensures All(Insert(ks, p, k), Insert(ms, p, m)) == All(ks, ms) + Copies(k, m)
    decreases |ks|
  {
    if p == |ks| {
      AllSnoc(ks, ms, k, m);
    } else {
      var n := |ks| - 1;
      AllInsert(ks[..n], ms[..n], p, k, m);
      AllSnoc(Insert(ks[..n], p, k), Insert(ms[..n], p, m), ks[n], ms[n]);
    }
  }

  /** A cell unlinked from anywhere takes its copies out of the multiset. */
  lemma {:induction false} AllDelete(ks: seq<int>, ms: seq<nat>, p: nat)
    requires |ks| == |ms| && p < |ks|
    ensures All(Delete(ks, p), Delete(ms, p)) + Copies(ks[p], ms[p]) == All(ks, ms)
    decreases |ks|
  {
    var n := |ks| - 1;
    if p < n {
      AllDelete(ks[..n], ms[..n], p);
      AllSnoc(Delete(ks[..n], p), Delete(ms[..n], p), ks[n], ms[n]);
      var d, r, last := All(Delete(ks[..n], p), Delete(ms[..n], p)), All(ks[..n], ms[..n]), Copies(ks[n], ms[n]);
      assert ks[..n][p] == ks[p] && ms[..n][p] == ms[p];
      forall x ensures (d + last + Copies(ks[p], ms[p]))[x] == (r + last)[x] {
        assert (d + Copies(ks[p], ms[p]))[x] == r[x];
      }
    }
  }

  /** Changing the counter of one cell from ms[p] to m changes only that key's copies. */
  lemma {:induction false} AllUpdate(ks: seq<int>, ms: seq<nat>, p: nat, m: nat)
    requires |ks| == |ms| && p < |ks|
    ensures All(ks, ms[p := m]) + Copies(ks[p], ms[p]) == All(ks, ms) + Copies(ks[p], m)
    decreases |ks|
  {
    var n := |ks| - 1;
    var ms' := ms[p := m];
    var last := Copies(ks[n], ms'[n]);
    var rest, rest' := All(ks[..n], ms[..n]), All(ks[..n], ms'[..n]);
    assert All(ks, ms') == rest' + last;
    if p < n {
      assert ms'[..n] == ms[..n][p := m];
      assert ks[..n][p] == ks[p] && ms[..n][p] == ms[p];
      AllUpdate(ks[..n], ms[..n], p, m);
      assert All(ks, ms) == rest + last;
      assert rest' + Copies(ks[p], ms[p]) == rest + Copies(ks[p], m);
      forall x ensures (rest' + last + Copies(ks[p], ms[p]))[x] == (rest + last + Copies(ks[p], m))[x] {
        assert (rest' + Copies(ks[p], ms[p]))[x] == (rest + Copies(ks[p], m))[x];
      }
    } else {
      assert ms'[..n] == ms[..n];
      assert All(ks, ms) == rest + Copies(ks[n], ms[n]);
    }
  }

  /** A key that no cell has occurs nowhere in the multiset. */
  lemma {:induction false} AllAbsent(ks: seq<int>, ms: seq<nat>, k: int)
    requires |ks| == |ms| && k !in ks
    ensures All(ks, ms)[k] == 0
    decreases |ks|
  {
    if |ks| > 0 {
      var n := |ks| - 1;
      assert ks[n] != k;
      assert k !in ks[..n] by {
        forall j | 0 <= j < n ensures ks[..n][j] != k {
          assert ks[..n][j] == ks[j];
        }
      }
      AllAbsent(ks[..n], ms[..n], k);
    }
  }

  /** In a list with strictly increasing keys, the key at position p occurs
      exactly as often as its counter says. */
  lemma {:induction false} AllAt(ks: seq<int>, ms: seq<nat>, p: nat)
    requires |ks| == |ms| && p < |ks| && Increasing(ks)
    ensures All(ks, ms)[ks[p]] == ms[p]
    decreases |ks|
  {
    var n := |ks| - 1;
    assert Increasing(ks[..n]) by {
      forall a, b | 0 <= a < b < n ensures ks[..n][a] < ks[..n][b] {
        assert ks[..n][a] == ks[a] && ks[..n][b] == ks[b];
      }
    }
    if p == n {
      assert ks[p] !in ks[..n] by {
        forall j | 0 <= j < n ensures ks[..n][j] != ks[p] {
          assert ks[..n][j] == ks[j] < ks[p];
        }
      }
      AllAbsent(ks[..n], ms[..n], ks[p]);
    } else {
      assert ks[..n][p] == ks[p] && ks[p] < ks[n];
      AllAt(ks[..n], ms[..n], p);
    }
  }

  /** The multiset a list with keys ks and counters ms stands for: All without
      the single copies the two sentinels carry. */
  ghost function Counted(ks: seq<int>, ms: seq<nat>): multiset<int>
  {
    All(ks, ms) - multiset{LOWEST_KEY, LARGEST_KEY}
  }

  /** A new list holds nothing: the two sentinels are all its cells. */
  lemma CountedSentinels()
    ensures Counted([LOWEST_KEY, LARGEST_KEY], [1, 1]) == multiset{}
  {
    assert [LOWEST_KEY, LARGEST_KEY][..1] == [LOWEST_KEY] && [1, 1][..1] == [1];
    assert All([LOWEST_KEY], [1]) == Copies(LOWEST_KEY, 1) by {
      assert [LOWEST_KEY][..0] == [] && [1][..0] == [];
    }
    var a := All([LOWEST_KEY, LARGEST_KEY], [1, 1]);
    assert a == Copies(LOWEST_KEY, 1) + Copies(LARGEST_KEY, 1);
    assert forall x :: (a - multiset{LOWEST_KEY, LARGEST_KEY})[x] == 0;
  }

  /** Adding or removing a copy of an element's key commutes with taking the
      sentinels' copies out. */
  lemma WithoutSentinels(a: multiset<int>, k: ItemKey)
    ensures (a + multiset{k}) - multiset{LOWEST_KEY, LARGEST_KEY} ==
            (a - multiset{LOWEST_KEY, LARGEST_KEY}) + multiset{k}
    ensures (a - multiset{k}) - multiset{LOWEST_KEY, LARGEST_KEY} ==
            (a - multiset{LOWEST_KEY, LARGEST_KEY}) - multiset{k}
  {
    var s := multiset{LOWEST_KEY, LARGEST_KEY};
    assert forall x :: ((a + multiset{k}) - s)[x] == ((a - s) + multiset{k})[x];
    assert forall x :: ((a - multiset{k}) - s)[x] == ((a - s) - multiset{k})[x];
  }

  /** ++ on one counter adds one copy of that cell's key. */
  lemma AllBump(ks: seq<int>, ms: seq<nat>, p: nat)
    requires |ks| == |ms| && p < |ks|
    ensures All(ks, ms[p := ms[p] + 1]) == All(ks, ms) + multiset{ks[p]}
  {
    AllUpdate(ks, ms, p, ms[p] + 1);
    var a, a' := All(ks, ms), All(ks, ms[p := ms[p] + 1]);
    forall x ensures a'[x] == (a + multiset{ks[p]})[x] {
      assert (a' + Copies(ks[p], ms[p]))[x] == (a + Copies(ks[p], ms[p] + 1))[x];
    }
  }

  /** -- on a counter above zero takes one copy of that cell's key away. */
  lemma AllDrop(ks: seq<int>, ms: seq<nat>, p: nat)
    requires |ks| == |ms| && p < |ks| && ms[p] > 0
    ensures All(ks, ms[p := ms[p] - 1]) == All(ks, ms) - multiset{ks[p]}
  {
    AllUpdate(ks, ms, p, ms[p] - 1);
    var a, a' := All(ks, ms), All(ks, ms[p := ms[p] - 1]);
    forall x ensures a'[x] == (a - multiset{ks[p]})[x] {
      assert (a' + Copies(ks[p], ms[p]))[x] == (a + Copies(ks[p], ms[p] - 1))[x];
      if x == ks[p] {
        assert a'[x] + ms[p] == a[x] + ms[p] - 1;
      } else {
        assert a'[x] == a[x];
      }
    }
  }

  /** ++ on the counter of an element's cell adds one copy of its key. */
  lemma CountedBump(ks: seq<int>, ms: seq<nat>, p: nat)
    requires |ks| == |ms| && p < |ks| && LOWEST_KEY < ks[p] < LARGEST_KEY
    ensures Counted(ks, ms[p := ms[p] + 1]) == Counted(ks, ms) + multiset{ks[p]}
  {
    AllBump(ks, ms, p);
    WithoutSentinels(All(ks, ms), ks[p]);
  }

  /** -- on a counter above zero takes one copy of its key away. */
  lemma CountedDrop(ks: seq<int>, ms: seq<nat>, p: nat)
    requires |ks| == |ms| && p < |ks| && ms[p] > 0 && LOWEST_KEY < ks[p] < LARGEST_KEY
    ensures Counted(ks, ms[p := ms[p] - 1]) == Counted(ks, ms) - multiset{ks[p]}
  {
    AllDrop(ks, ms, p);
    WithoutSentinels(All(ks, ms), ks[p]);
  }

  /** Linking a new cell for key k with counter 1 adds one copy of k. */
  lemma CountedInsert(ks: seq<int>, ms: seq<nat>, p: nat, k: ItemKey)
    requires |ks| == |ms| && p <= |ks|
    ensures Counted(Insert(ks, p, k), Insert(ms, p, 1)) == Counted(ks, ms) + multiset{k}
  {
    AllInsert(ks, ms, p, k, 1);
    assert Copies(k, 1) == multiset{k};
    WithoutSentinels(All(ks, ms), k);
  }

  /** Unlinking a cell whose counter is 1 takes the one copy of its key away. */
  lemma CountedDelete(ks: seq<int>, ms: seq<nat>, p: nat)
    requires |ks| == |ms| && p < |ks| && ms[p] == 1 && LOWEST_KEY < ks[p] < LARGEST_KEY
    ensures Counted(Delete(ks, p), Delete(ms, p)) == Counted(ks, ms) - multiset{ks[p]}
  {
    AllDelete(ks, ms, p);
    var a, a' := All(ks, ms), All(Delete(ks, p), Delete(ms, p));
    assert Copies(ks[p], 1) == multiset{ks[p]};
    assert a' == a - multiset{ks[p]};
    WithoutSentinels(a, ks[p]);
  }

  class MultiSetList {
    const hash: Hasher
    const head: MultiNode
    /** The chain of cells reachable from head, sentinels included. */
    ghost var nodes: seq<MultiNode>
    /** Their keys and multiplicities, in list order. */
    ghost var keys: seq<int>
    ghost var mults: seq<nat>
    ghost var Repr: set<object>

    ghost predicate Valid()
      reads this, Repr
      ensures Valid() ==> this in Repr
    {
      this in Repr &&
      |nodes| == |keys| == |mults| && Bracketed(keys) &&
      mults[0] == 1 && mults[|mults| - 1] == 1 &&
      (forall i :: 0 <= i < |nodes| ==> nodes[i] in Repr) &&
      nodes[0] == head &&
      (forall i :: 0 <= i < |nodes| ==>
         nodes[i].key == keys[i] && nodes[i].multiplicity == mults[i] && mults[i] > 0) &&
      (forall i :: 0 <= i < |nodes| - 1 ==> nodes[i].next == nodes[i + 1]) &&
      nodes[|nodes| - 1].next == null
    }

    /** The multiset the list stands for: every cell's key as many times as
        its counter says, without the two sentinels' single copies. */
    ghost function Bag(): multiset<int>
      reads this
    {
      Counted(keys, mults)
    }

    /** MultiSetList(): head sentinel (key 0) linked to tail sentinel (key ULONG_MAX). */
    constructor (hash: Hasher)
      ensures Valid() && fresh(Repr)
      ensures this.hash == hash
      ensures keys == [LOWEST_KEY, LARGEST_KEY] && Bag() == multiset{}
    {
      this.hash := hash;
      var h := new MultiNode.Sentinel(LOWEST_KEY);
      var tail := new MultiNode.Sentinel(LARGEST_KEY);
      h.next := tail;
      head := h;
      nodes := [h, tail];
      keys := [LOWEST_KEY, LARGEST_KEY];
      mults := [1, 1];
      Repr := {this, h, tail};
      CountedSentinels();
    }

    /** validate on two cells of the list holds exactly when the second is
        the first one's successor: every cell of a valid list has a positive counter, so only adjacency decides. */
    lemma ValidateIffAdjacent(p: MultiNode, c: MultiNode)
      requires Valid() && p in nodes && c in nodes
      ensures Validate(p, c) <==> exists j :: 0 <= j < |nodes| - 1 && p == nodes[j] && c == nodes[j + 1]
    {
      if Validate(p, c) {
        var j :| 0 <= j < |nodes| && p == nodes[j];
        assert j < |nodes| - 1;
        assert c == nodes[j + 1];
      }
    }

    /** The traversal shared by add and remove: stops at the first key >= key;
        the pair found passes validation. */
    method Search(key: ItemKey) returns (pred: MultiNode, curr: MultiNode, ghost i: nat)
      requires Valid()
      ensures i < |nodes| - 1 && pred == nodes[i] && curr == nodes[i + 1]
      ensures pred.key < key <= curr.key
      ensures Validate(pred, curr)
    {
      pred := head;
      assert pred.next == nodes[1];
      curr := pred.next;
      i := 0;
      while curr.key < key
        invariant i < |nodes| - 1 && pred == nodes[i] && curr == nodes[i + 1]
        invariant pred.key < key
        decreases |nodes| - i
      {
        assert i + 1 < |nodes| - 1 && curr.next == nodes[i + 2];
        pred := curr;
        curr := curr.next;
        i := i + 1;
      }
    }

    /** MultiSetList::add: one more copy of val, either by counting it on the
        cell that already has its key or by linking a new cell with count 1. */
    method Add(val: string)
      requires Valid()
      modifies Repr
      ensures Valid() && fresh(Repr - old(Repr))
      ensures Bag() == old(Bag()) + multiset{hash(val)}
      ensures hash(val) in old(Bag()) ==> nodes == old(nodes)
      ensures hash(val) !in old(Bag()) ==> exists i :: InsertedAt(old(nodes), nodes, i)
    {
      var key := hash(val);
      var pred, curr, i := Search(key);
      Holds(i, key);
      if key == curr.key {
        CountUp(curr, i + 1);
      } else {
        AddCell(pred, curr, val, i);
      }
    }

    /** The first branch of add: the key is there, so its counter goes up. */
    method CountUp(curr: MultiNode, ghost i: nat)
      requires Valid() && 0 < i < |nodes| - 1 && curr == nodes[i]
      modifies curr, this
      ensures Valid() && Repr == old(Repr) && nodes == old(nodes)
      ensures Bag() == old(Bag()) + multiset{curr.key}
    {
      ghost var ks, ms := keys, mults;
      Count(curr, i, 1);
      CountedBump(ks, ms, i);
    }

    /** The second branch of add: a new cell for val, with count 1, linked
        between pred and curr. */
    method AddCell(pred: MultiNode, curr: MultiNode, val: string, ghost i: nat)
      requires Valid() && i < |nodes| - 1 && pred == nodes[i] && curr == nodes[i + 1]
      requires pred.key < hash(val) < curr.key
      modifies this, pred
      ensures Valid() && fresh(Repr - old(Repr))
      ensures Bag() == old(Bag()) + multiset{hash(val)}
      ensures InsertedAt(old(nodes), nodes, i)
    {
      var node := new MultiNode(val, hash, curr);
      ghost var ns, ks, ms := nodes, keys, mults;
      LinkAfter(pred, node, i);
      assert nodes[i + 1] == node;
      CountedInsert(ks, ms, i + 1, node.key);
    }

    /** MultiSetList::remove: false when hash(val) is absent; otherwise true, and
        one copy fewer: the counter goes down, or the cell is unlinked when it
        held the last copy. */
    method Remove(val: string) returns (r: bool)
      requires Valid()
      modifies Repr
      ensures Valid() && Repr == old(Repr)
      ensures r <==> hash(val) in old(Bag())
      ensures Bag() == old(Bag()) - multiset{hash(val)}
      ensures old(Bag())[hash(val)] != 1 ==> nodes == old(nodes)
      ensures old(Bag())[hash(val)] == 1 ==> exists i :: RemovedAt(old(nodes), nodes, i)
      ensures !r ==> unchanged(Repr)
    {
      var key := hash(val);
      var pred, curr, i := Search(key);
      Holds(i, key);
      if key == curr.key {
        if curr.multiplicity > 1 {
          CountDown(curr, i + 1);
        } else {
          RemoveCell(pred, curr, i);
        }
        return true;
      }
      return false;
    }

    /** remove on a key with several copies: its counter goes down. */
    method CountDown(curr: MultiNode, ghost i: nat)
      requires Valid() && 0 < i < |nodes| - 1 && curr == nodes[i] && curr.multiplicity > 1
      modifies curr, this
      ensures Valid() && Repr == old(Repr) && nodes == old(nodes)
      ensures Bag() == old(Bag()) - multiset{curr.key}
    {
      ghost var ks, ms := keys, mults;
      Count(curr, i, -1);
      CountedDrop(ks, ms, i);
    }

    /** remove on a key with one copy left: its cell is unlinked. */
    method RemoveCell(pred: MultiNode, curr: MultiNode, ghost i: nat)
      requires Valid() && i + 1 < |nodes| - 1 && pred == nodes[i] && curr == nodes[i + 1]
      requires curr.multiplicity == 1
      modifies this, pred
      ensures Valid() && Repr == old(Repr)
      ensures Bag() == old(Bag()) - multiset{curr.key}
      ensures RemovedAt(old(nodes), nodes, i + 1)
    {
      ghost var ks, ms := keys, mults;
      Unlink(pred, curr, i);
      CountedDelete(ks, ms, i + 1);
    }

    /** MultiSetList::contains: the multiplicity of hash(val), 0 when absent. */
    method Contains(val: string) returns (r: nat)
      requires Valid()
      ensures r == Bag()[hash(val)]
    {
      var key := hash(val);
      var curr := head;
      ghost var i := 0;
      while curr.key < key
        invariant i < |nodes| && curr == nodes[i]
        invariant i == 0 || keys[i - 1] < key
        decreases |nodes| - i
      {
        curr := curr.next;
        i := i + 1;
      }
      Holds(i - 1, key);
      if curr.key == key {
        return curr.multiplicity;
      }
      return 0;
    }

    /** Where a traversal for key stops (between positions i and i + 1), the
        multiset holds key exactly as often as the counter at i + 1 when that
        cell has the key, and not at all otherwise. */
    lemma Holds(i: nat, key: ItemKey)
      requires Valid() && i < |keys| - 1 && keys[i] < key <= keys[i + 1]
      ensures Bag()[key] == if key == keys[i + 1] then mults[i + 1] else 0
      ensures key == keys[i + 1] ==> 0 < i + 1 < |keys| - 1
    {
      Locate(keys, i, key);
      if key == keys[i + 1] {
        AllAt(keys, mults, i + 1);
      } else {
        forall j | 0 <= j < |keys| ensures keys[j] != key {
          if 0 < j < |keys| - 1 {
            assert keys[j] in Elements(keys);
          }
        }
        AllAbsent(keys, mults, key);
      }
    }

    /** The counting step of add (d = 1) and remove (d = -1): ++ or -- on the
        multiplicity of the cell at position i; a decrement only from above 1. */
    method Count(curr: MultiNode, ghost i: nat, d: int)
      requires Valid() && 0 < i < |nodes| - 1 && curr == nodes[i]
      requires d == 1 || (d == -1 && curr.multiplicity > 1)
      modifies curr, this
      ensures Valid() && Repr == old(Repr) && nodes == old(nodes) && keys == old(keys)
      ensures mults == old(mults)[i := old(mults)[i] + d]
    {
      curr.multiplicity := curr.multiplicity + d;
      mults := mults[i := mults[i] + d];
      forall j | 0 <= j < |nodes|
        ensures nodes[j].multiplicity == mults[j]
      {
        if j != i {
          assert nodes[j].key == keys[j] != keys[i] == curr.key;
          assert nodes[j].multiplicity == old(nodes[j].multiplicity);
        }
      }
    }

    /** The linking step of add: pred.next := node, where node is a new cell
        with count 1 whose successor is already pred's successor. */
    method LinkAfter(pred: MultiNode, node: MultiNode, ghost i: nat)
      requires Valid()
      requires i < |nodes| - 1 && pred == nodes[i] && node !in Repr
      requires node.next == nodes[i + 1] && node.multiplicity == 1
      requires keys[i] < node.key < keys[i + 1]
      modifies this, pred
      ensures Valid() && Repr == old(Repr) + {node}
      ensures nodes == Insert(old(nodes), i + 1, node)
      ensures keys == Insert(old(keys), i + 1, node.key)
      ensures mults == Insert(old(mults), i + 1, 1)
    {
      pred.next := node;
      ghost var ns, ks, ms := nodes, keys, mults;
      nodes := Insert(ns, i + 1, node);
      keys := Insert(ks, i + 1, node.key);
      mults := Insert(ms, i + 1, 1);
      Repr := Repr + {node};
      forall j | 0 <= j < |nodes|
        ensures nodes[j] in Repr && nodes[j].key == keys[j] &&
                nodes[j].multiplicity == mults[j] && mults[j] > 0
      {
      }
      forall j | 0 <= j < |nodes| - 1
        ensures nodes[j].next == nodes[j + 1]
      {
        if j < i {
          assert nodes[j] == ns[j] && nodes[j + 1] == ns[j + 1];
          assert ns[j].key == ks[j] < ks[i] == pred.key;
          assert ns[j].next == old(ns[j].next);
        } else if j > i + 1 {
          assert nodes[j] == ns[j - 1] && nodes[j + 1] == ns[j];
          assert ns[j - 1].key == ks[j - 1] > ks[i] == pred.key;
          assert ns[j - 1].next == old(ns[j - 1].next);
        }
      }
      assert nodes[|nodes| - 1] == ns[|ns| - 1] && ns[|ns| - 1].key == ks[|ks| - 1] > ks[i];
      assert ns[|ns| - 1].next == old(ns[|ns| - 1].next) == null;
      assert nodes[|nodes| - 1].next == null;
      InsertBracketed(ks, i, node.key);
    }

    /** The unlinking step of remove for a cell holding the last copy:
        pred.next := curr.next (this list does not mark the cell). */
    method Unlink(pred: MultiNode, curr: MultiNode, ghost i: nat)
      requires Valid()
      requires i + 1 < |nodes| - 1 && pred == nodes[i] && curr == nodes[i + 1]
      requires curr.multiplicity == 1
      modifies this, pred
      ensures Valid() && Repr == old(Repr)
      ensures nodes == Delete(old(nodes), i + 1)
      ensures keys == Delete(old(keys), i + 1)
      ensures mults == Delete(old(mults), i + 1)
    {
      pred.next := curr.next;
      ghost var ns, ks, ms := nodes, keys, mults;
      nodes := Delete(ns, i + 1);
      keys := Delete(ks, i + 1);
      mults := Delete(ms, i + 1);
      forall j | 0 <= j < |nodes|
        ensures nodes[j] in Repr && nodes[j].key == keys[j] &&
                nodes[j].multiplicity == mults[j] && mults[j] > 0
      {
        if j <= i {
          assert nodes[j] == ns[j];
        } else {
          assert nodes[j] == ns[j + 1];
        }
      }
      forall j | 0 <= j < |nodes| - 1
        ensures nodes[j].next == nodes[j + 1]
      {
        if j < i {
          assert nodes[j] == ns[j] && nodes[j + 1] == ns[j + 1];
          assert ns[j].key == ks[j] < ks[i] == pred.key;
          assert ns[j].next == old(ns[j].next);
        } else if j > i {
          assert nodes[j] == ns[j + 1] && nodes[j + 1] == ns[j + 2];
          assert ns[j + 1].key == ks[j + 1] > ks[i] == pred.key;
          assert ns[j + 1].next == old(ns[j + 1].next);
        } else {
          assert nodes[j + 1] == ns[i + 2] == old(curr.next);
        }
      }
      assert nodes[|nodes| - 1] == ns[|ns| - 1] && ns[|ns| - 1].key == ks[|ks| - 1] > ks[i];
      assert ns[|ns| - 1].next == old(ns[|ns| - 1].next) == null;
      assert nodes[|nodes| - 1].next == null;
      DeleteBracketed(ks, i + 1);
    }
  }

  /** The bookkeeping promise of the multiset list: after n adds and m <= n
      removes of the same value on a new list, contains reports n - m. */
  method AddsThenRemoves(hash: Hasher, val: string, n: nat, m: nat) returns (c: nat)
    requires m <= n
    ensures c == n - m
  {
    var l := new MultiSetList(hash);
    var k := 0;
    while k < n
      invariant l.Valid() && fresh(l.Repr) && k <= n
      invariant l.Bag()[hash(val)] == k
    {
      l.Add(val);
      k := k + 1;
    }
    k := 0;
    while k < m
      invariant l.Valid() && fresh(l.Repr) && k <= m
      invariant l.Bag()[hash(val)] == n - k
    {
      var _ := l.Remove(val);
      k := k + 1;
    }
    c := l.Contains(val);
  }
}
