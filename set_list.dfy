/** The lazy sorted linked-list set of td8.cpp (class SetList over Node),
    run by one thread: locks are dropped, and since nothing else writes to the
    list, the validation after each traversal always succeeds, so each
    `while (true)` retry loop of the source runs its body exactly once. */
module SetLists {
  import opened Sequences
  import opened Keys

  /** A list cell: item and key never change after construction. */
  class Node {
    const item: string
    const key: Key
    var next: Node?
    var marked: bool

    /** Node(s, n): holds s under the key hash(s). */
    constructor (s: string, hash: Hasher, n: Node?)
      ensures item == s && key == hash(s) && next == n && !marked
    {
      item := s;
      key := hash(s);
      next := n;
      marked := false;
    }

    /** Node(k): a sentinel with key k, an empty item and no successor. */
    constructor Sentinel(k: Key)
      ensures item == "" && key == k && next == null && !marked
    {
      item := "";
      key := k;
      next := null;
      marked := false;
    }
  }

  /** SetList::validate: neither node is logically deleted and they are still adjacent. */
  predicate Validate(pred: Node, curr: Node)
    reads pred, curr
  {
    !pred.marked && !curr.marked && pred.next == curr
  }

  /** The items of the cells strictly between the first and the last of ns. */
  function ItemsOf(ns: seq<Node>): (r: seq<string>)
    ensures |r| == if |ns| < 2 then 0 else |ns| - 2
    ensures forall j :: 0 <= j < |r| ==> r[j] == ns[j + 1].item
  {
    if |ns| < 2 then [] else seq(|ns| - 2, j requires 0 <= j < |ns| - 2 => ns[j + 1].item)
  }

  /** Unlinking the first cell after the head takes the first item off. */
  lemma ItemsOfDeleteFirst(ns: seq<Node>)
    requires |ns| > 2
    ensures ItemsOf(ns) == [ns[1].item] + ItemsOf(Delete(ns, 1))
  {
    var a, b := ItemsOf(ns), [ns[1].item] + ItemsOf(Delete(ns, 1));
    forall j | 0 <= j < |a| ensures a[j] == b[j] {
      if j > 0 {
        assert b[j] == ItemsOf(Delete(ns, 1))[j - 1] == Delete(ns, 1)[j].item;
      }
    }
  }

  class SetList {
    const hash: Hasher
    const head: Node
    /** The chain of cells reachable from head, head and tail sentinels included. */
    ghost var nodes: seq<Node>
    /** The keys of those cells, in list order. */
    ghost var keys: seq<int>
    ghost var Repr: set<object>

    ghost predicate Valid()
      reads this, Repr
      ensures Valid() ==> this in Repr
    {
      this in Repr &&
      |nodes| == |keys| && Bracketed(keys) &&
      (forall i :: 0 <= i < |nodes| ==> nodes[i] in Repr) &&
      nodes[0] == head &&
      (forall i :: 0 <= i < |nodes| ==> nodes[i].key == keys[i] && !nodes[i].marked) &&
      (forall i :: 0 <= i < |nodes| - 1 ==> nodes[i].next == nodes[i + 1]) &&
      nodes[|nodes| - 1].next == null
    }

    /** The keys in the set. */
    ghost function Contents(): set<int>
      reads this
    {
      Elements(keys)
    }

    /** The items of the cells between the sentinels, in ascending key order. */
    ghost function Items(): seq<string>
      reads this
    {
      ItemsOf(nodes)
    }

    /** SetList(): head sentinel (key 0) linked to tail sentinel (key ULONG_MAX). */
    constructor (hash: Hasher)
      ensures Valid() && fresh(Repr)
      ensures this.hash == hash
      ensures keys == [LOWEST_KEY, LARGEST_KEY] && Contents() == {}
    {
      this.hash := hash;
      var h := new Node.Sentinel(LOWEST_KEY);
      var tail := new Node.Sentinel(LARGEST_KEY);
      h.next := tail;
      head := h;
      nodes := [h, tail];
      keys := [LOWEST_KEY, LARGEST_KEY];
      Repr := {this, h, tail};
    }

    /** validate on two cells of the list holds exactly when the second is
        the first one's successor: no cell of a valid list is marked, so only adjacency decides. */
    lemma ValidateIffAdjacent(p: Node, c: Node)
      requires Valid() && p in nodes && c in nodes
      ensures Validate(p, c) <==> exists j :: 0 <= j < |nodes| - 1 && p == nodes[j] && c == nodes[j + 1]
    {
      if Validate(p, c) {
        var j :| 0 <= j < |nodes| && p == nodes[j];
        assert j < |nodes| - 1;
        assert c == nodes[j + 1];
      }
    }

    /** The traversal that add and remove share (td7.cpp calls it `search`):
        stops at the first key >= key; the pair found passes validation. */
    method Search(key: ItemKey) returns (pred: Node, curr: Node, ghost i: nat)
      requires Valid()
      ensures i < |nodes| - 1 && pred == nodes[i] && curr == nodes[i + 1]
      ensures pred.key < key <= curr.key
      ensures Validate(pred, curr)
      ensures key in Contents() <==> key == curr.key
    {
      pred := head;
      assert pred.next == nodes[1];
      curr := pred.next;
      i := 0;
      while curr.key < key
        invariant i < |nodes| - 1 && pred == nodes[i] && curr == nodes[i + 1]
        invariant pred.key < key
        decreases |nodes| - i
      {
        assert i + 1 < |nodes| - 1 && curr.next == nodes[i + 2];
        pred := curr;
        curr := curr.next;
        i := i + 1;
      }
      Locate(keys, i, key);
    }

    /** SetList::add: false, with nothing changed, when hash(val) is present;
        otherwise links one fresh cell holding val between pred and curr. */
    method Add(val: string) returns (r: bool)
      requires Valid()
      modifies Repr
      ensures Valid() && fresh(Repr - old(Repr))
      ensures r <==> hash(val) !in old(Contents())
      ensures Contents() == old(Contents()) + {hash(val)}
      ensures !r ==> Repr == old(Repr) && unchanged(Repr)
      ensures r ==> exists i :: InsertedAt(old(nodes), nodes, i) &&
                             fresh(nodes[i + 1]) && nodes[i + 1].item == val
    {
      var key := hash(val);
      var pred, curr, i := Search(key);
      if key == curr.key {
        return false;
      }
      var _ := AddCell(pred, curr, val, i);
      r := true;
    }

    /** The insertion branch of add: a new cell holding val, linked between
        pred and curr, where its key fits. */
    method AddCell(pred: Node, curr: Node, val: string, ghost i: nat) returns (node: Node)
      requires Valid() && i < |nodes| - 1 && pred == nodes[i] && curr == nodes[i + 1]
      requires pred.key < hash(val) < curr.key
      modifies this, pred
      ensures Valid() && fresh(node) && Repr == old(Repr) + {node}
      ensures Contents() == old(Contents()) + {hash(val)}
      ensures InsertedAt(old(nodes), nodes, i) && nodes[i + 1] == node && node.item == val
    {
      node := new Node(val, hash, curr);
      ghost var ns, ks := nodes, keys;
      LinkAfter(pred, node, i);
      assert nodes[i + 1] == node;
      InsertElements(ks, i, node.key);
    }

    /** The linking step of add: pred.next := node, where node is a new cell
        whose successor is already pred's successor. */
    method LinkAfter(pred: Node, node: Node, ghost i: nat)
      requires Valid()
      requires i < |nodes| - 1 && pred == nodes[i] && node !in Repr
      requires node.next == nodes[i + 1] && !node.marked
      requires keys[i] < node.key < keys[i + 1]
      modifies this, pred
      ensures Valid() && Repr == old(Repr) + {node}
      ensures nodes == Insert(old(nodes), i + 1, node)
      ensures keys == Insert(old(keys), i + 1, node.key)
    {
      pred.next := node;
      ghost var ns, ks := nodes, keys;
      nodes := Insert(ns, i + 1, node);
      keys := Insert(ks, i + 1, node.key);
      Repr := Repr + {node};
      forall j | 0 <= j < |nodes|
        ensures nodes[j] in Repr && nodes[j].key == keys[j] && !nodes[j].marked
      {
      }
      forall j | 0 <= j < |nodes| - 1
        ensures nodes[j].next == nodes[j + 1]
      {
        if j < i {
          assert nodes[j] == ns[j] && nodes[j + 1] == ns[j + 1];
          assert ns[j].key == ks[j] < ks[i] == pred.key;
          assert ns[j].next == old(ns[j].next);
        } else if j > i + 1 {
          assert nodes[j] == ns[j - 1] && nodes[j + 1] == ns[j];
          assert ns[j - 1].key == ks[j - 1] > ks[i] == pred.key;
          assert ns[j - 1].next == old(ns[j - 1].next);
        }
      }
      assert nodes[|nodes| - 1] == ns[|ns| - 1] && ns[|ns| - 1].key == ks[|ks| - 1] > ks[i];
      assert ns[|ns| - 1].next == old(ns[|ns| - 1].next) == null;
      assert nodes[|nodes| - 1].next == null;
      InsertBracketed(ks, i, node.key);
    }

    /** SetList::remove: when hash(val) is present, marks its cell and unlinks it;
        otherwise false with nothing changed. */
    method Remove(val: string) returns (r: bool)
      requires Valid()
      modifies Repr
      ensures Valid() && Repr == old(Repr)
      ensures r <==> hash(val) in old(Contents())
      ensures Contents() == old(Contents()) - {hash(val)}
      ensures !r ==> unchanged(Repr)
      ensures r ==> |nodes| == |old(nodes)| - 1
      ensures r ==> exists i :: RemovedAt(old(nodes), nodes, i) &&
                             old(nodes)[i].key == hash(val) && old(nodes)[i].marked
    {
      var key := hash(val);
      var pred, curr, i := Search(key);
      Locate(keys, i, key);
      if key == curr.key {
        ghost var ns, ks := nodes, keys;
        Unlink(pred, curr, i);
        assert RemovedAt(ns, nodes, i + 1);
        DeleteElements(ks, i + 1);
        Retire(curr);
        return true;
      }
      r := false;
    }

    /** The unlinking step of remove (and of transform in td7.cpp): links pred
        past its successor curr. */
    method Unlink(pred: Node, curr: Node, ghost i: nat)
      requires Valid()
      requires i + 1 < |nodes| - 1 && pred == nodes[i] && curr == nodes[i + 1]
      modifies this, pred
      ensures Valid() && Repr == old(Repr)
      ensures nodes == Delete(old(nodes), i + 1)
      ensures keys == Delete(old(keys), i + 1)
    {
      pred.next := curr.next;
      ghost var ns, ks := nodes, keys;
      nodes := Delete(ns, i + 1);
      keys := Delete(ks, i + 1);
      forall j | 0 <= j < |nodes|
        ensures nodes[j] in Repr && nodes[j].key == keys[j] && !nodes[j].marked
      {
        if j <= i {
          assert nodes[j] == ns[j] && ns[j].key == ks[j] < ks[i + 1] == curr.key;
          assert ns[j].marked == old(ns[j].marked);
        } else {
          assert nodes[j] == ns[j + 1] && ns[j + 1].key == ks[j + 1] > ks[i + 1] == curr.key;
          assert ns[j + 1].marked == old(ns[j + 1].marked);
        }
      }
      forall j | 0 <= j < |nodes| - 1
        ensures nodes[j].next == nodes[j + 1]
      {
        if j < i {
          assert nodes[j] == ns[j] && nodes[j + 1] == ns[j + 1];
          assert ns[j].key == ks[j] < ks[i] == pred.key;
          assert ns[j].next == old(ns[j].next);
        } else if j > i {
          assert nodes[j] == ns[j + 1] && nodes[j + 1] == ns[j + 2];
          assert ns[j + 1].key == ks[j + 1] > ks[i] == pred.key;
          assert ns[j + 1].next == old(ns[j + 1].next);
        } else {
          assert nodes[j + 1] == ns[i + 2] == old(curr.next);
        }
      }
      assert nodes[|nodes| - 1] == ns[|ns| - 1] && ns[|ns| - 1].key == ks[|ks| - 1] > ks[i];
      assert ns[|ns| - 1].next == old(ns[|ns| - 1].next) == null;
      assert nodes[|nodes| - 1].next == null;
      DeleteBracketed(ks, i + 1);
    }

    /** The marking step of remove: curr, no longer in the list, is flagged as
        logically deleted. */
    method Retire(curr: Node)
      requires Valid() && curr.key !in keys
      modifies curr
      ensures Valid() && curr.marked
    {
      curr.marked := true;
      assert forall j :: 0 <= j < |nodes| ==> nodes[j] != curr by {
        forall j | 0 <= j < |nodes| ensures nodes[j] != curr {
          assert nodes[j].key == keys[j];
        }
      }
    }

    /** SetList::contains: true iff the traversal reaches an unmarked cell with key hash(val). */
    method Contains(val: string) returns (r: bool)
      requires Valid()
      ensures r <==> hash(val) in Contents()
    {
      var key := hash(val);
      var curr := head;
      ghost var i := 0;
      while curr.key < key
        invariant i < |nodes| && curr == nodes[i]
        invariant i == 0 || keys[i - 1] < key
        decreases |nodes| - i
      {
        curr := curr.next;
        i := i + 1;
      }
      Locate(keys, i - 1, key);
      r := curr.key == key && !curr.marked;
    }
  }

  /** On a new list, add(v) succeeds, after which contains(v) holds; remove(v)
      then succeeds, after which contains(v) no longer holds, and a second
      remove(v) fails. */
  method AddContainsRemove(hash: Hasher, val: string)
    returns (added: bool, found: bool, removed: bool, foundAfter: bool, removedAgain: bool)
    ensures added && found && removed && !foundAfter && !removedAgain
  {
    var l := new SetList(hash);
    added := l.Add(val);
    found := l.Contains(val);
    removed := l.Remove(val);
    foundAfter := l.Contains(val);
    removedAgain := l.Remove(val);
  }
}
