/** Keys of the sorted linked-list sets: the two sentinel keys, the range the
    element hash is assumed to fall in, and facts about strictly increasing key
    sequences that run from the head sentinel to the tail sentinel. */
module Keys {
  import opened Sequences

  /** Key of the head sentinel (LOWEST_KEY). */
  const LOWEST_KEY: int := 0
  /** Key of the tail sentinel (LARGEST_KEY = ULONG_MAX, 64 bits). */
  const LARGEST_KEY: int := 0xFFFF_FFFF_FFFF_FFFF

  /** An `unsigned long` key. */
  type Key = k: int | LOWEST_KEY <= k <= LARGEST_KEY

  /** A key of a real element: strictly between the two sentinel keys. */
  type ItemKey = k: int | LOWEST_KEY < k < LARGEST_KEY witness 1

  /** std::hash<std::string>, a library function the model does not see: any
      function whose values lie strictly between the sentinel keys. */
  type Hasher = string -> ItemKey

  ghost predicate Increasing(ks: seq<int>)
  {
    forall i, j :: 0 <= i < j < |ks| ==> ks[i] < ks[j]
  }

  /** The key sequence of a list: head sentinel, strictly increasing keys, tail sentinel. */
  ghost predicate Bracketed(ks: seq<int>)
  {
    |ks| >= 2 && ks[0] == LOWEST_KEY && ks[|ks| - 1] == LARGEST_KEY && Increasing(ks)
  }

  /** The keys held between the two sentinels. */
  ghost function Elements(ks: seq<int>): set<int>
  {
    set i | 0 < i < |ks| - 1 :: ks[i]
  }

  /** Where a traversal that stops at the first key >= k ends, k is present iff
      it is the key there; a present key is never a sentinel's position. */
  lemma Locate(ks: seq<int>, i: nat, k: ItemKey)
    requires Bracketed(ks) && i < |ks| - 1 && ks[i] < k <= ks[i + 1]
    ensures k in Elements(ks) <==> k == ks[i + 1]
    ensures k == ks[i + 1] ==> 0 < i + 1 < |ks| - 1
  {
    assert forall j :: 0 <= j <= i ==> ks[j] < k by {
      forall j | 0 <= j < i ensures ks[j] < ks[i] { }
    }
    assert forall j :: i + 1 < j < |ks| ==> k < ks[j];
    if k == ks[i + 1] {
      assert i + 1 != |ks| - 1;
      assert ks[i + 1] in Elements(ks);
    }
  }

  /** Linking key k between positions i and i + 1, where it fits, keeps the
      sequence bracketed. */
  lemma InsertBracketed(ks: seq<int>, i: nat, k: int)
    requires Bracketed(ks) && i < |ks| - 1 && ks[i] < k < ks[i + 1]
    ensures Bracketed(Insert(ks, i + 1, k))
  {
    var ks' := Insert(ks, i + 1, k);
    forall a, b | 0 <= a < b < |ks'|
      ensures ks'[a] < ks'[b]
    {
      if b <= i {
      } else if a > i + 1 {
        assert ks[a - 1] < ks[b - 1];
      } else if a <= i && b == i + 1 {
        assert ks[a] <= ks[i];
      } else if a <= i {
        assert ks[a] < ks[b - 1];
      } else if a == i + 1 {
        assert ks[i + 1] <= ks[b - 1];
      }
    }
  }

  /** Linking key k between positions i and i + 1 adds exactly k to the elements. */
  lemma InsertElements(ks: seq<int>, i: nat, k: int)
    requires |ks| >= 2 && i < |ks| - 1
    ensures Elements(Insert(ks, i + 1, k)) == Elements(ks) + {k}
  {
    var ks' := Insert(ks, i + 1, k);
    forall x | x in Elements(ks')
      ensures x in Elements(ks) + {k}
    {
      var j :| 0 < j < |ks'| - 1 && ks'[j] == x;
      if j <= i {
        assert ks[j] == x;
      } else if j > i + 1 {
        assert ks[j - 1] == x && 0 < j - 1 < |ks| - 1;
      }
    }
    forall x | x in Elements(ks) + {k}
      ensures x in Elements(ks')
    {
      if x == k {
        assert ks'[i + 1] == x;
      } else {
        var j :| 0 < j < |ks| - 1 && ks[j] == x;
        if j <= i {
          assert ks'[j] == x;
        } else {
          assert ks'[j + 1] == x;
        }
      }
    }
  }

  /** Unlinking position i (not a sentinel) keeps the sequence bracketed. */
  lemma DeleteBracketed(ks: seq<int>, i: nat)
    requires Bracketed(ks) && 0 < i < |ks| - 1
    ensures Bracketed(Delete(ks, i))
  {
    var ks' := Delete(ks, i);
    forall a, b | 0 <= a < b < |ks'|
      ensures ks'[a] < ks'[b]
    {
      if b < i {
      } else if a >= i {
        assert ks[a + 1] < ks[b + 1];
      } else {
        assert ks[a] < ks[b + 1];
      }
    }
  }

  /** Unlinking position i (not a sentinel) of a bracketed sequence removes
      exactly the key at i from the elements. */
  lemma DeleteElements(ks: seq<int>, i: nat)
    requires Increasing(ks) && 0 < i < |ks| - 1
    ensures Elements(Delete(ks, i)) == Elements(ks) - {ks[i]}
  {
    DeleteKeeps(ks, i);
    DeleteDrops(ks, i);
  }

  /** Unlinking position i leaves nothing that was not there, and drops ks[i]. */
  lemma DeleteDrops(ks: seq<int>, i: nat)
    requires Increasing(ks) && 0 < i < |ks| - 1
    ensures Elements(Delete(ks, i)) <= Elements(ks) - {ks[i]}
  {
    var ks' := Delete(ks, i);
    forall x | x in Elements(ks')
      ensures x in Elements(ks) - {ks[i]}
    {
      var j :| 0 < j < |ks'| - 1 && ks'[j] == x;
      if j < i {
        assert ks[j] == x && ks[j] < ks[i];
        assert 0 < j < |ks| - 1;
      } else {
        assert ks[j + 1] == x && ks[i] < ks[j + 1];
        assert 0 < j + 1 < |ks| - 1;
      }
    }
  }

  /** Unlinking position i keeps every other element. */
  lemma DeleteKeeps(ks: seq<int>, i: nat)
    requires 0 < i < |ks| - 1
    ensures Elements(ks) - {ks[i]} <= Elements(Delete(ks, i))
  {
    var ks' := Delete(ks, i);
    forall x | x in Elements(ks) - {ks[i]}
      ensures x in Elements(ks')
    {
      var j :| 0 < j < |ks| - 1 && ks[j] == x;
      if j < i {
        assert ks'[j] == x;
      } else {
        assert j != i;
        assert ks'[j - 1] == x;
      }
    }
  }

  /** A bracketed sequence holds as many distinct elements as it has
      positions between its sentinels. */
  lemma {:induction false} ElementsSize(ks: seq<int>)
    requires Bracketed(ks)
    ensures |Elements(ks)| == |ks| - 2
    decreases |ks|
  {
    if |ks| > 2 {
      var i := |ks| - 2;
      DeleteBracketed(ks, i);
      DeleteElements(ks, i);
      ElementsSize(Delete(ks, i));
      assert ks[i] in Elements(ks);
    } else {
      assert Elements(ks) == {};
    }
  }
}
