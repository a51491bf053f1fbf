/**
 * The state of the hash ring as a value: the two parallel slices `keys` and
 * `nodes` of ConsistentHashing, the transitions addNode and removeNode make on
 * them, and the successor rule that assign, upload and fetch use to pick a node.
 */
module RingState {
  import opened Wrappers
  import opened Slices
  import opened SortedSlices

  /** A storage node: its name and the host it is reached at (the host is what gets hashed). */
  datatype StorageNode = StorageNode(name: string, host: string)

  /** The conditions on which the source stops the process with log.Fatal, plus the transport's failures. */
  datatype Error =
    | CapacityReached            // "Can not increase number of nodes"
    | Collision                  // "Collision occured"
    | EmptyHashSpace             // "Hash space is empty"
    | InvalidKey                 // "Key is invalid"
    | Transport(message: string) // an error returned by fetchFile or putFile

  /** keys[k] is the ring slot occupied by nodes[k]. */
  datatype Placement = Placement(keys: seq<int>, nodes: seq<StorageNode>)

  /** The slices are aligned and the slots strictly increase. */
  ghost predicate Aligned(p: Placement) {
    |p.keys| == |p.nodes| && StrictlyIncreasing(p.keys)
  }

  /** Aligned, and every slot lies in the hash space [0, totalSlots). */
  ghost predicate WellFormed(p: Placement, totalSlots: int) {
    Aligned(p) && forall k | 0 <= k < |p.keys| :: 0 <= p.keys[k] < totalSlots
  }

  /** The (slot, node) pairs on the ring. */
  function Entries(p: Placement): set<(int, StorageNode)>
    requires |p.keys| == |p.nodes|
  {
    set k | 0 <= k < |p.keys| :: (p.keys[k], p.nodes[k])
  }

  /** The ring with (slot, node) inserted into both slices at index i. */
  function With(p: Placement, i: nat, slot: int, node: StorageNode): (q: Placement)
    requires |p.keys| == |p.nodes| && i <= |p.keys|
    ensures |q.keys| == |q.nodes| == |p.keys| + 1
    ensures q.keys[i] == slot && q.nodes[i] == node
    ensures multiset(q.keys) == multiset(p.keys) + multiset{slot}
  {
    InsertMultiset(p.keys, i, slot);
    Placement(Insert(p.keys, i, slot), Insert(p.nodes, i, node))
  }

  /** The ring with the entry at index i deleted from both slices. */
  function Without(p: Placement, i: nat): (q: Placement)
    requires |p.keys| == |p.nodes| && i < |p.keys|
    ensures |q.keys| == |q.nodes| == |p.keys| - 1
    ensures multiset(q.keys) == multiset(p.keys) - multiset{p.keys[i]}
  {
    assert p.keys == p.keys[..i] + [p.keys[i]] + p.keys[i + 1..];
    Placement(Delete(p.keys, i, i + 1), Delete(p.nodes, i, i + 1))
  }

  // ------------------------------------------------------------- addNode

  /** addNode's collision check, with the index guarded: the slot at bisect's index is the new slot. */
  function Collides(keys: seq<int>, slot: int): (b: bool)
    ensures b ==> slot in keys
  {
    var i := LowerBound(keys, slot);
    i < |keys| && keys[i] == slot
  }

  /** On sorted keys the guarded check at bisect's index detects exactly the slots already taken. */
  lemma CollidesIffPresent(keys: seq<int>, slot: int)
    requires Sorted(keys)
    ensures Collides(keys, slot) <==> slot in keys
  {
    LowerBoundSplits(keys, slot);
    var i := LowerBound(keys, slot);
    if slot in keys {
      var m :| 0 <= m < |keys| && keys[m] == slot;
      assert i <= m;
      assert keys[i] <= keys[m];
    }
  }

  /** addNode once the slot is known: capacity check, collision check, then insertion at bisect's index. */
  function AddEntry(p: Placement, totalSlots: int, slot: int, node: StorageNode): (r: Result<Placement, Error>)
    requires |p.keys| == |p.nodes|
    ensures r.Err? ==> r.error == CapacityReached || r.error == Collision
    ensures r.Err? ==> (r.error == CapacityReached <==> |p.keys| == totalSlots)
    ensures r.Ok? ==>
      && |p.keys| != totalSlots
      && |r.value.keys| == |r.value.nodes| == |p.keys| + 1
      && slot in r.value.keys && node in r.value.nodes
  {
    if |p.keys| == totalSlots then Err(CapacityReached)
    else if Collides(p.keys, slot) then Err(Collision)
    else Ok(With(p, LowerBound(p.keys, slot), slot, node))
  }

  /** Inserting at i adds exactly the one pair. */
  lemma EntriesWith(p: Placement, i: nat, slot: int, node: StorageNode)
    requires |p.keys| == |p.nodes| && i <= |p.keys|
    ensures Entries(With(p, i, slot, node)) == Entries(p) + {(slot, node)}
  {
    var q := With(p, i, slot, node);
    forall e | e in Entries(q) ensures e in Entries(p) + {(slot, node)} {
      var k :| 0 <= k < |q.keys| && e == (q.keys[k], q.nodes[k]);
      if k < i {
        assert e == (p.keys[k], p.nodes[k]);
      } else if i < k {
        assert e == (p.keys[k - 1], p.nodes[k - 1]);
      }
    }
    forall e | e in Entries(p) ensures e in Entries(q) {
      var k :| 0 <= k < |p.keys| && e == (p.keys[k], p.nodes[k]);
      if k < i {
        assert e == (q.keys[k], q.nodes[k]);
      } else {
        assert e == (q.keys[k + 1], q.nodes[k + 1]);
      }
    }
    assert (slot, node) == (q.keys[i], q.nodes[i]);
  }

  /** Deleting index i of an aligned ring removes exactly the pair stored there. */
  lemma EntriesWithout(p: Placement, i: nat)
    requires Aligned(p) && i < |p.keys|
    ensures Entries(Without(p, i)) == Entries(p) - {(p.keys[i], p.nodes[i])}
  {
    var q := Without(p, i);
    forall e | e in Entries(q) ensures e in Entries(p) - {(p.keys[i], p.nodes[i])} {
      var k :| 0 <= k < |q.keys| && e == (q.keys[k], q.nodes[k]);
      if k < i {
        assert e == (p.keys[k], p.nodes[k]) && p.keys[k] < p.keys[i];
      } else {
        assert e == (p.keys[k + 1], p.nodes[k + 1]) && p.keys[i] < p.keys[k + 1];
      }
    }
    forall e | e in Entries(p) - {(p.keys[i], p.nodes[i])} ensures e in Entries(q) {
      var k :| 0 <= k < |p.keys| && e == (p.keys[k], p.nodes[k]);
      if k < i {
        assert e == (q.keys[k], q.nodes[k]);
      } else {
        assert k != i;
        assert e == (q.keys[k - 1], q.nodes[k - 1]);
      }
    }
  }

  /** Inserting a free slot at its lower bound keeps the ring well formed. */
  lemma WithWellFormed(p: Placement, totalSlots: int, slot: int, node: StorageNode)
    requires WellFormed(p, totalSlots) && 0 <= slot < totalSlots && slot !in p.keys
    ensures WellFormed(With(p, LowerBound(p.keys, slot), slot, node), totalSlots)
  {
    var i := LowerBound(p.keys, slot);
    StrictlyIncreasingIsSorted(p.keys);
    LowerBoundSplits(p.keys, slot);
    assert forall k | i <= k < |p.keys| :: slot < p.keys[k] by {
      forall k | i <= k < |p.keys| ensures slot < p.keys[k] {
        assert p.keys[k] != slot;
      }
    }
    InsertKeepsStrictlyIncreasing(p.keys, i, slot);
  }

  /**
   * addNode fails, changing nothing, exactly when the ring is at capacity or
   * the slot is taken; otherwise it inserts (slot, node) at bisect's index,
   * keeps the ring well formed and every other pair in the same order.
   */
  lemma AddEntryCorrect(p: Placement, totalSlots: int, slot: int, node: StorageNode)
    requires WellFormed(p, totalSlots) && 0 <= slot < totalSlots
    ensures AddEntry(p, totalSlots, slot, node) == Err(CapacityReached) <==> |p.keys| == totalSlots
    ensures AddEntry(p, totalSlots, slot, node) == Err(Collision) <==> |p.keys| != totalSlots && slot in p.keys
    ensures AddEntry(p, totalSlots, slot, node).Ok? ==>
      var q := AddEntry(p, totalSlots, slot, node).value;
      var i := LowerBound(p.keys, slot);
      && WellFormed(q, totalSlots)
      && |q.keys| == |p.keys| + 1
      && i < |q.keys| && q.keys[i] == slot && q.nodes[i] == node
      && Without(q, i) == p
      && Entries(q) == Entries(p) + {(slot, node)}
      && multiset(q.keys) == multiset(p.keys) + multiset{slot}
  {
    StrictlyIncreasingIsSorted(p.keys);
    CollidesIffPresent(p.keys, slot);
    if |p.keys| != totalSlots && slot !in p.keys {
      var i := LowerBound(p.keys, slot);
      WithWellFormed(p, totalSlots, slot, node);
      DeleteInsert(p.keys, i, slot);
      DeleteInsert(p.nodes, i, node);
      EntriesWith(p, i, slot, node);
      InsertMultiset(p.keys, i, slot);
    }
  }

  // ---------------------------------------------------------- removeNode

  /** removeNode once the slot is known: empty check, the check at bisect's index, then deletion of that one entry. */
  function RemoveEntry(p: Placement, slot: int): (r: Result<Placement, Error>)
    requires |p.keys| == |p.nodes|
    ensures r.Err? ==> r.error == EmptyHashSpace || r.error == InvalidKey
    ensures r.Ok? ==> slot in p.keys && |r.value.keys| == |r.value.nodes| == |p.keys| - 1
  {
    if |p.keys| == 0 then Err(EmptyHashSpace)
    else
      var i := LowerBound(p.keys, slot);
      if i >= |p.keys| || p.keys[i] != slot then Err(InvalidKey)
      else Ok(Without(p, i))
  }

  /**
   * removeNode fails, changing nothing, exactly when the slot is not on the
   * ring (on an empty ring with its own error); otherwise it deletes exactly
   * the one entry holding the slot and keeps every other pair in order.
   */
  lemma RemoveEntryCorrect(p: Placement, totalSlots: int, slot: int)
    requires WellFormed(p, totalSlots)
    ensures RemoveEntry(p, slot) == Err(EmptyHashSpace) <==> |p.keys| == 0
    ensures RemoveEntry(p, slot).Err? <==> slot !in p.keys
    ensures 0 < |p.keys| && slot !in p.keys ==> RemoveEntry(p, slot) == Err(InvalidKey)
    ensures RemoveEntry(p, slot).Ok? ==>
      var q := RemoveEntry(p, slot).value;
      var i := LowerBound(p.keys, slot);
      && WellFormed(q, totalSlots)
      && i < |p.keys| && p.keys[i] == slot && q == Without(p, i)
      && |q.keys| == |p.keys| - 1
      && slot !in q.keys
      && Entries(q) == Entries(p) - {(slot, p.nodes[i])}
  {
    StrictlyIncreasingIsSorted(p.keys);
    CollidesIffPresent(p.keys, slot);
    if slot in p.keys {
      var i := LowerBound(p.keys, slot);
      var q := Without(p, i);
      DeleteKeepsStrictlyIncreasing(p.keys, i);
      EntriesWithout(p, i);
      forall k | 0 <= k < |q.keys| ensures q.keys[k] != slot {
        if k < i {
          assert q.keys[k] == p.keys[k] < p.keys[i];
        } else {
          assert q.keys[k] == p.keys[k + 1] > p.keys[i];
        }
      }
    }
  }

  /** Adding a node and then removing it again restores the ring exactly. */
  lemma ChurnRoundTrip(p: Placement, totalSlots: int, slot: int, node: StorageNode)
    requires WellFormed(p, totalSlots) && 0 <= slot < totalSlots
    requires AddEntry(p, totalSlots, slot, node).Ok?
    ensures RemoveEntry(AddEntry(p, totalSlots, slot, node).value, slot) == Ok(p)
  {
    AddEntryCorrect(p, totalSlots, slot, node);
    var q := AddEntry(p, totalSlots, slot, node).value;
    var i := LowerBound(p.keys, slot);
    StrictlyIncreasingIsSorted(p.keys);
    LowerBoundSplits(p.keys, slot);
    LowerBoundAfterInsert(p.keys, i, slot, slot);
    assert LowerBound(q.keys, slot) == i;
  }

  // ------------------------------------------- assign, upload and fetch

  /** The index after i on a circle of n positions. */
  function Next(i: nat, n: nat): nat {
    if i + 1 < n then i + 1 else 0
  }

  /**
   * The index of the node an item at `slot` goes to: bisect's index, wrapped
   * to 0 when it is past the end (the source writes the wrap as a modulus;
   * AsWritten relates the two).
   */
  function OwnerIndex(keys: seq<int>, slot: int): (j: nat)
    requires |keys| > 0
    ensures j < |keys|
  {
    var i := LowerBound(keys, slot);
    if i < |keys| then i else 0
  }

  /** Taken modulo n, an index in [0, n] wraps exactly the past-the-end value to 0. */
  lemma ModulusWraps(i: nat, n: nat)
    requires 0 < n && i <= n
    ensures i % n == if i < n then i else 0
  {
  }

  /** The node an item at `slot` is assigned to on a non-empty ring. */
  function Owner(p: Placement, slot: int): (n: StorageNode)
    requires |p.keys| == |p.nodes| > 0
    ensures n in p.nodes
  {
    p.nodes[OwnerIndex(p.keys, slot)]
  }

  /** The node lookup shared by assign, upload and fetch, failing on an empty ring. */
  function Lookup(p: Placement, slot: int): (r: Result<StorageNode, Error>)
    requires |p.keys| == |p.nodes|
    ensures r.Err? <==> |p.keys| == 0
    ensures r.Err? ==> r.error == EmptyHashSpace
    ensures r.Ok? ==> r.value in p.nodes
  {
    if |p.keys| == 0 then Err(EmptyHashSpace) else Ok(Owner(p, slot))
  }

  /**
   * The successor rule: an item goes to the first node whose slot is at least
   * the item's slot, and wraps around to the first node when there is none.
   */
  lemma OwnerIsSuccessor(p: Placement, slot: int)
    requires Aligned(p) && |p.keys| > 0
    ensures (exists k | 0 <= k < |p.keys| :: slot <= p.keys[k]) ==>
      var j := OwnerIndex(p.keys, slot);
      slot <= p.keys[j] && forall k | 0 <= k < j :: p.keys[k] < slot
    ensures (forall k | 0 <= k < |p.keys| :: p.keys[k] < slot) ==> OwnerIndex(p.keys, slot) == 0
  {
    StrictlyIncreasingIsSorted(p.keys);
    LowerBoundSplits(p.keys, slot);
  }

  /** Removal of the entry at i: keys that went to it now go to its successor on the circle; no other key moves. */
  lemma DeleteDisruption(p: Placement, i: nat, h: int)
    requires Aligned(p) && 2 <= |p.keys| && i < |p.keys|
    ensures Owner(Without(p, i), h)
            == if OwnerIndex(p.keys, h) == i then p.nodes[Next(i, |p.keys|)] else Owner(p, h)
  {
    var n := |p.keys|;
    var q := Without(p, i);
    StrictlyIncreasingIsSorted(p.keys);
    LowerBoundAfterDelete(p.keys, i, h);
    var j := LowerBound(p.keys, h);
    if j < i {
      assert OwnerIndex(q.keys, h) == j;
    } else if j == i {
      if i < n - 1 {
        assert OwnerIndex(q.keys, h) == i;
      } else {
        assert OwnerIndex(q.keys, h) == 0;
      }
    } else if j < n {
      assert OwnerIndex(q.keys, h) == j - 1;
    } else {
      assert OwnerIndex(q.keys, h) == 0;
    }
  }

  /**
   * Minimal disruption on removal: when removeNode succeeds, every key owned
   * by the removed node moves to the node after it on the circle, and every
   * other key keeps its owner.
   */
  lemma RemoveEntryDisruption(p: Placement, totalSlots: int, slot: int, h: int)
    requires WellFormed(p, totalSlots) && 2 <= |p.keys|
    requires RemoveEntry(p, slot).Ok?
    ensures var i := LowerBound(p.keys, slot);
      Owner(RemoveEntry(p, slot).value, h)
      == if OwnerIndex(p.keys, h) == i then p.nodes[Next(i, |p.keys|)] else Owner(p, h)
  {
    DeleteDisruption(p, LowerBound(p.keys, slot), h);
  }

  /** The arc a new slot x takes over: after x's predecessor on the circle, up to and including x. */
  ghost predicate OnArc(keys: seq<int>, x: int, h: int)
    requires |keys| > 0
  {
    var i := LowerBound(keys, x);
    if i == 0 then h <= x || keys[|keys| - 1] < h
    else keys[i - 1] < h <= x
  }

  /** InsertDisruption for items at or below the new slot. */
  lemma InsertDisruptionBelow(p: Placement, i: nat, slot: int, node: StorageNode, h: int)
    requires |p.keys| == |p.nodes| > 0 && Sorted(p.keys)
    requires IsLowerBound(p.keys, slot, i) && LowerBound(p.keys, slot) == i
    requires h <= slot
    ensures Owner(With(p, i, slot, node), h) == if OnArc(p.keys, slot, h) then node else Owner(p, h)
  {
    LowerBoundSplits(p.keys, h);
    LowerBoundAfterInsert(p.keys, i, slot, h);
    var q := With(p, i, slot, node);
    var n := |p.keys|;
    var j := LowerBound(p.keys, h);
    assert i < n ==> slot <= p.keys[i];
    assert j <= i;
    assert OwnerIndex(q.keys, h) == j;
    if j < i {
      assert h <= p.keys[i - 1];
      assert !OnArc(p.keys, slot, h);
      assert Owner(q, h) == p.nodes[j] == Owner(p, h);
    } else {
      assert OnArc(p.keys, slot, h);
      assert Owner(q, h) == node;
    }
  }

  /** InsertDisruption for items above the new slot. */
  lemma InsertDisruptionAbove(p: Placement, i: nat, slot: int, node: StorageNode, h: int)
    requires |p.keys| == |p.nodes| > 0 && Sorted(p.keys)
    requires IsLowerBound(p.keys, slot, i) && LowerBound(p.keys, slot) == i
    requires slot < h
    ensures Owner(With(p, i, slot, node), h) == if OnArc(p.keys, slot, h) then node else Owner(p, h)
  {
    LowerBoundSplits(p.keys, h);
    LowerBoundAfterInsert(p.keys, i, slot, h);
    var q := With(p, i, slot, node);
    var n := |p.keys|;
    var j := LowerBound(p.keys, h);
    assert j < n ==> h <= p.keys[j];
    assert i <= j;
    if j < n {
      assert h <= p.keys[n - 1];
      assert !OnArc(p.keys, slot, h);
      assert OwnerIndex(q.keys, h) == j + 1;
      assert Owner(q, h) == p.nodes[j] == Owner(p, h);
    } else if i == 0 {
      assert OnArc(p.keys, slot, h);
      assert OwnerIndex(q.keys, h) == 0;
      assert Owner(q, h) == node;
    } else {
      assert !OnArc(p.keys, slot, h);
      assert OwnerIndex(q.keys, h) == 0;
      assert Owner(q, h) == p.nodes[0] == Owner(p, h);
    }
  }

  /** Insertion at the lower bound i of x: exactly the keys on x's arc move to the new node. */
  lemma InsertDisruption(p: Placement, i: nat, slot: int, node: StorageNode, h: int)
    requires |p.keys| == |p.nodes| > 0 && Sorted(p.keys)
    requires IsLowerBound(p.keys, slot, i)
    ensures LowerBound(p.keys, slot) == i
    ensures Owner(With(p, i, slot, node), h) == if OnArc(p.keys, slot, h) then node else Owner(p, h)
  {
    LowerBoundIs(p.keys, slot, i);
    if h <= slot {
      InsertDisruptionBelow(p, i, slot, node, h);
    } else {
      InsertDisruptionAbove(p, i, slot, node, h);
    }
  }

  /**
   * Minimal disruption on insertion: when addNode succeeds, exactly the keys on
   * the new node's arc move to it, and every other key keeps its owner.
   */
  lemma AddEntryDisruption(p: Placement, totalSlots: int, slot: int, node: StorageNode, h: int)
    requires WellFormed(p, totalSlots) && 0 <= slot < totalSlots && |p.keys| > 0
    requires AddEntry(p, totalSlots, slot, node).Ok?
    ensures Owner(AddEntry(p, totalSlots, slot, node).value, h)
            == if OnArc(p.keys, slot, h) then node else Owner(p, h)
  {
    StrictlyIncreasingIsSorted(p.keys);
    LowerBoundSplits(p.keys, slot);
    InsertDisruption(p, LowerBound(p.keys, slot), slot, node, h);
  }

  // ------------------------------------------- independence of insertion order

  /** Two aligned non-empty rings with the same pairs start with the same pair: the one with the smallest slot. */
  lemma FirstEntryAgrees(p: Placement, q: Placement)
    requires Aligned(p) && Aligned(q) && |p.keys| > 0 && |q.keys| > 0
    requires Entries(p) == Entries(q)
    ensures p.keys[0] == q.keys[0] && p.nodes[0] == q.nodes[0]
  {
    assert (p.keys[0], p.nodes[0]) in Entries(q);
    assert (q.keys[0], q.nodes[0]) in Entries(p);
    var m :| 0 <= m < |q.keys| && (p.keys[0], p.nodes[0]) == (q.keys[m], q.nodes[m]);
    var t :| 0 <= t < |p.keys| && (q.keys[0], q.nodes[0]) == (p.keys[t], p.nodes[t]);
    assert p.keys[0] <= p.keys[t];
    assert q.keys[0] <= q.keys[m];
    assert m == 0;
  }

  /** Rings with the same pairs are empty together. */
  lemma EmptyTogether(p: Placement, q: Placement)
    requires |p.keys| == |p.nodes| && |q.keys| == |q.nodes|
    requires Entries(p) == Entries(q)
    ensures |p.keys| == 0 <==> |q.keys| == 0
  {
    assert |p.keys| > 0 ==> (p.keys[0], p.nodes[0]) in Entries(q);
    assert |q.keys| > 0 ==> (q.keys[0], q.nodes[0]) in Entries(p);
  }

  /** Rings with the same pairs have, once their first entries are dropped, the same pairs again. */
  lemma TailsAgree(p: Placement, q: Placement)
    requires Aligned(p) && Aligned(q) && |p.keys| > 0 && |q.keys| > 0
    requires Entries(p) == Entries(q)
    ensures Aligned(Without(p, 0)) && Aligned(Without(q, 0))
    ensures Entries(Without(p, 0)) == Entries(Without(q, 0))
  {
    FirstEntryAgrees(p, q);
    EntriesWithout(p, 0);
    EntriesWithout(q, 0);
    DeleteKeepsStrictlyIncreasing(p.keys, 0);
    DeleteKeepsStrictlyIncreasing(q.keys, 0);
  }

  /** A non-empty ring is its first entry followed by the rest. */
  lemma FirstAndRest(p: Placement)
    requires |p.keys| == |p.nodes| > 0
    ensures p.keys == [p.keys[0]] + Without(p, 0).keys
    ensures p.nodes == [p.nodes[0]] + Without(p, 0).nodes
  {
    assert Without(p, 0).keys == p.keys[1..];
    assert Without(p, 0).nodes == p.nodes[1..];
  }

  /** An aligned ring is determined by its set of (slot, node) pairs. */
  lemma {:induction false} DeterminedByEntries(p: Placement, q: Placement)
    requires Aligned(p) && Aligned(q)
    requires Entries(p) == Entries(q)
    ensures p == q
    decreases |p.keys|
  {
    EmptyTogether(p, q);
    if |p.keys| > 0 {
      FirstEntryAgrees(p, q);
      TailsAgree(p, q);
      DeterminedByEntries(Without(p, 0), Without(q, 0));
      FirstAndRest(p);
      FirstAndRest(q);
    }
  }

  /** Adding a free slot succeeds and gives a well-formed ring with that one pair more and the slot taken. */
  lemma AddFreeSlot(p: Placement, totalSlots: int, slot: int, node: StorageNode)
    requires WellFormed(p, totalSlots) && |p.keys| < totalSlots
    requires 0 <= slot < totalSlots && slot !in p.keys
    ensures AddEntry(p, totalSlots, slot, node).Ok?
    ensures var q := AddEntry(p, totalSlots, slot, node).value;
      && WellFormed(q, totalSlots)
      && |q.keys| == |p.keys| + 1
      && Entries(q) == Entries(p) + {(slot, node)}
      && (forall x | x in p.keys || x == slot :: x in q.keys)
      && (forall x | x !in p.keys && x != slot :: x !in q.keys)
  {
    AddEntryCorrect(p, totalSlots, slot, node);
    var q := AddEntry(p, totalSlots, slot, node).value;
    forall x ensures x in q.keys <==> x in p.keys || x == slot {
      assert x in q.keys <==> x in multiset(q.keys);
      assert x in p.keys <==> x in multiset(p.keys);
    }
  }

  /** Strictly increasing slots climb by at least one per index. */
  lemma {:induction false} IncreasingClimbs(s: seq<int>, k: nat)
    requires StrictlyIncreasing(s) && k < |s|
    ensures s[0] + k <= s[k]
  {
    if k > 0 {
      IncreasingClimbs(s, k - 1);
    }
  }

  /** A well-formed non-empty ring holds at most totalSlots entries. */
  lemma RingFits(p: Placement, totalSlots: int)
    requires WellFormed(p, totalSlots)
    ensures |p.keys| > 0 ==> |p.keys| <= totalSlots
  {
    if |p.keys| > 0 {
      var last := |p.keys| - 1;
      IncreasingClimbs(p.keys, last);
      assert 0 <= p.keys[0] && p.keys[last] < totalSlots;
    }
  }

  /** Two distinct free slots in the hash space leave room for two more entries. */
  lemma RoomForTwo(p: Placement, totalSlots: int, s1: int, n1: StorageNode, s2: int, n2: StorageNode)
    requires WellFormed(p, totalSlots)
    requires 0 <= s1 < totalSlots && 0 <= s2 < totalSlots && s1 != s2
    requires s1 !in p.keys && s2 !in p.keys
    ensures |p.keys| + 2 <= totalSlots
  {
    var w1 := With(p, LowerBound(p.keys, s1), s1, n1);
    WithWellFormed(p, totalSlots, s1, n1);
    InsertMultiset(p.keys, LowerBound(p.keys, s1), s1);
    assert s2 !in multiset(w1.keys);
    var w2 := With(w1, LowerBound(w1.keys, s2), s2, n2);
    WithWellFormed(w1, totalSlots, s2, n2);
    RingFits(w2, totalSlots);
  }

  /** Two nodes with distinct free slots give the same ring whichever is added first. */
  lemma InsertionOrderIrrelevant(p: Placement, totalSlots: int, s1: int, n1: StorageNode, s2: int, n2: StorageNode)
    requires WellFormed(p, totalSlots)
    requires 0 <= s1 < totalSlots && 0 <= s2 < totalSlots && s1 != s2
    requires s1 !in p.keys && s2 !in p.keys
    ensures AddEntry(p, totalSlots, s1, n1).Ok? && AddEntry(p, totalSlots, s2, n2).Ok?
    ensures AddEntry(AddEntry(p, totalSlots, s1, n1).value, totalSlots, s2, n2).Ok?
    ensures AddEntry(AddEntry(p, totalSlots, s1, n1).value, totalSlots, s2, n2)
            == AddEntry(AddEntry(p, totalSlots, s2, n2).value, totalSlots, s1, n1)
  {
    RoomForTwo(p, totalSlots, s1, n1, s2, n2);
    AddFreeSlot(p, totalSlots, s1, n1);
    AddFreeSlot(p, totalSlots, s2, n2);
    var q1 := AddEntry(p, totalSlots, s1, n1).value;
    var q2 := AddEntry(p, totalSlots, s2, n2).value;
    AddFreeSlot(q1, totalSlots, s2, n2);
    AddFreeSlot(q2, totalSlots, s1, n1);
    var r1 := AddEntry(q1, totalSlots, s2, n2).value;
    var r2 := AddEntry(q2, totalSlots, s1, n1).value;
    assert Entries(r1) == Entries(r2);
    DeterminedByEntries(r1, r2);
  }

  // ------------------------------------------------------------ an example

  /**
   * Nodes x, y, z at slots 100, 400 and 700: an item at 900 wraps around to x,
   * one at 250 goes to y, and one exactly at 400 goes to y.
   */
  lemma ThreeNodeExample(x: StorageNode, y: StorageNode, z: StorageNode)
    ensures Owner(Placement([100, 400, 700], [x, y, z]), 900) == x
    ensures Owner(Placement([100, 400, 700], [x, y, z]), 250) == y
    ensures Owner(Placement([100, 400, 700], [x, y, z]), 400) == y
  {
    var keys := [100, 400, 700];
    assert Sorted(keys);
    LowerBoundIs(keys, 900, 3);
    LowerBoundIs(keys, 250, 1);
    LowerBoundIs(keys, 400, 1);
  }

  /**
   * Removing y (slot 400) from that ring leaves x and z: the item at 250 now
   * goes to z and the one at 900 still goes to x.
   */
  lemma RemovalExample(x: StorageNode, y: StorageNode, z: StorageNode)
    ensures RemoveEntry(Placement([100, 400, 700], [x, y, z]), 400) == Ok(Placement([100, 700], [x, z]))
    ensures Owner(Placement([100, 700], [x, z]), 250) == z
    ensures Owner(Placement([100, 700], [x, z]), 900) == x
  {
    var keys := [100, 400, 700];
    assert Sorted(keys) && Sorted([100, 700]);
    LowerBoundIs(keys, 400, 1);
    LowerBoundIs([100, 700], 250, 1);
    LowerBoundIs([100, 700], 900, 2);
    assert Delete(keys, 1, 2) == [100, 700];
    assert Delete([x, y, z], 1, 2) == [x, z];
  }

  /**
   * Adding w at slot 250 to that ring, on a hash space of 1000, places it
   * between x and y: it takes over the item at 200 and leaves the one at 300
   * with y.
   */
  lemma AdditionExample(x: StorageNode, y: StorageNode, z: StorageNode, w: StorageNode)
    ensures AddEntry(Placement([100, 400, 700], [x, y, z]), 1000, 250, w)
            == Ok(Placement([100, 250, 400, 700], [x, w, y, z]))
    ensures Owner(Placement([100, 250, 400, 700], [x, w, y, z]), 200) == w
    ensures Owner(Placement([100, 250, 400, 700], [x, w, y, z]), 300) == y
  {
    var keys := [100, 400, 700];
    var wider := [100, 250, 400, 700];
    assert Sorted(keys) && Sorted(wider);
    LowerBoundIs(keys, 250, 1);
    assert Insert(keys, 1, 250) == wider;
    assert Insert([x, y, z], 1, w) == [x, w, y, z];
    LowerBoundIs(wider, 200, 1);
    LowerBoundIs(wider, 300, 2);
  }
}
