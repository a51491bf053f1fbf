/**
 * The places where consistent_hashing.go does something other than what its
 * names and comments promise (the removal, the collision check, the
 * currentSlots counter behind both the lookups and the capacity check, and
 * insertSorted), each modelled as written and proved to go
 * wrong, beside the corrected definition that the rest of the model uses.
 * A result of None stands for a Go runtime panic.
 */
module AsWritten {
  import opened Wrappers
  import opened SortSearch
  import opened Slices
  import opened SortedSlices
  import opened RingState

  // ------------------------------------------------------------- removeNode

  /** removeNode as written: both deletions use the empty range [index, index). */
  function RemoveEntryAsWritten(p: Placement, slot: int): (r: Result<Placement, Error>)
    requires |p.keys| == |p.nodes|
    ensures r.Err? <==> RemoveEntry(p, slot).Err?
    ensures r.Err? ==> r == RemoveEntry(p, slot)
    ensures r.Ok? ==> |r.value.keys| == |r.value.nodes|
  {
    if |p.keys| == 0 then Err(EmptyHashSpace)
    else
      var i := LowerBound(p.keys, slot);
      if i >= |p.keys| || p.keys[i] != slot then Err(InvalidKey)
      else Ok(Placement(Delete(p.keys, i, i), Delete(p.nodes, i, i)))
  }

  /**
   * A removal that succeeds as written leaves the ring exactly as it was: the
   * slot stays on the ring, and removing the same node again succeeds again.
   * RemoveEntryCorrect states what the corrected RemoveEntry does instead.
   */
  lemma RemoveAsWrittenRemovesNothing(p: Placement, slot: int)
    requires |p.keys| == |p.nodes|
    requires RemoveEntryAsWritten(p, slot).Ok?
    ensures RemoveEntryAsWritten(p, slot).value == p
    ensures slot in RemoveEntryAsWritten(p, slot).value.keys
    ensures RemoveEntryAsWritten(RemoveEntryAsWritten(p, slot).value, slot).Ok?
  {
    var i := LowerBound(p.keys, slot);
    DeleteEmptyRange(p.keys, i);
    DeleteEmptyRange(p.nodes, i);
  }

  // ---------------------------------------------------------------- addNode

  /** addNode's collision check as written: keys[index] is read with no bounds check. */
  function CollisionCheckAsWritten(keys: seq<int>, slot: int): (r: Option<bool>)
    ensures r.Some? ==> r.value == Collides(keys, slot)
    ensures r.None? ==> !Collides(keys, slot)
  {
    var i := LowerBound(keys, slot);
    if i < |keys| then Some(keys[i] == slot) else None
  }

  /**
   * As written, addNode panics whenever the new slot lies above every slot on
   * the ring, and so for the very first node added to an empty ring.
   * CollidesIffPresent states the guarded check the model uses instead.
   */
  lemma CollisionCheckAsWrittenPanics(keys: seq<int>, slot: int)
    requires Sorted(keys)
    requires forall k | 0 <= k < |keys| :: keys[k] < slot
    ensures CollisionCheckAsWritten(keys, slot) == None
    ensures CollisionCheckAsWritten([], slot) == None
  {
    LowerBoundIs(keys, slot, |keys|);
  }

  // ------------------------------------------------- assign, upload, fetch

  /**
   * The node assign, upload and fetch pick as written, given the value of the
   * divisor currentSlots: a zero divisor is Go's integer-division panic. The
   * dividend is never negative, where Go's truncating % and Dafny's agree.
   */
  function AssignAsWritten(p: Placement, slot: int, currentSlots: int): (r: Option<StorageNode>)
    requires |p.keys| == |p.nodes|
    ensures r.Some? ==> r.value in p.nodes
  {
    if currentSlots == 0 then None
    else
      var i := LowerBound(p.keys, slot) % currentSlots;
      if i < |p.nodes| then Some(p.nodes[i]) else None
  }

  /**
   * With the live entry count as the divisor, the modulus is exactly the
   * wrap-around of the successor rule: the lookup the model uses.
   */
  lemma AssignWithLiveCount(p: Placement, slot: int)
    requires |p.keys| == |p.nodes| > 0
    ensures AssignAsWritten(p, slot, |p.keys|) == Some(Owner(p, slot))
  {
    ModulusWraps(LowerBound(p.keys, slot), |p.keys|);
  }

  // ------------------------------------------- the object, with its counter

  /** The ConsistentHashing object as written, currentSlots included. */
  datatype RingAsWritten = RingAsWritten(totalSlots: int, currentSlots: int, placement: Placement)

  /** The two slices have the same length. */
  predicate Paired(r: RingAsWritten) {
    |r.placement.keys| == |r.placement.nodes|
  }

  /** NewConsistentHashing as written: currentSlots starts at 0. */
  function NewAsWritten(totalNodes: int): (r: RingAsWritten)
    ensures Paired(r) && r.currentSlots == 0 && r.totalSlots == totalNodes
    ensures r.placement.keys == []
  {
    RingAsWritten(totalNodes, 0, Placement([], []))
  }

  /**
   * addNode as written, once its host is hashed to `slot`: the capacity check
   * compares currentSlots, the collision check reads keys[index] unguarded
   * (None: a panic), and neither path touches currentSlots.
   */
  function AddNodeAsWritten(r: RingAsWritten, slot: int, node: StorageNode): (o: Option<Result<RingAsWritten, Error>>)
    requires Paired(r)
    ensures o.Some? && o.value.Ok? ==>
      && Paired(o.value.value)
      && o.value.value.currentSlots == r.currentSlots
      && o.value.value.totalSlots == r.totalSlots
  {
    if r.currentSlots == r.totalSlots then Some(Err(CapacityReached))
    else
      match CollisionCheckAsWritten(r.placement.keys, slot)
      case None => None
      case Some(true) => Some(Err(Collision))
      case Some(false) =>
        var p := r.placement;
        Some(Ok(r.(placement := With(p, LowerBound(p.keys, slot), slot, node))))
  }

  /** removeNode as written, once its host is hashed to `slot`; currentSlots is not touched either. */
  function RemoveNodeAsWritten(r: RingAsWritten, slot: int): (o: Result<RingAsWritten, Error>)
    requires Paired(r)
    ensures o.Ok? ==>
      && Paired(o.value)
      && o.value.currentSlots == r.currentSlots
      && o.value.totalSlots == r.totalSlots
  {
    match RemoveEntryAsWritten(r.placement, slot)
    case Err(e) => Err(e)
    case Ok(q) => Ok(r.(placement := q))
  }

  /** A call that changes the ring, with the slot its node's host hashes to. */
  datatype Op = AddNodeOp(slot: int, node: StorageNode) | RemoveNodeOp(slot: int)

  /** One call as written: None is a panic, Err a log.Fatal; either ends the process. */
  function Step(r: RingAsWritten, op: Op): Option<Result<RingAsWritten, Error>>
    requires Paired(r)
  {
    match op
    case AddNodeOp(slot, node) => AddNodeAsWritten(r, slot, node)
    case RemoveNodeOp(slot) => Some(RemoveNodeAsWritten(r, slot))
  }

  /** The object after a series of calls, stopping where a call ends the process. */
  function Run(r: RingAsWritten, ops: seq<Op>): (q: RingAsWritten)
    requires Paired(r)
    ensures Paired(q)
    decreases |ops|
  {
    if ops == [] then r
    else
      match Step(r, ops[0])
      case Some(Ok(next)) => Run(next, ops[1..])
      case _ => r
  }

  /** No series of calls changes currentSlots (or totalSlots). */
  lemma {:induction false} RunKeepsCounter(r: RingAsWritten, ops: seq<Op>)
    requires Paired(r)
    ensures Run(r, ops).currentSlots == r.currentSlots
    ensures Run(r, ops).totalSlots == r.totalSlots
    decreases |ops|
  {
    if ops != [] {
      match Step(r, ops[0])
      case Some(Ok(next)) => RunKeepsCounter(next, ops[1..]);
      case _ =>
    }
  }

  /**
   * currentSlots is 0 from construction on, so as written every lookup by
   * assign, upload and fetch divides by zero, whatever calls came before.
   * AssignWithLiveCount states the lookup the model uses instead.
   */
  lemma EveryLookupPanics(totalNodes: int, ops: seq<Op>, slot: int)
    ensures var r := Run(NewAsWritten(totalNodes), ops);
      AssignAsWritten(r.placement, slot, r.currentSlots) == None
  {
    RunKeepsCounter(NewAsWritten(totalNodes), ops);
  }

  /** For the same reason, on a hash space of at least one slot the capacity check of addNode never fires. */
  lemma CapacityCheckNeverFires(totalNodes: int, ops: seq<Op>, slot: int, node: StorageNode)
    requires totalNodes > 0
    ensures AddNodeAsWritten(Run(NewAsWritten(totalNodes), ops), slot, node) != Some(Err(CapacityReached))
  {
    RunKeepsCounter(NewAsWritten(totalNodes), ops);
  }

  /**
   * And since the first addNode panics on the empty slice, no series of calls
   * ever puts a node on the ring as written.
   */
  lemma NothingEverJoins(totalNodes: int, ops: seq<Op>)
    ensures Run(NewAsWritten(totalNodes), ops) == NewAsWritten(totalNodes)
  {
    var r := NewAsWritten(totalNodes);
    if ops != [] {
      assert LowerBound(r.placement.keys, ops[0].slot) == 0;
    }
  }

  // ----------------------------------------------------------- insertSorted

  /**
   * insertSorted as written: sort.Search runs over the slice after the
   * append, appended element included, so it can return len(s) + 1; then
   * `s[i+1:]` is out of range for a slice of length |s| + 1.
   */
  function InsertSortedAsWritten(s: seq<int>, ele: int): (r: Option<seq<int>>)
    ensures r.Some? ==> |r.value| == |s| + 1 && multiset(r.value) == multiset(s) + multiset{ele}
  {
    var t := s + [ele];
    var i := Search(Above(t, ele));
    if i + 1 > |t| then None
    else
      assert t[..i] + t[i..|t| - 1] == s;
      Some(t[..i] + [ele] + t[i..|t| - 1])
  }

  /** As written, insertSorted panics when ele is at least every element, the empty slice included. */
  lemma InsertSortedAsWrittenPanicsAtTop(s: seq<int>, ele: int)
    requires forall k | 0 <= k < |s| :: s[k] <= ele
    ensures InsertSortedAsWritten(s, ele) == None
  {
    var f := Above(s + [ele], ele);
    assert forall k | 0 <= k < |f| :: !f[k];
    SearchFindsFirst(f);
    FirstTrueUnique(f, Search(f), |f|);
  }

  /** It panics below the top too: the search for 3 in [5, 3] probes the appended 3 and runs past it. */
  lemma InsertSortedAsWrittenPanicsInside()
    ensures InsertSortedAsWritten([5], 3) == None
  {
    var f := Above([5, 3], 3);
    assert f == [true, false];
  }

  /** The appended search of the unsorted example stops at the 9, index 3. */
  lemma UnsortedAppendedSearch()
    ensures Search(Above([0, 0, 0, 9, 0, 5], 5)) == 3
  {
    var f := Above([0, 0, 0, 9, 0, 5], 5);
    assert f[1] == false && f[2] == false && f[3] == true;
    assert SearchIn(f, 2, 3) == 3;
    assert SearchIn(f, 0, 3) == 3;
  }

  /** The corrected search of the unsorted example runs to the end, index 5. */
  lemma UnsortedCorrectedSearch()
    ensures UpperBound([0, 0, 0, 9, 0], 5) == 5
  {
    var g := Above([0, 0, 0, 9, 0], 5);
    assert g[2] == false && g[4] == false;
    assert SearchIn(g, 3, 5) == 5;
  }

  /**
   * On unsorted input the two searches can part without a panic: the search
   * over the appended slice stops at the 9, the corrected one runs to the end.
   */
  lemma InsertSortedAsWrittenUnsorted()
    ensures InsertSortedAsWritten([0, 0, 0, 9, 0], 5) == Some([0, 0, 0, 5, 9, 0])
    ensures Insert([0, 0, 0, 9, 0], UpperBound([0, 0, 0, 9, 0], 5), 5) == [0, 0, 0, 9, 0, 5]
  {
    UnsortedAppendedSearch();
    UnsortedCorrectedSearch();
    var t := [0, 0, 0, 9, 0] + [5];
    assert t == [0, 0, 0, 9, 0, 5];
    assert Search(Above(t, 5)) == 3;
    assert t[..3] + [5] + t[3..|t| - 1] == [0, 0, 0, 5, 9, 0];
  }

  /**
   * When it does not panic, insertSorted as written agrees with the corrected
   * InsertSorted: the search then stops inside the original elements.
   */
  lemma InsertSortedAsWrittenOtherwiseAgrees(s: seq<int>, ele: int)
    requires Sorted(s)
    requires InsertSortedAsWritten(s, ele).Some?
    ensures InsertSortedAsWritten(s, ele).value == Insert(s, UpperBound(s, ele), ele)
  {
    var t := s + [ele];
    var f := Above(t, ele);
    var i := Search(f);
    SearchInBrackets(f, 0, |f|);
    assert i < |t| && f[i];
    assert i < |s|;
    assert IsUpperBound(s, ele, i) by {
      forall k | 0 <= k < i ensures s[k] <= ele {
        assert s[k] <= s[i - 1] == t[i - 1];
      }
      forall k | i <= k < |s| ensures ele < s[k] {
        assert t[i] <= s[k];
      }
    }
    UpperBoundIs(s, ele, i);
    assert t[..i] == s[..i] && t[i..|t| - 1] == s[i..];
  }
}
