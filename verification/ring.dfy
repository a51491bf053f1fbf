/**
 * The ConsistentHashing object: a ring whose addNode and removeNode update its
 * two slices in place, and the lookups assign, upload and fetch that route an
 * item to the node succeeding its slot.
 */
module Ring {
  import opened Wrappers
  import opened Slices
  import opened SortedSlices
  import opened RingState

  /** Hand path to the chosen node's transport call, or pass the lookup's error on; the transport's error is wrapped unchanged. */
  function Deliver(choice: Result<StorageNode, Error>, path: string,
                   call: (StorageNode, string) -> Result<string, string>): (r: Result<string, Error>)
    ensures choice.Err? ==> r == Err(choice.error)
    ensures choice.Ok? ==> (r.Ok? <==> call(choice.value, path).Ok?)
    ensures r.Ok? ==> choice.Ok? && r.value == call(choice.value, path).value
    ensures r.Err? && choice.Ok? ==> r.error == Transport(call(choice.value, path).error)
  {
    match choice
    case Err(e) => Err(e)
    case Ok(node) =>
      match call(node, path)
      case Ok(body) => Ok(body)
      case Err(message) => Err(Transport(message))
  }

  class ConsistentHashing {
    /** The size of the hash space, fixed at construction. */
    const totalSlots: int
    /** The SHA-256 digest of a string read as an unsigned integer, given to the ring. */
    const digest: string -> nat
    /** Ring slots in ascending order. */
    var keys: seq<int>
    /** nodes[k] is the node that owns slot keys[k]. */
    var nodes: seq<StorageNode>

    ghost predicate Valid()
      reads this
    {
      totalSlots > 0 && WellFormed(Placement(keys, nodes), totalSlots)
    }

    /** The two slices as a value. */
    function State(): Placement
      reads this
    {
      Placement(keys, nodes)
    }

    /** NewConsistentHashing: an empty ring over a hash space of totalNodes slots. */
    constructor (totalNodes: int, digest: string -> nat)
      requires totalNodes > 0
      ensures Valid()
      ensures totalSlots == totalNodes && this.digest == digest
      ensures keys == [] && nodes == []
    {
      totalSlots := totalNodes;
      this.digest := digest;
      keys := [];
      nodes := [];
    }

    /** hashFun: the digest of key reduced modulo totalSlots, always a slot of the hash space. */
    function HashFun(key: string): (slot: int)
      requires totalSlots > 0
      ensures 0 <= slot < totalSlots
    {
      digest(key) % totalSlots
    }

    /**
     * addNode: refuse when the ring is full or the node's slot is taken,
     * otherwise insert the slot and the node at bisect's index in both slices.
     * The capacity check compares the live entry count, and the slot at
     * bisect's index is read only when that index is in range.
     */
    method AddNode(node: StorageNode) returns (outcome: Outcome<Error>)
      requires Valid()
      modifies this
      ensures Valid()
      ensures var r := AddEntry(old(State()), totalSlots, HashFun(node.host), node);
        if r.Ok? then outcome == Pass && State() == r.value
        else outcome == Fail(r.error) && State() == old(State())
    {
      if |keys| == totalSlots {
        return Fail(CapacityReached);
      }
      var key := HashFun(node.host);
      var index := Bisect(keys, key);
      if index < |keys| && keys[index] == key {
        return Fail(Collision);
      }
      StrictlyIncreasingIsSorted(keys);
      CollidesIffPresent(keys, key);
      WithWellFormed(State(), totalSlots, key, node);
      keys := Insert(keys, index, key);
      nodes := Insert(nodes, index, node);
      return Pass;
    }

    /**
     * removeNode: refuse on an empty ring or when the node's slot is not at
     * bisect's index, otherwise delete that one entry from both slices and
     * return the slot. The deletion removes [index, index + 1).
     */
    method RemoveNode(node: StorageNode) returns (r: Result<int, Error>)
      requires Valid()
      modifies this
      ensures Valid()
      ensures var e := RemoveEntry(old(State()), HashFun(node.host));
        if e.Ok? then r == Ok(HashFun(node.host)) && State() == e.value
        else r == Err(e.error) && State() == old(State())
    {
      if |keys| == 0 {
        return Err(EmptyHashSpace);
      }
      var key := HashFun(node.host);
      var index := Bisect(keys, key);
      if index >= |keys| || keys[index] != key {
        return Err(InvalidKey);
      }
      RemoveEntryCorrect(State(), totalSlots, key);
      keys := Delete(keys, index, index + 1);
      nodes := Delete(nodes, index, index + 1);
      return Ok(key);
    }

    /**
     * assign: the node at bisect's index for the item's slot, the index taken
     * modulo the live entry count so that it wraps to 0 past the end.
     */
    method Assign(item: string) returns (r: Result<StorageNode, Error>)
      requires Valid()
      ensures r == Lookup(State(), HashFun(item))
    {
      if |keys| == 0 {
        return Err(EmptyHashSpace);
      }
      var key := HashFun(item);
      var index := Bisect(keys, key);
      ModulusWraps(index, |keys|);
      index := index % |keys|;
      return Ok(nodes[index]);
    }

    /** upload: pick the node for path as assign does, then hand the file to that node's putFile. */
    method Upload(path: string, putFile: (StorageNode, string) -> Result<string, string>)
      returns (r: Result<string, Error>)
      requires Valid()
      ensures r == Deliver(Lookup(State(), HashFun(path)), path, putFile)
    {
      var node := Assign(path);
      if node.Err? {
        return Err(node.error);
      }
      var response := putFile(node.value, path);
      if response.Err? {
        return Err(Transport(response.error));
      }
      return Ok(response.value);
    }

    /** fetch: pick the node for path as assign does, then ask that node's fetchFile for it. */
    method Fetch(path: string, fetchFile: (StorageNode, string) -> Result<string, string>)
      returns (r: Result<string, Error>)
      requires Valid()
      ensures r == Deliver(Lookup(State(), HashFun(path)), path, fetchFile)
    {
      var node := Assign(path);
      if node.Err? {
        return Err(node.error);
      }
      var content := fetchFile(node.value, path);
      if content.Err? {
        return Err(Transport(content.error));
      }
      return Ok(content.value);
    }
  }
}
