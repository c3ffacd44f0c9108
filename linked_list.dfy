/**
 * The doubly-linked list whose nodes also carry a `rand` reference to any node of
 * the same list (itself included) or to none, and its conversion to and from the
 * binary record of module Format.
 *
 * Nodes are identified by their head-to-tail position, and a reference is the
 * position of the node it points to, with NULL (-1) for `nullptr`.  A list keeps one
 * sequence per node field: `data`, `rand`, `prev` and `next`, indexed by node.
 */
module LinkedList {

  import opened Wrappers
  import opened Bytes
  import opened Format

  /** The reference to no node. */
  const NULL: int := -1

  /** Every rand reference is NULL or a node of the list. */
  predicate RandsInRange(rand: seq<int>) {
    forall i :: 0 <= i < |rand| ==> NULL <= rand[i] < |rand|
  }

  /** The chain of `n` nodes: node i's prev is node i-1 and its next node i+1, NULL at the ends. */
  predicate LinksByPosition(prev: seq<int>, next: seq<int>, n: nat) {
    && |prev| == n && |next| == n
    && forall i :: 0 <= i < n ==> prev[i] == i - 1 && next[i] == (if i < n - 1 then i + 1 else NULL)
  }

  /**
   * What `Serialize` writes of a payload: the length field holds its size cast to
   * `uint32_t`, and that many bytes follow.
   */
  function Truncated(payload: seq<byte>): (p: seq<byte>)
    ensures |p| == |payload| % 0x1_0000_0000 && p <= payload
    ensures |payload| < 0x1_0000_0000 ==> p == payload
  {
    payload[..|payload| % 0x1_0000_0000]
  }

  /** The records `Serialize` writes for a list with payloads `data` and rand references `rand`. */
  function RecordsOf(data: seq<seq<byte>>, rand: seq<int>): (rs: seq<Record>)
    requires |data| == |rand| <= INT32_MAX && RandsInRange(rand)
    ensures WellFormed(rs) && |rs| == |data|
  {
    seq(|data|, i requires 0 <= i < |data| => Record(Truncated(data[i]), rand[i]))
  }

  /** The bytes `Serialize` writes for node `i` are those of its record. */
  lemma RecordOfNode(data: seq<seq<byte>>, rand: seq<int>, i: nat, randIndex: i32)
    requires |data| == |rand| <= INT32_MAX && RandsInRange(rand)
    requires i < |data| && randIndex == rand[i]
    ensures var dataSize := |data[i]| % 0x1_0000_0000;
      EncodeU32(dataSize) + (if dataSize > 0 then data[i][..dataSize] else []) + EncodeU32(AsU32(randIndex))
        == EncodeRecord(RecordsOf(data, rand)[i])
  {
  }

  /** The payloads of decoded records, in read order. */
  function Payloads(rs: seq<Record>): seq<seq<byte>> {
    seq(|rs|, i requires 0 <= i < |rs| => rs[i].payload)
  }

  /** The rand indices stored in decoded records, in read order. */
  function StoredIndices(rs: seq<Record>): seq<i32> {
    seq(|rs|, i requires 0 <= i < |rs| => rs[i].randIndex)
  }

  lemma ReadOneMore(rs: seq<Record>, r: Record)
    ensures Payloads(rs + [r]) == Payloads(rs) + [r.payload]
    ensures StoredIndices(rs + [r]) == StoredIndices(rs) + [r.randIndex]
  {
    assert |Payloads(rs + [r])| == |Payloads(rs) + [r.payload]|;
    assert |StoredIndices(rs + [r])| == |StoredIndices(rs) + [r.randIndex]|;
  }

  /**
   * The rand references `setupRandPointers` makes of stored indices: an index in
   * [0, n) refers to that node, any other value (-1 included) to none.
   */
  function Resolve(randIndices: seq<i32>): (rand: seq<int>)
    ensures |rand| == |randIndices| && RandsInRange(rand)
  {
    seq(|randIndices|, i requires 0 <= i < |randIndices| =>
      if 0 <= randIndices[i] < |randIndices| then randIndices[i] as int else NULL)
  }

  /** The rand references of the list decoded from records `rs`. */
  function Targets(rs: seq<Record>): seq<int> {
    Resolve(StoredIndices(rs))
  }

  /** `count` nodes chained head to tail, every rand reference inside the list. */
  ghost predicate IsList(data: seq<seq<byte>>, rand: seq<int>, prev: seq<int>, next: seq<int>,
                         head: int, tail: int, count: int)
  {
    && 0 <= count <= INT32_MAX
    && |data| == count && |rand| == count
    && RandsInRange(rand)
    && LinksByPosition(prev, next, count)
    && head == (if count > 0 then 0 else NULL)
    && tail == count - 1
  }

  class List {
    var data: seq<seq<byte>>
    var rand: seq<int>
    var prev: seq<int>
    var next: seq<int>
    var head: int
    var tail: int
    var count: int

    ghost predicate Valid()
      reads this
    {
      IsList(data, rand, prev, next, head, tail, count)
    }

    constructor ()
      ensures Valid() && data == [] && rand == []
    {
      data, rand, prev, next := [], [], [], [];
      head, tail, count := NULL, NULL, 0;
    }

    function GetCount(): (c: int)
      reads this
      requires Valid()
      ensures c == |data| == |rand|
    {
      count
    }

    /**
     * Appends a node holding `payload` with no rand reference at the tail.  `count++`
     * on a C `int` must not overflow.
     */
    method AddNode(payload: seq<byte>)
      requires Valid() && count < INT32_MAX
      modifies this
      ensures Valid()
      ensures data == old(data) + [payload] && rand == old(rand) + [NULL]
      ensures tail == old(count) && (old(count) == 0 ==> head == tail)
    {
      var newNode := count;
      data, rand := data + [payload], rand + [NULL];
      prev, next := prev + [NULL], next + [NULL];
      if head == NULL {
        head := newNode;
        tail := newNode;
      } else {
        next := next[tail := newNode];
        prev := prev[newNode := tail];
        tail := newNode;
      }
      count := count + 1;
    }

    /**
     * Points node `nodeIndex`'s rand at node `randIndex`; does nothing when either
     * index is outside [0, count).
     */
    method SetRand(nodeIndex: int, randIndex: int)
      requires Valid()
      modifies this`rand
      ensures Valid()
      ensures if 0 <= nodeIndex < count && 0 <= randIndex < count
        then rand == old(rand)[nodeIndex := randIndex]
        else rand == old(rand)
    {
      if nodeIndex < 0 || nodeIndex >= count || randIndex < 0 || randIndex >= count {
        return;
      }
      var node := head;
      for i := 0 to nodeIndex
        invariant node == i
      {
        node := next[node];
      }
      var randNode := head;
      for i := 0 to randIndex
        invariant randNode == i
      {
        randNode := next[randNode];
      }
      rand := rand[node := randNode];
    }

    /** Frees every node; the list is empty afterwards, whatever it held. */
    method Clear()
      modifies this
      ensures Valid() && data == [] && rand == []
    {
      data, rand, prev, next := [], [], [], [];
      head, tail, count := NULL, NULL, 0;
    }

    /**
     * The bytes written to the stream: the count, then one record per node in
     * head-to-tail order, whose rand index is the position of the rand target.
     */
    method Serialize() returns (out: seq<byte>)
      requires Valid()
      ensures out == Encode(RecordsOf(data, rand))
    {
      ghost var records := RecordsOf(data, rand);
      var ucount: u32 := count;
      out := EncodeU32(ucount);

      var nodes: seq<int> := [];
      var node := head;
      while node != NULL
        invariant |nodes| <= count
        invariant forall k :: 0 <= k < |nodes| ==> nodes[k] == k
        invariant node == if |nodes| < count then |nodes| else NULL
        decreases count - |nodes|
      {
        nodes := nodes + [node];
        node := next[node];
      }
      assert |nodes| == count;

      var nodeToIndex: map<int, i32> := map[];
      for i := 0 to |nodes|
        invariant forall k :: 0 <= k < i ==> k in nodeToIndex && nodeToIndex[k] == k
      {
        nodeToIndex := nodeToIndex[nodes[i] := i];
      }

      for i := 0 to |nodes|
        invariant out == EncodeU32(|records|) + EncodeRecords(records[..i])
      {
        var n := nodes[i];
        var dataSize: u32 := |data[n]| % 0x1_0000_0000;
        var sizeBytes := EncodeU32(dataSize);
        var payloadBytes := [];
        if dataSize > 0 {
          payloadBytes := data[n][..dataSize];
        }
        var randIndex: i32 := -1;
        if rand[n] != NULL {
          randIndex := nodeToIndex[rand[n]];
        }
        var randBytes := EncodeU32(AsU32(randIndex));
        RecordOfNode(data, rand, n, randIndex);
        EncodeRecordsSnoc(EncodeU32(|records|), records, i);
        out := out + (sizeBytes + payloadBytes + randBytes);
      }
      EncodeAllRecords(records);
    }

    /** `setupLinks`: the prev and next references of `n` nodes in read order. */
    static method SetupLinks(n: nat) returns (prev: seq<int>, next: seq<int>)
      ensures LinksByPosition(prev, next, n)
    {
      prev, next := [], [];
      for i := 0 to n
        invariant |prev| == i && |next| == i
        invariant forall k :: 0 <= k < i ==>
          prev[k] == k - 1 && next[k] == (if k < n - 1 then k + 1 else NULL)
      {
        if i > 0 {
          prev := prev + [i - 1];
        } else {
          prev := prev + [NULL];
        }
        if i < n - 1 {
          next := next + [i + 1];
        } else {
          next := next + [NULL];
        }
      }
    }

    /** `setupRandPointers`: the rand reference of each of `n` nodes read. */
    static method SetupRandPointers(n: nat, randIndices: seq<i32>) returns (rand: seq<int>)
      requires |randIndices| == n
      ensures rand == Resolve(randIndices)
    {
      rand := [];
      for i := 0 to n
        invariant rand == Resolve(randIndices)[..i]
      {
        var randomIndex := randIndices[i];
        if randomIndex >= 0 && randomIndex < n {
          rand := rand + [randomIndex as int];
        } else {
          rand := rand + [NULL];
        }
      }
    }

    /**
     * The end of `Deserialize`: the nodes read become the list, chained in read
     * order, with their rand references resolved.
     */
    method LinkNodes(rawNodes: seq<seq<byte>>, randIndices: seq<i32>)
      requires |rawNodes| == |randIndices| <= INT32_MAX
      modifies this
      ensures Valid() && data == rawNodes && rand == Resolve(randIndices)
    {
      var newPrev, newNext := SetupLinks(|rawNodes|);
      var newRand := SetupRandPointers(|rawNodes|, randIndices);
      prev, next, rand, data := newPrev, newNext, newRand, rawNodes;
      if |rawNodes| > 0 {
        head, tail := 0, |rawNodes| - 1;
      } else {
        head, tail := NULL, NULL;
      }
      count := |rawNodes|;
    }

    /**
     * Replaces the list with the one read from `input`.  It clears the list first;
     * a short read anywhere, or a count above the largest `int`, makes it fail and
     * leaves the list empty.  Bytes after the last record are not read.
     */
    method Deserialize(input: seq<byte>) returns (ok: bool)
      modifies this
      ensures Valid()
      ensures ok <==> Decode(input).Some? && |Decode(input).value| <= INT32_MAX
      ensures ok ==>
        && data == Payloads(Decode(input).value)
        && rand == Targets(Decode(input).value)
      ensures !ok ==> data == [] && rand == []
    {
      Clear();
      var header := ReadUint32(input);
      if header.None? {
        return false;
      }
      var newCount, rest := header.value.0, header.value.1;
      if newCount > INT32_MAX {
        return false;
      }

      var rawNodes: seq<seq<byte>> := [];
      var randIndices: seq<i32> := [];
      ghost var read: seq<Record> := [];
      var i := 0;
      while i < newCount
        invariant 0 <= i <= newCount
        invariant ReadNodes(header.value.1, i) == Some((read, rest))
        invariant |rawNodes| == |randIndices| == |read| == i
        invariant rawNodes == Payloads(read) && randIndices == StoredIndices(read)
        modifies {}
      {
        var node := ReadNode(rest);
        if node.None? {
          ReadNodesFailurePersists(header.value.1, i + 1, newCount);
          return false;
        }
        ReadOneMore(read, node.value.0);
        rawNodes := rawNodes + [node.value.0.payload];
        randIndices := randIndices + [node.value.0.randIndex];
        read := read + [node.value.0];
        rest := node.value.1;
        i := i + 1;
      }
      assert Decode(input) == Some(read);

      LinkNodes(rawNodes, randIndices);
      ok := true;
    }
  }

  /**
   * Round trip: for a well-formed list whose payloads fit the length field, decoding
   * what `Serialize` writes gives back the count, every payload and every rand
   * reference, NULL staying NULL.
   */
  lemma RoundTrip(data: seq<seq<byte>>, rand: seq<int>)
    requires |data| == |rand| <= INT32_MAX && RandsInRange(rand)
    requires forall i :: 0 <= i < |data| ==> |data[i]| < 0x1_0000_0000
    ensures var rs := RecordsOf(data, rand);
      && Decode(Encode(rs)) == Some(rs)
      && Payloads(rs) == data
      && Targets(rs) == rand
  {
    var rs := RecordsOf(data, rand);
    assert Encode(rs) + [] == Encode(rs);
    DecodeEncode(rs, []);
  }

  /** The count `Deserialize` as written stores: `static_cast<int>(newCount)`. */
  function AsWrittenCount(newCount: u32): (c: int)
    ensures c == newCount <==> newCount <= INT32_MAX
  {
    AsI32(newCount)
  }

  /**
   * A stream of 2^31 empty records decodes, yet the count stored for it as written
   * is negative, so the list would claim -2^31 nodes.
   */
  lemma AsWrittenCountNegative()
    ensures var rs := seq(0x8000_0000, _ => Record([], -1));
      && Decode(Encode(rs)) == Some(rs)
      && AsWrittenCount(|rs|) < 0
  {
    var rs := seq(0x8000_0000, _ => Record([], -1));
    assert Encode(rs) + [] == Encode(rs);
    DecodeEncode(rs, []);
  }
}
