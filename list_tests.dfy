/**
 * The scenarios of the program's own tests: a list is serialized, the bytes are
 * deserialized into a second list, and the copy is compared with the original.
 */
module ListTests {

  import opened Bytes
  import opened Format
  import opened LinkedList

  /** The bytes of an ASCII `std::string`. */
  function Ascii(s: string): seq<byte>
    requires forall i :: 0 <= i < |s| ==> s[i] as int < 0x80
  {
    seq(|s|, i requires 0 <= i < |s| => s[i] as int)
  }

  /**
   * Writes `src` and reads the bytes back into a fresh list: the copy has the same
   * count, the same payloads and the same rand references.
   */
  method SerializeThenDeserialize(src: List) returns (ok: bool, count: int, data: seq<seq<byte>>, rand: seq<int>)
    requires src.Valid()
    requires forall i :: 0 <= i < |src.data| ==> |src.data[i]| < 0x1_0000_0000
    ensures ok && count == |src.data| && data == src.data && rand == src.rand
  {
    var bytes := src.Serialize();
    var copy := new List();
    ok := copy.Deserialize(bytes);
    RoundTrip(src.data, src.rand);
    count, data, rand := copy.GetCount(), copy.data, copy.rand;
  }

  /** An empty list comes back empty, with no head and no tail. */
  method TestEmptyList() returns (ok: bool, count: int, head: int, tail: int)
    ensures ok && count == 0 && head == NULL && tail == NULL
  {
    var list := new List();
    var bytes := list.Serialize();
    var copy := new List();
    ok := copy.Deserialize(bytes);
    RoundTrip(list.data, list.rand);
    count, head, tail := copy.GetCount(), copy.head, copy.tail;
  }

  /** A single node whose rand points at itself keeps that self-reference. */
  method TestSingleNode() returns (count: int, data: seq<seq<byte>>, rand: seq<int>)
    ensures count == 1 && data == [Ascii("SingleNode")] && rand == [0]
  {
    var list := new List();
    list.AddNode(Ascii("SingleNode"));
    list.SetRand(0, 0);
    var ok;
    ok, count, data, rand := SerializeThenDeserialize(list);
  }

  /** The five payloads of the multiple-node scenario. */
  function FivePayloads(): seq<seq<byte>> {
    [Ascii("Node1"), Ascii("Node2"), Ascii("Node3"), Ascii("Node4"), Ascii("Node5")]
  }

  /** Five nodes appended in order: their rand references are all NULL. */
  method FiveNodes() returns (list: List)
    ensures fresh(list) && list.Valid()
    ensures list.data == FivePayloads() && list.rand == [NULL, NULL, NULL, NULL, NULL]
  {
    list := new List();
    list.AddNode(Ascii("Node1"));
    list.AddNode(Ascii("Node2"));
    list.AddNode(Ascii("Node3"));
    list.AddNode(Ascii("Node4"));
    list.AddNode(Ascii("Node5"));
  }

  /** Five nodes with rand references 0->2, 1->4, 2->0, 3->3 and 4->1. */
  method TestMultipleNodes() returns (count: int, data: seq<seq<byte>>, rand: seq<int>)
    ensures count == 5 && data == FivePayloads() && rand == [2, 4, 0, 3, 1]
  {
    var list := FiveNodes();
    list.SetRand(0, 2);
    list.SetRand(1, 4);
    list.SetRand(2, 0);
    list.SetRand(3, 3);
    list.SetRand(4, 1);
    var ok;
    ok, count, data, rand := SerializeThenDeserialize(list);
  }

  /** `SetRand` with an index outside the list leaves every rand reference as it was. */
  method TestSetRandOutOfRange() returns (rand: seq<int>)
    ensures rand == [NULL, NULL]
  {
    var list := new List();
    list.AddNode(Ascii("A"));
    list.AddNode([]);
    list.SetRand(2, 0);
    list.SetRand(0, -1);
    list.SetRand(-1, 1);
    var ok, count, data;
    ok, count, data, rand := SerializeThenDeserialize(list);
  }

  /**
   * Stored rand indices outside [0, count) are not an error: the nodes are read and
   * their rand references are NULL.
   */
  method TestOutOfRangeRandIndex() returns (ok: bool, count: int, rand: seq<int>)
    ensures ok && count == 3 && rand == [NULL, NULL, 0]
  {
    var records := [Record([], 3), Record(Ascii("x"), -7), Record([], 0)];
    DecodeEncode(records, []);
    assert Encode(records) + [] == Encode(records);
    var list := new List();
    ok := list.Deserialize(Encode(records));
    count, rand := list.GetCount(), list.rand;
  }
}
