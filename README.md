# Doubly-linked list with rand references, and its binary serializer

`DoublyLinkedListSerializer.cpp` defines a doubly-linked list of string-carrying
nodes. Besides `prev` and `next`, each node has a `rand` pointer to any node of
the same list (itself included) or to none. `List::Serialize` writes the list to
a file in a compact binary format. `List::Deserialize` rebuilds an equal list from
such a file.

The format, with integers in the host's byte order (little-endian in this model):

- a `uint32_t` node count;
- per node, head to tail:
  - a `uint32_t` payload length;
  - the payload bytes, none when the length is 0;
  - the `int32_t` position of the node's rand target, or -1 for none.

This project models the list and both directions of the format in Dafny, and
proves them against each other.

- `Bytes` (bytes.dfy): the byte, `uint32_t` and `int32_t` domains. It also holds:
  - the 4-byte little-endian layout of a `uint32_t` and its inverse;
  - the two's-complement reinterpretation between `int32_t` and `uint32_t`.
- `Format` (format.dfy): the stream as a sequence of `Record`s, each a payload plus
  a stored rand index.
  - Writer side: `EncodeRecord`, `EncodeRecords` and `Encode`.
  - Reader side: `ReadUint32`, `ReadNode`, the read loop `ReadNodes` and `Decode`.
    The stream is the bytes not yet read: each read returns its value and the rest
    of the stream, or `None` where the C++ throws on a short `fread`.
  - The lemmas cover the round trip, the prefix property and the failure cases.
- `LinkedList` (linked_list.dfy): the class `List`. Its fields match the C++ object:
  - `head`, `tail` and `count`;
  - one sequence per node field: `data`, `rand`, `prev` and `next`.

  A node is identified by its head-to-tail position, and a pointer is that
  position, with `NULL` (-1) for `nullptr`.
  - `Valid()` is the invariant every operation keeps: the nodes are chained by
    position, `head` is the first node and `tail` the last, and every rand target
    is inside the list.
  - The C++ members that change or walk the list become methods with the source's
    loops: `AddNode`, `SetRand`, `Serialize`, `setupLinks`, `setupRandPointers` and
    `Deserialize`. `Clear` is a method without the delete loop (see "Left out").
    `GetCount` is a function. `readUint32` and `readNode` are the pure functions
    `Format.ReadUint32` and `Format.ReadNode` on the rest of the stream.
  - `Serialize` is proved to produce `Encode` of the list's records.
  - `Deserialize` is proved to rebuild the list that `Decode` describes.
- `ListTests` (list_tests.dfy): the three test scenarios of the program. It adds
  two more: out-of-range `SetRand`, and out-of-range stored rand indices. Each is a
  method whose postcondition is what the scenario checks, or more.

The C++ `Deserialize` throws on a short read, after it has called `Clear()`. Its
temporary nodes are owned by `unique_ptr`s and freed on the way out, so a failed
read leaves the list empty. Callers should not rely on the list after a failed
read; the model pins it to that empty state: `Deserialize` returns `false`, and the
list is empty and `Valid()`.

## Model

| member | source | states |
|---|---|---|
| Bytes.DecodeEncodeU32 | DoublyLinkedListSerializer.cpp:118-124 | reading back the 4 bytes written for a `uint32_t` gives that value |
| Bytes.EncodeDecodeU32 | DoublyLinkedListSerializer.cpp:118-124 | any 4 bytes read as a `uint32_t` are exactly that value's encoding |
| Bytes.EncodeU32Injective | DoublyLinkedListSerializer.cpp:79-82 | different counts or lengths are written as different bytes |
| Bytes.AsI32 | DoublyLinkedListSerializer.cpp:139-141 | the `int32_t` read over 4 bytes agrees with the `uint32_t` modulo 2^32, and equals it exactly when it is at most 2^31-1 |
| Bytes.AsI32AsU32 | DoublyLinkedListSerializer.cpp:108-114 | a rand index written as 4 bytes and read back is unchanged, -1 included |
| Format.EncodeRecord | DoublyLinkedListSerializer.cpp:97-114 | one node takes 8 + length bytes: the length field, the payload and the rand index |
| Format.Encode | DoublyLinkedListSerializer.cpp:74-116 | the file is 4 + the sum of (8 + length) over the nodes |
| Format.ReadUint32 | DoublyLinkedListSerializer.cpp:118-124 | succeeds exactly when 4 bytes remain, and consumes exactly the encoding of the value it returns |
| Format.ReadNode | DoublyLinkedListSerializer.cpp:126-144 | fails exactly when the stream ends before the length field or before the 8 + length bytes it announces; on success it consumes exactly the encoding of the record it returns |
| Format.ReadNodes | DoublyLinkedListSerializer.cpp:192-198 | the read loop returns exactly n records, each with an encodable payload |
| Format.ReadNodesSound | DoublyLinkedListSerializer.cpp:192-198 | the bytes the read loop consumed are the encoding of the records it returned |
| Format.ReadNodesFailurePersists | DoublyLinkedListSerializer.cpp:192-198 | once a read in the loop has failed, reading more nodes cannot succeed |
| Format.Decode | DoublyLinkedListSerializer.cpp:176-198 | a decoded list has a count and lengths that fit their fields |
| Format.DecodeConsumesEncoding | DoublyLinkedListSerializer.cpp:176-198 | a successful read consumed exactly the encoding of what it returned, a prefix of the stream |
| Format.ReadUint32Encode | DoublyLinkedListSerializer.cpp:118-124 | reading a `uint32_t` from its encoding followed by anything gives it back and leaves the rest |
| Format.ReadNodeEncode | DoublyLinkedListSerializer.cpp:126-144 | `readNode` on a record's bytes gives back that record, an empty payload included, and leaves the rest |
| Format.ReadNodesEncode | DoublyLinkedListSerializer.cpp:192-198 | the read loop over the encodings of n records gives back those records and leaves the rest |
| Format.DecodeEncode | DoublyLinkedListSerializer.cpp:176-198 | round trip: decoding the encoding of well-formed records, whatever follows it, gives them back |
| Format.DecodeIgnoresTrailing | DoublyLinkedListSerializer.cpp:176-198 | bytes after the last record never change the result |
| Format.EncodingPrefixUnique | DoublyLinkedListSerializer.cpp:74-116 | no encoding is a prefix of a different one |
| Format.DecodeTruncated | DoublyLinkedListSerializer.cpp:176-198 | a stream cut off anywhere inside an encoding fails to read |
| Format.DecodeFailsIffNoEncoding | DoublyLinkedListSerializer.cpp:176-198 | reading fails if and only if no well-formed encoding starts the stream |
| LinkedList.Truncated | DoublyLinkedListSerializer.cpp:97 | the length written is exactly the payload size cast to `uint32_t` (its size modulo 2^32), the bytes written are that prefix of the payload, and it is the whole payload whenever that fits |
| LinkedList.RecordsOf | DoublyLinkedListSerializer.cpp:97-114 | the records written for a valid list are well-formed, one per node |
| LinkedList.RecordOfNode | DoublyLinkedListSerializer.cpp:97-114 | the three writes for a node are exactly its record's encoding |
| LinkedList.Resolve | DoublyLinkedListSerializer.cpp:163-174 | resolving stored indices gives one rand reference per node, each NULL or inside the list |
| LinkedList.List.constructor | DoublyLinkedListSerializer.cpp:54-56 | a new list is empty and valid |
| LinkedList.List.GetCount | DoublyLinkedListSerializer.cpp:42 | the count is the number of nodes |
| LinkedList.List.AddNode | DoublyLinkedListSerializer.cpp:59-73 | appends a node with the payload and no rand target as the new tail; the earlier nodes and their rand references are unchanged; the first node is both head and tail |
| LinkedList.List.SetRand | DoublyLinkedListSerializer.cpp:216-233 | with both indices in [0, count) only node nodeIndex's rand changes, to randIndex; otherwise nothing changes |
| LinkedList.List.Clear | DoublyLinkedListSerializer.cpp:235-245 | afterwards the list is empty and valid whatever it held, so a second `Clear` changes nothing |
| LinkedList.List.Serialize | DoublyLinkedListSerializer.cpp:74-116 | the bytes written are `Encode` of the nodes' records, head to tail, with rand targets as positions |
| LinkedList.List.SetupLinks | DoublyLinkedListSerializer.cpp:146-161 | node i gets prev i-1 and next i+1, NULL at the ends |
| LinkedList.List.SetupRandPointers | DoublyLinkedListSerializer.cpp:163-174 | stored indices in [0, n) become references to that node, every other value NULL |
| LinkedList.List.LinkNodes | DoublyLinkedListSerializer.cpp:200-209 | the nodes read become a valid list with those payloads and resolved rand references |
| LinkedList.List.Deserialize | DoublyLinkedListSerializer.cpp:176-214 | succeeds if and only if the stream starts with a well-formed encoding whose count fits an `int`; then the list holds the decoded payloads and resolved rand references; otherwise it is left empty; it is valid either way |
| LinkedList.RoundTrip | DoublyLinkedListSerializer.cpp:74-214 | for payloads shorter than 2^32 bytes, reading what `Serialize` wrote gives back every payload and every rand reference, NULL included |
| LinkedList.AsWrittenCount | DoublyLinkedListSerializer.cpp:209 | the count stored as written equals the count read if and only if that is at most 2^31-1 |
| LinkedList.AsWrittenCountNegative | DoublyLinkedListSerializer.cpp:209 | a stream of 2^31 empty records decodes, yet the count stored for it as written is negative |
| ListTests.SerializeThenDeserialize | DoublyLinkedListSerializer.cpp:266-287 | writing a list and reading it into a fresh one succeeds with the same count, payloads and rand references |
| ListTests.TestEmptyList | DoublyLinkedListSerializer.cpp:266-289 | reading the empty list back succeeds, with count 0 and no head or tail |
| ListTests.TestSingleNode | DoublyLinkedListSerializer.cpp:291-316 | one self-referencing node comes back with count 1, its payload and its self-reference |
| ListTests.FiveNodes | DoublyLinkedListSerializer.cpp:319-324 | five appended nodes keep their order and have no rand targets |
| ListTests.TestMultipleNodes | DoublyLinkedListSerializer.cpp:318-352 | five nodes come back with count 5, their payloads in order and rand references 2, 4, 0, 3, 1 |
| ListTests.TestSetRandOutOfRange | DoublyLinkedListSerializer.cpp:216-220 | `SetRand` calls with an index outside the list change no rand reference |
| ListTests.TestOutOfRangeRandIndex | DoublyLinkedListSerializer.cpp:166-172 | stored rand indices 3 and -7 in a 3-node stream are not an error and resolve to NULL |

## Left out

- File handling is left out: the `FILE*` null checks, `fopen`/`fclose`, and the
  test files on disk. `Serialize` returns the bytes it would write, and
  `Deserialize` takes the bytes of the file.
- The exceptions are all failures of the same read or write, so they are modelled
  as `None` in the reader or `false` from `Deserialize`. Their messages are left out.
- A write that comes up short is left out. `Serialize` has no failing path: a
  stream's write errors are I/O.
- Memory management is left out, since nodes are positions rather than heap objects:
  - `new`/`delete`, the `unique_ptr` ownership in `readNode` and `Deserialize`, and
    the destructor;
  - `reserve(newCount)`, which can fail to allocate for a huge count.
- `Clear`: the loop that deletes each node is memory management, so the model only
  resets the fields.
- `PrintList` and `main` are console output.
- `fwrite` of an integer writes it in the host's byte order, which the source leaves
  open; the model chooses little-endian. A big-endian host would give other bytes.
- The `FILE*` position: the C++ `Deserialize` leaves the file just after the last
  byte it read, and a later read continues from there. The model's `Deserialize`
  takes the bytes and does not return what it left unread; `Format.Decode` and
  `Format.DecodeConsumesEncoding` say how much a read consumes. Shared or
  concurrent use of one `FILE*` is not modelled.
- AddNode: requires `count < 2^31 - 1`. Only that many nodes fit the C `int` count,
  and `count++` beyond it is undefined behaviour.
- LinkedList.RoundTrip: holds only for payloads shorter than 2^32 bytes. `Serialize`
  writes the length cast to `uint32_t` and that many bytes, so a longer payload comes
  back truncated. That truncation is the modelled behaviour of `Serialize`.
- The `std::unordered_map` from node to index in `Serialize` is a map from position
  to position. Its `operator[]` default insert never happens for a valid list.

## Findings

| source | as written | input that shows it | evidently intended | confidence | as-written member | corrected member |
|---|---|---|---|---|---|---|
| DoublyLinkedListSerializer.cpp:209 | `count = static_cast<int>(newCount)` stores a stored count of 2^31 or more as a negative `int` | a stream whose count field is 0x80000000, followed by 2^31 empty records (8 bytes each) | reject a count that does not fit `int`, so `GetCount()` is never negative | not executed | LinkedList.AsWrittenCountNegative | LinkedList.List.Deserialize |
