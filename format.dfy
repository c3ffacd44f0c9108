/**
 * The binary record of a list: a `uint32_t` node count followed, per node in
 * head-to-tail order, by a `uint32_t` payload length, the payload bytes (none when the
 * length is 0) and the `int32_t` index of the node's rand target (-1 for none).
 *
 * The writer side is `Encode`; the reader side is `ReadUint32`, `ReadNode`,
 * `ReadNodes` and `Decode`, which read from the front of a byte stream and report a
 * short read as `None`.
 */
module Format {

  import opened Wrappers
  import opened Bytes

  /** What one node contributes to the stream: its payload and its stored rand index. */
  datatype Record = Record(payload: seq<byte>, randIndex: i32)

  /** A payload whose length fits the `uint32_t` length field. */
  predicate Encodable(r: Record) {
    |r.payload| < 0x1_0000_0000
  }

  /** A sequence of records whose count and every length fit their fields. */
  predicate WellFormed(rs: seq<Record>) {
    |rs| < 0x1_0000_0000 && forall i :: 0 <= i < |rs| ==> Encodable(rs[i])
  }

  /** Size of the records in bytes: 4 + length + 4 for each record. */
  function RecordsSize(rs: seq<Record>): nat {
    if rs == [] then 0 else RecordsSize(rs[..|rs| - 1]) + 8 + |rs[|rs| - 1].payload|
  }

  // ---------------------------------------------------------------- writer

  function EncodeRecord(r: Record): (b: seq<byte>)
    requires Encodable(r)
    ensures |b| == 8 + |r.payload|
  {
    EncodeU32(|r.payload|)
      + (if |r.payload| > 0 then r.payload else [])
      + EncodeU32(AsU32(r.randIndex))
  }

  function EncodeRecords(rs: seq<Record>): (b: seq<byte>)
    requires forall i :: 0 <= i < |rs| ==> Encodable(rs[i])
    ensures |b| == RecordsSize(rs)
  {
    if rs == [] then [] else EncodeRecords(rs[..|rs| - 1]) + EncodeRecord(rs[|rs| - 1])
  }

  /** The whole record: 4 bytes of count, then the records in order. */
  function Encode(rs: seq<Record>): (b: seq<byte>)
    requires WellFormed(rs)
    ensures |b| == 4 + RecordsSize(rs)
  {
    EncodeU32(|rs|) + EncodeRecords(rs)
  }

  // ---------------------------------------------------------------- reader
  //
  // The stream is modelled by the bytes not yet read: each read returns what it
  // decoded together with the rest of the stream after it.

  /**
   * `readUint32`: the first four bytes, or a short read when fewer than four
   * remain.
   */
  function ReadUint32(s: seq<byte>): (r: Option<(u32, seq<byte>)>)
    ensures r.Some? <==> |s| >= 4
    ensures r.Some? ==> s == EncodeU32(r.value.0) + r.value.1
  {
    if |s| >= 4 then
      EncodeDecodeU32(s[..4]);
      assert s == s[..4] + s[4..];
      Some((DecodeU32(s[..4]), s[4..]))
    else
      None
  }

  /**
   * `readNode`: the length, the payload (read only when the length is not 0) and the
   * `int32_t` rand index.  It fails exactly when the stream ends before the length
   * field or before the 4 + length + 4 bytes the length announces; on success it has
   * consumed exactly the encoding of the record it returns.
   */
  function ReadNode(s: seq<byte>): (r: Option<(Record, seq<byte>)>)
    ensures r.Some? <==> |s| >= 4 && |s| >= 8 + DecodeU32(s[..4])
    ensures r.Some? ==> Encodable(r.value.0) && s == EncodeRecord(r.value.0) + r.value.1
  {
    match ReadUint32(s)
    case None => None
    case Some((dataSize, afterSize)) =>
      assert s[..4] == EncodeU32(dataSize);
      DecodeEncodeU32(dataSize);
      if dataSize > 0 && |afterSize| < dataSize then
        None
      else
        var payload := if dataSize > 0 then afterSize[..dataSize] else [];
        var afterData := afterSize[dataSize..];
        assert afterSize == payload + afterData;
        match ReadUint32(afterData)
        case None => None
        case Some((u, rest)) =>
          var rec := Record(payload, AsI32(u));
          RecordLayout(payload, u, rest);
          Some((rec, rest))
  }

  /** The bytes of a record read back from a length, a payload and a rand index field. */
  lemma RecordLayout(payload: seq<byte>, u: u32, rest: seq<byte>)
    requires |payload| < 0x1_0000_0000
    ensures EncodeRecord(Record(payload, AsI32(u))) + rest
      == EncodeU32(|payload|) + (payload + (EncodeU32(u) + rest))
  {
    AsU32AsI32(u);
    assert (if |payload| > 0 then payload else []) == payload;
    Associative(EncodeU32(|payload|) + payload, EncodeU32(u), rest);
    Associative(EncodeU32(|payload|), payload, EncodeU32(u) + rest);
  }

  /**
   * The loop of `Deserialize` that calls `readNode` `n` times: the records read so
   * far, in order, and the rest of the stream.  On success the bytes consumed are
   * exactly the encoding of those records.
   */
  function ReadNodes(s: seq<byte>, n: nat): (r: Option<(seq<Record>, seq<byte>)>)
    ensures r.Some? ==>
      && |r.value.0| == n
      && (forall i :: 0 <= i < n ==> Encodable(r.value.0[i]))
  {
    if n == 0 then
      Some(([], s))
    else
      match ReadNodes(s, n - 1)
      case None => None
      case Some((rs, rest)) =>
        match ReadNode(rest)
        case None => None
        case Some((rec, rest')) =>
          Some((rs + [rec], rest'))
  }

  /** The count, then that many records. */
  function Decode(s: seq<byte>): (r: Option<seq<Record>>)
    ensures r.Some? ==> WellFormed(r.value)
  {
    match ReadUint32(s)
    case None => None
    case Some((n, rest)) =>
      match ReadNodes(rest, n)
      case None => None
      case Some((rs, _)) => Some(rs)
  }

  // ---------------------------------------------------------------- properties

  lemma Associative(a: seq<byte>, b: seq<byte>, c: seq<byte>)
    ensures a + b + c == a + (b + c)
  {
  }

  /** Writing one more record after a prefix of `rs` writes the next longer prefix. */
  lemma EncodeRecordsSnoc(header: seq<byte>, rs: seq<Record>, i: nat)
    requires forall k :: 0 <= k < |rs| ==> Encodable(rs[k])
    requires i < |rs|
    ensures header + EncodeRecords(rs[..i + 1]) == header + EncodeRecords(rs[..i]) + EncodeRecord(rs[i])
  {
    assert rs[..i + 1][..i] == rs[..i];
    Associative(header, EncodeRecords(rs[..i]), EncodeRecord(rs[i]));
  }

  /** The whole record is the count followed by the longest prefix of the records. */
  lemma EncodeAllRecords(rs: seq<Record>)
    requires WellFormed(rs)
    ensures Encode(rs) == EncodeU32(|rs|) + EncodeRecords(rs[..|rs|])
  {
    assert rs[..|rs|] == rs;
  }

  /** What `ReadNodes` consumed is exactly the encoding of the records it returns. */
  lemma {:induction false} ReadNodesSound(s: seq<byte>, n: nat)
    requires ReadNodes(s, n).Some?
    ensures s == EncodeRecords(ReadNodes(s, n).value.0) + ReadNodes(s, n).value.1
  {
    if n == 0 {
      assert s == [] + s;
    } else {
      ReadNodesSound(s, n - 1);
      var prev := ReadNodes(s, n - 1).value;
      var node := ReadNode(prev.1).value;
      var rs' := prev.0 + [node.0];
      assert rs'[..|rs'| - 1] == prev.0;
      assert ReadNodes(s, n).value == (rs', node.1);
      assert EncodeRecords(rs') == EncodeRecords(prev.0) + EncodeRecord(node.0);
      Associative(EncodeRecords(prev.0), EncodeRecord(node.0), node.1);
    }
  }

  /**
   * A decoded result always comes with its own encoding as a prefix of the stream:
   * nothing after the last record is looked at.
   */
  lemma DecodeConsumesEncoding(s: seq<byte>)
    requires Decode(s).Some?
    ensures Encode(Decode(s).value) <= s
  {
    var (n, rest) := ReadUint32(s).value;
    ReadNodesSound(rest, n);
    var (rs, rest') := ReadNodes(rest, n).value;
    assert s == Encode(rs) + rest';
  }

  /** Once `readNode` has failed, reading more records still fails. */
  lemma {:induction false} ReadNodesFailurePersists(s: seq<byte>, k: nat, m: nat)
    requires k <= m
    requires ReadNodes(s, k).None?
    ensures ReadNodes(s, m).None?
    decreases m
  {
    if k < m {
      ReadNodesFailurePersists(s, k, m - 1);
    }
  }

  lemma ReadUint32Encode(v: u32, rest: seq<byte>)
    ensures ReadUint32(EncodeU32(v) + rest) == Some((v, rest))
  {
    var s := EncodeU32(v) + rest;
    assert s[..4] == EncodeU32(v);
    DecodeEncodeU32(v);
  }

  /** `readNode` on the bytes of a record gives back that record and the rest. */
  lemma ReadNodeEncode(rec: Record, rest: seq<byte>)
    requires Encodable(rec)
    ensures ReadNode(EncodeRecord(rec) + rest) == Some((rec, rest))
  {
    var len := |rec.payload|;
    var tail := EncodeU32(AsU32(rec.randIndex)) + rest;
    var s := EncodeRecord(rec) + rest;
    assert s == EncodeU32(len) + (rec.payload + tail);
    ReadUint32Encode(len, rec.payload + tail);
    assert (rec.payload + tail)[len..] == tail;
    assert (if len > 0 then (rec.payload + tail)[..len] else []) == rec.payload;
    ReadUint32Encode(AsU32(rec.randIndex), rest);
    AsI32AsU32(rec.randIndex);
  }

  lemma {:induction false} ReadNodesEncode(rs: seq<Record>, rest: seq<byte>)
    requires forall i :: 0 <= i < |rs| ==> Encodable(rs[i])
    ensures ReadNodes(EncodeRecords(rs) + rest, |rs|) == Some((rs, rest))
  {
    if rs != [] {
      var init, last := rs[..|rs| - 1], rs[|rs| - 1];
      assert init + [last] == rs;
      var s := EncodeRecords(rs) + rest;
      assert s == EncodeRecords(init) + (EncodeRecord(last) + rest) by {
        assert EncodeRecords(rs) == EncodeRecords(init) + EncodeRecord(last);
        Associative(EncodeRecords(init), EncodeRecord(last), rest);
      }
      ReadNodesEncode(init, EncodeRecord(last) + rest);
      assert ReadNodes(s, |rs| - 1) == Some((init, EncodeRecord(last) + rest));
      ReadNodeEncode(last, rest);
      assert ReadNode(EncodeRecord(last) + rest) == Some((last, rest));
    } else {
      assert EncodeRecords(rs) + rest == rest;
    }
  }

  /**
   * Round trip: decoding the encoding of well-formed records gives them back,
   * whatever follows the encoding in the stream.
   */
  lemma DecodeEncode(rs: seq<Record>, rest: seq<byte>)
    requires WellFormed(rs)
    ensures Decode(Encode(rs) + rest) == Some(rs)
  {
    var s := Encode(rs) + rest;
    assert s == EncodeU32(|rs|) + (EncodeRecords(rs) + rest);
    ReadUint32Encode(|rs|, EncodeRecords(rs) + rest);
    ReadNodesEncode(rs, rest);
  }

  /** Bytes after the last record are never read. */
  lemma DecodeIgnoresTrailing(s: seq<byte>, t: seq<byte>)
    requires Decode(s).Some?
    ensures Decode(s + t) == Decode(s)
  {
    var rs := Decode(s).value;
    var e := Encode(rs);
    DecodeConsumesEncoding(s);
    assert s == e + s[|e|..];
    assert s + t == e + (s[|e|..] + t);
    DecodeEncode(rs, s[|e|..] + t);
    DecodeEncode(rs, s[|e|..]);
  }

  /** No encoding is a prefix of a different one. */
  lemma EncodingPrefixUnique(rs: seq<Record>, rs': seq<Record>)
    requires WellFormed(rs) && WellFormed(rs')
    requires Encode(rs') <= Encode(rs)
    ensures rs' == rs
  {
    var e, e' := Encode(rs), Encode(rs');
    assert e + [] == e;
    DecodeEncode(rs, []);
    assert e == e' + e[|e'|..];
    DecodeEncode(rs', e[|e'|..]);
  }

  /** A stream cut off anywhere inside an encoding fails to decode. */
  lemma DecodeTruncated(rs: seq<Record>, t: seq<byte>)
    requires WellFormed(rs)
    requires t < Encode(rs)
    ensures Decode(t).None?
  {
    if Decode(t).Some? {
      DecodeConsumesEncoding(t);
      EncodingPrefixUnique(rs, Decode(t).value);
      assert false;
    }
  }

  /** Decoding fails exactly when no well-formed encoding starts the stream. */
  lemma DecodeFailsIffNoEncoding(s: seq<byte>)
    ensures Decode(s).None? <==> forall rs :: WellFormed(rs) ==> !(Encode(rs) <= s)
  {
    if Decode(s).Some? {
      DecodeConsumesEncoding(s);
    }
    forall rs | WellFormed(rs) && Encode(rs) <= s
      ensures Decode(s) == Some(rs)
    {
      var e := Encode(rs);
      assert s == e + s[|e|..];
      DecodeEncode(rs, s[|e|..]);
    }
  }
}
