/** The wire layout the decoder reads, written out as an encoder (the node data
    list of RFC 9197, section 4.4, with the Opaque State Snapshot of section
    4.4.2.13), and the round trips that pin the decoder down: a well-formed
    node, and a well-formed list of nodes, come back from their encoding. */
module IoamEncoding {
  import opened Common
  import opened Bytes
  import opened TraceType
  import opened IoamDecoder

  function Val(o: Option<nat>): nat
  {
    if o.Some? then o.value else 0
  }

  function Zeros(n: nat): (r: seq<byte>)
    ensures |r| == n
  {
    seq(n, _ => 0)
  }

  /** Raw bytes of the given width (zeros when absent or of another width). */
  function Raw(o: Option<seq<byte>>, w: nat): (r: seq<byte>)
    ensures |r| == w
  {
    if o.Some? && |o.value| == w then o.value else Zeros(w)
  }

  /** The bytes of field block `k` of a node. */
  function EncodeField(n: Node, k: FieldIndex): (r: seq<byte>)
    ensures |r| == Width(k)
  {
    match k
      case 0 => ToBE(Val(n.hopLimit), 1) + ToBE(Val(n.id), 3)
      case 1 => ToBE(Val(n.ingressId), 2) + ToBE(Val(n.egressId), 2)
      case 2 => ToBE(Val(n.timestampSecs), 4)
      case 3 => ToBE(Val(n.timestampFrac), 4)
      case 4 => ToBE(Val(n.transitDelay), 4)
      case 5 => Raw(n.namespaceData, 4)
      case 6 => ToBE(Val(n.queueDepth), 4)
      case 7 => ToBE(Val(n.csumComp), 4)
      case 8 => ToBE(Val(n.hopLimit), 1) + ToBE(Val(n.idWide), 7)
      case 9 => ToBE(Val(n.ingressIdWide), 4) + ToBE(Val(n.egressIdWide), 4)
      case 10 => Raw(n.namespaceDataWide, 8)
      case 11 => ToBE(Val(n.bufferOccupancy), 4)
  }

  /** The blocks of the first `k` fields the bitmask selects, in bit order. */
  function EncodeUpTo(n: Node, t: nat, k: nat): (r: seq<byte>)
    requires k <= FIELD_COUNT
    ensures |r| == Offset(t, k)
  {
    if k == 0 then []
    else EncodeUpTo(n, t, k - 1) + (if Present(t, k - 1) then EncodeField(n, k - 1) else [])
  }

  /** A node's data, exactly `NodeSize(t)` bytes long. */
  function EncodeNode(n: Node, t: nat): (r: seq<byte>)
    ensures |r| == NodeSize(t)
  {
    EncodeUpTo(n, t, FIELD_COUNT)
  }

  /** An optional value is set exactly when its bit is, and fits its width. */
  predicate Fits(o: Option<nat>, present: bool, bytes: nat)
  {
    (o.Some? <==> present) && (o.Some? ==> o.value < Pow256(bytes))
  }

  predicate RawFits(o: Option<seq<byte>>, present: bool, bytes: nat)
  {
    (o.Some? <==> present) && (o.Some? ==> |o.value| == bytes)
  }

  /** The nodes the decoder can produce for bitmask `t`: a field is set
      exactly when its bit is, and holds a value of its width. The hop limit
      belongs to both bit 0 and bit 8; both blocks carry the same value. */
  predicate NodeWF(n: Node, t: nat)
  {
    Fits(n.hopLimit, Present(t, 0) || Present(t, 8), 1)
    && Fits(n.id, Present(t, 0), 3)
    && Fits(n.ingressId, Present(t, 1), 2) && Fits(n.egressId, Present(t, 1), 2)
    && Fits(n.timestampSecs, Present(t, 2), 4) && Fits(n.timestampFrac, Present(t, 3), 4)
    && Fits(n.transitDelay, Present(t, 4), 4) && RawFits(n.namespaceData, Present(t, 5), 4)
    && Fits(n.queueDepth, Present(t, 6), 4) && Fits(n.csumComp, Present(t, 7), 4)
    && Fits(n.idWide, Present(t, 8), 7)
    && Fits(n.ingressIdWide, Present(t, 9), 4) && Fits(n.egressIdWide, Present(t, 9), 4)
    && RawFits(n.namespaceDataWide, Present(t, 10), 8)
    && Fits(n.bufferOccupancy, Present(t, 11), 4)
    && n.oss.None?
  }

  /** The encoding up to field `k` is a prefix of the encoding up to `j`. */
  lemma {:induction false} EncodePrefix(n: Node, t: nat, k: nat, j: nat)
    requires k <= j <= FIELD_COUNT
    ensures Offset(t, k) <= Offset(t, j)
    ensures EncodeUpTo(n, t, j)[..Offset(t, k)] == EncodeUpTo(n, t, k)
  {
    if k < j {
      EncodePrefix(n, t, k, j - 1);
      OffsetMonotone(t, k, j - 1);
      assert EncodeUpTo(n, t, j)[..Offset(t, j - 1)] == EncodeUpTo(n, t, j - 1);
    }
  }

  /** Field `k`'s chunk of an encoded node (whatever follows it) is that
      field's block. */
  lemma ChunkOfEncoding(n: Node, t: nat, k: FieldIndex, rest: seq<byte>)
    ensures Chunk(EncodeNode(n, t) + rest, t, k) == if Present(t, k) then EncodeField(n, k) else []
  {
    if Present(t, k) {
      var p := EncodeNode(n, t) + rest;
      EncodePrefix(n, t, k + 1, FIELD_COUNT);
      OffsetStep(t, k);
      OffsetFits(t, k);
      var e := EncodeUpTo(n, t, k + 1);
      assert e == EncodeUpTo(n, t, k) + EncodeField(n, k);
      assert p[..Offset(t, k + 1)] == e;
      assert p[Offset(t, k) .. Offset(t, k) + Width(k)] == e[Offset(t, k) ..];
    }
  }

  // Each unpack format reads back the block it packs, from the field's chunk
  // of an encoded node; a clear bit leaves the chunk empty and the format fails.

  /** The chunk of field `k` of an encoded node, whatever follows the node. */
  function EncodedChunk(n: Node, t: nat, k: FieldIndex, pad: seq<byte>): seq<byte>
  {
    Chunk(EncodeNode(n, t) + pad, t, k)
  }

  lemma U8U24Back(n: Node, t: nat, pad: seq<byte>, a: nat, b: nat)
    requires Present(t, 0) ==> a < 256 && b < Pow256(3) && EncodeField(n, 0) == ToBE(a, 1) + ToBE(b, 3)
    ensures UnpackU8U24(EncodedChunk(n, t, 0, pad)) == if Present(t, 0) then Some((a, b)) else None
  {
    ChunkOfEncoding(n, t, 0, pad);
    if Present(t, 0) { UnpackU8U24Pack(a, b, []); assert ToBE(a, 1) + ToBE(b, 3) == ToBE(a, 1) + ToBE(b, 3) + []; }
  }

  lemma U16U16Back(n: Node, t: nat, pad: seq<byte>, a: nat, b: nat)
    requires Present(t, 1) ==> a < Pow256(2) && b < Pow256(2) && EncodeField(n, 1) == ToBE(a, 2) + ToBE(b, 2)
    ensures UnpackU16U16(EncodedChunk(n, t, 1, pad)) == if Present(t, 1) then Some((a, b)) else None
  {
    ChunkOfEncoding(n, t, 1, pad);
    if Present(t, 1) { UnpackU16U16Pack(a, b, []); assert ToBE(a, 2) + ToBE(b, 2) == ToBE(a, 2) + ToBE(b, 2) + []; }
  }

  lemma U8U56Back(n: Node, t: nat, pad: seq<byte>, a: nat, b: nat)
    requires Present(t, 8) ==> a < 256 && b < Pow256(7) && EncodeField(n, 8) == ToBE(a, 1) + ToBE(b, 7)
    ensures UnpackU8U56(EncodedChunk(n, t, 8, pad)) == if Present(t, 8) then Some((a, b)) else None
  {
    ChunkOfEncoding(n, t, 8, pad);
    if Present(t, 8) { UnpackU8U56Pack(a, b, []); assert ToBE(a, 1) + ToBE(b, 7) == ToBE(a, 1) + ToBE(b, 7) + []; }
  }

  lemma U32U32Back(n: Node, t: nat, pad: seq<byte>, a: nat, b: nat)
    requires Present(t, 9) ==> a < Pow256(4) && b < Pow256(4) && EncodeField(n, 9) == ToBE(a, 4) + ToBE(b, 4)
    ensures UnpackU32U32(EncodedChunk(n, t, 9, pad)) == if Present(t, 9) then Some((a, b)) else None
  {
    ChunkOfEncoding(n, t, 9, pad);
    if Present(t, 9) { UnpackU32U32Pack(a, b, []); assert ToBE(a, 4) + ToBE(b, 4) == ToBE(a, 4) + ToBE(b, 4) + []; }
  }

  lemma U32Back(n: Node, t: nat, k: FieldIndex, pad: seq<byte>, v: Option<nat>)
    requires Fits(v, Present(t, k), 4)
    requires Present(t, k) ==> EncodeField(n, k) == ToBE(v.value, 4)
    ensures UnpackU32(EncodedChunk(n, t, k, pad)) == v
  {
    ChunkOfEncoding(n, t, k, pad);
    if Present(t, k) { UnpackU32Pack(v.value, []); assert ToBE(v.value, 4) == ToBE(v.value, 4) + []; }
  }

  lemma R32Back(n: Node, t: nat, pad: seq<byte>)
    requires RawFits(n.namespaceData, Present(t, 5), 4)
    ensures UnpackR32(EncodedChunk(n, t, 5, pad)) == n.namespaceData
  {
    ChunkOfEncoding(n, t, 5, pad);
    if Present(t, 5) { UnpackR32Pack(n.namespaceData.value, []); assert n.namespaceData.value == n.namespaceData.value + []; }
  }

  lemma R64Back(n: Node, t: nat, pad: seq<byte>)
    requires RawFits(n.namespaceDataWide, Present(t, 10), 8)
    ensures UnpackR64(EncodedChunk(n, t, 10, pad)) == n.namespaceDataWide
  {
    ChunkOfEncoding(n, t, 10, pad);
    if Present(t, 10) { UnpackR64Pack(n.namespaceDataWide.value, []); assert n.namespaceDataWide.value == n.namespaceDataWide.value + []; }
  }

  /** Field blocks 0 to 5 of an encoded well-formed node read back. */
  lemma LowFieldsBack(n: Node, t: nat, pad: seq<byte>)
    requires NodeWF(n, t)
    ensures UnpackU8U24(EncodedChunk(n, t, 0, pad)) == if Present(t, 0) then Some((Val(n.hopLimit), Val(n.id))) else None
    ensures UnpackU16U16(EncodedChunk(n, t, 1, pad)) == if Present(t, 1) then Some((Val(n.ingressId), Val(n.egressId))) else None
    ensures UnpackU32(EncodedChunk(n, t, 2, pad)) == n.timestampSecs
    ensures UnpackU32(EncodedChunk(n, t, 3, pad)) == n.timestampFrac
    ensures UnpackU32(EncodedChunk(n, t, 4, pad)) == n.transitDelay
    ensures UnpackR32(EncodedChunk(n, t, 5, pad)) == n.namespaceData
  {
    U8U24Back(n, t, pad, Val(n.hopLimit), Val(n.id));
    U16U16Back(n, t, pad, Val(n.ingressId), Val(n.egressId));
    U32Back(n, t, 2, pad, n.timestampSecs);
    U32Back(n, t, 3, pad, n.timestampFrac);
    U32Back(n, t, 4, pad, n.transitDelay);
    R32Back(n, t, pad);
  }

  /** Field blocks 6 to 11 of an encoded well-formed node read back. */
  lemma HighFieldsBack(n: Node, t: nat, pad: seq<byte>)
    requires NodeWF(n, t)
    ensures UnpackU32(EncodedChunk(n, t, 6, pad)) == n.queueDepth
    ensures UnpackU32(EncodedChunk(n, t, 7, pad)) == n.csumComp
    ensures UnpackU8U56(EncodedChunk(n, t, 8, pad)) == if Present(t, 8) then Some((Val(n.hopLimit), Val(n.idWide))) else None
    ensures UnpackU32U32(EncodedChunk(n, t, 9, pad)) == if Present(t, 9) then Some((Val(n.ingressIdWide), Val(n.egressIdWide))) else None
    ensures UnpackR64(EncodedChunk(n, t, 10, pad)) == n.namespaceDataWide
    ensures UnpackU32(EncodedChunk(n, t, 11, pad)) == n.bufferOccupancy
  {
    U32Back(n, t, 6, pad, n.queueDepth);
    U32Back(n, t, 7, pad, n.csumComp);
    U8U56Back(n, t, pad, Val(n.hopLimit), Val(n.idWide));
    U32U32Back(n, t, pad, Val(n.ingressIdWide), Val(n.egressIdWide));
    R64Back(n, t, pad);
    U32Back(n, t, 11, pad, n.bufferOccupancy);
  }

  /** Every field of an encoded well-formed node reads back. */
  lemma FieldsBack(n: Node, t: nat, pad: seq<byte>)
    requires NodeWF(n, t)
    ensures NodeFields(EncodeNode(n, t) + pad, t) == n
  {
    LowFieldsBack(n, t, pad);
    HighFieldsBack(n, t, pad);
  }

  /** Decoding an encoded well-formed node gives it back, whatever padding
      follows it in its chunk. */
  lemma DecodeEncodeNode(n: Node, t: nat, pad: seq<byte>)
    requires NodeWF(n, t)
    ensures DecodeNode(EncodeNode(n, t) + pad, t) == Some(n)
  {
    DecodeNodeFields(EncodeNode(n, t) + pad, t);
    FieldsBack(n, t, pad);
  }

  /** Every selected field's chunk is whole when the chunk is at least the node size. */
  lemma ChunksWhole(p: seq<byte>, t: nat)
    requires |p| >= NodeSize(t)
    ensures forall k: FieldIndex :: |Chunk(p, t, k)| == if Present(t, k) then Width(k) else 0
  {
    forall k: FieldIndex ensures |Chunk(p, t, k)| == if Present(t, k) then Width(k) else 0 {
      if Present(t, k) { OffsetFits(t, k); }
    }
  }

  /** The short fields the decoder produces are set exactly for their bits,
      within their widths (bits 0 to 3). */
  lemma DecodedShortIdsWF(p: seq<byte>, t: nat)
    requires |p| >= NodeSize(t)
    ensures var m := NodeFields(p, t);
      Fits(m.id, Present(t, 0), 3)
      && Fits(m.ingressId, Present(t, 1), 2) && Fits(m.egressId, Present(t, 1), 2)
      && Fits(m.timestampSecs, Present(t, 2), 4) && Fits(m.timestampFrac, Present(t, 3), 4)
  {
    ChunksWhole(p, t);
    if Present(t, 0) { BEBound(Chunk(p, t, 0)[1..4]); }
    if Present(t, 1) { BEBound(Chunk(p, t, 1)[..2]); BEBound(Chunk(p, t, 1)[2..4]); }
    if Present(t, 2) { BEBound(Chunk(p, t, 2)[..4]); }
    if Present(t, 3) { BEBound(Chunk(p, t, 3)[..4]); }
  }

  /** Bits 4 to 7 likewise. */
  lemma DecodedShortDataWF(p: seq<byte>, t: nat)
    requires |p| >= NodeSize(t)
    ensures var m := NodeFields(p, t);
      Fits(m.transitDelay, Present(t, 4), 4) && RawFits(m.namespaceData, Present(t, 5), 4)
      && Fits(m.queueDepth, Present(t, 6), 4) && Fits(m.csumComp, Present(t, 7), 4)
  {
    ChunksWhole(p, t);
    if Present(t, 4) { BEBound(Chunk(p, t, 4)[..4]); }
    if Present(t, 6) { BEBound(Chunk(p, t, 6)[..4]); }
    if Present(t, 7) { BEBound(Chunk(p, t, 7)[..4]); }
  }

  /** So are the hop limit and the wide fields. */
  lemma DecodedWideWF(p: seq<byte>, t: nat)
    requires |p| >= NodeSize(t)
    ensures var m := NodeFields(p, t);
      Fits(m.hopLimit, Present(t, 0) || Present(t, 8), 1)
      && Fits(m.idWide, Present(t, 8), 7)
      && Fits(m.ingressIdWide, Present(t, 9), 4) && Fits(m.egressIdWide, Present(t, 9), 4)
      && RawFits(m.namespaceDataWide, Present(t, 10), 8)
      && Fits(m.bufferOccupancy, Present(t, 11), 4)
      && m.oss.None?
  {
    ChunksWhole(p, t);
    assert Pow256(1) == 256;
    if Present(t, 8) { BEBound(Chunk(p, t, 8)[1..8]); }
    if Present(t, 9) { BEBound(Chunk(p, t, 9)[..4]); BEBound(Chunk(p, t, 9)[4..8]); }
    if Present(t, 11) { BEBound(Chunk(p, t, 11)[..4]); }
  }

  /** Whatever decodes is well formed: `NodeWF` is exactly the decoder's range
      (with `DecodeEncodeNode`, every well-formed node is decoded from some chunk). */
  lemma DecodedNodeWF(p: seq<byte>, t: nat)
    requires DecodeNode(p, t).Some?
    ensures NodeWF(DecodeNode(p, t).value, t)
  {
    DecodeNodeFields(p, t);
    DecodedShortIdsWF(p, t);
    DecodedShortDataWF(p, t);
    DecodedWideWF(p, t);
  }

  // ----- Whole traces -----

  /** A snapshot as the decoder reads it: a header packing the data length in
      words and the schema id, then the data words. */
  function EncodeOss(o: Oss): (r: seq<byte>)
    ensures var data := if o.data.Some? then o.data.value else [];
      |r| == 4 + |data| && r[4..] == data
      && (OssWF(o) ==> UnpackU8U24(r) == Some((|data| / 4, o.schemaId)))
  {
    var data := if o.data.Some? then o.data.value else [];
    var r := ToBE(|data| / 4, 1) + ToBE(o.schemaId, 3) + data;
    if OssWF(o) then UnpackU8U24Pack(|data| / 4, o.schemaId, data); r else r
  }

  /** A snapshot the decoder can produce: a 24-bit schema id, and data that is
      a non-empty whole number of words, at most 255 of them. */
  predicate OssWF(o: Oss)
  {
    o.schemaId < Pow256(3)
    && (o.data.Some? ==> 0 < |o.data.value| && |o.data.value| % 4 == 0 && |o.data.value| / 4 < 256)
  }

  /** A node of a trace with bitmask `t`: its fields are well formed, and it
      has a snapshot exactly when bit 22 is set. */
  predicate EntryWF(n: Node, t: nat)
  {
    NodeWF(n.(oss := None), t)
    && (n.oss.Some? <==> Masked(t, TRACE_TYPE_BIT22_MASK))
    && (n.oss.Some? ==> OssWF(n.oss.value))
  }

  /** Every node of a list is an entry of a trace with bitmask `t`. */
  predicate EntriesWF(nodes: seq<Node>, t: nat)
  {
    nodes == [] || (EntryWF(nodes[0], t) && EntriesWF(nodes[1..], t))
  }

  lemma {:induction false} EntriesWFAll(nodes: seq<Node>, t: nat)
    requires forall k :: 0 <= k < |nodes| ==> EntryWF(nodes[k], t)
    ensures EntriesWF(nodes, t)
  {
    if nodes != [] {
      assert EntryWF(nodes[0], t);
      assert forall k :: 0 <= k < |nodes[1..]| ==> nodes[1..][k] == nodes[k + 1];
      EntriesWFAll(nodes[1..], t);
    }
  }

  /** One node's entry: its data zero-padded to the node length, then its
      snapshot, if any. */
  function EncodeEntry(n: Node, nodeLen: nat, t: nat): (r: seq<byte>)
    requires NodeSize(t) <= NodeBytes(nodeLen)
  {
    var data := EncodeNode(n.(oss := None), t);
    data + Zeros(NodeBytes(nodeLen) - |data|) + (if n.oss.Some? then EncodeOss(n.oss.value) else [])
  }

  /** The trace data for nodes listed in wire order. */
  function EncodeWire(nodes: seq<Node>, nodeLen: nat, t: nat): seq<byte>
    requires NodeSize(t) <= NodeBytes(nodeLen)
  {
    if nodes == [] then [] else EncodeEntry(nodes[0], nodeLen, t) + EncodeWire(nodes[1..], nodeLen, t)
  }

  /** An entry at byte `i` starts with its node chunk, zero-padded. */
  lemma EntryChunk(n: Node, nodeLen: nat, t: nat, tdata: seq<byte>, i: nat)
    requires NodeSize(t) <= NodeBytes(nodeLen)
    requires i + |EncodeEntry(n, nodeLen, t)| <= |tdata|
    requires tdata[i .. i + |EncodeEntry(n, nodeLen, t)|] == EncodeEntry(n, nodeLen, t)
    ensures var data := EncodeNode(n.(oss := None), t);
      Slice(tdata, i, i + NodeBytes(nodeLen)) == data + Zeros(NodeBytes(nodeLen) - |data|)
  {
    var entry := EncodeEntry(n, nodeLen, t);
    assert tdata[i .. i + NodeBytes(nodeLen)] == entry[..NodeBytes(nodeLen)];
  }

  /** The bytes after the node chunk of an entry with a snapshot are the
      encoded snapshot. */
  lemma EntryOss(n: Node, nodeLen: nat, t: nat, tdata: seq<byte>, i: nat)
    requires NodeSize(t) <= NodeBytes(nodeLen) && n.oss.Some?
    requires i + |EncodeEntry(n, nodeLen, t)| <= |tdata|
    requires tdata[i .. i + |EncodeEntry(n, nodeLen, t)|] == EncodeEntry(n, nodeLen, t)
    ensures i + NodeBytes(nodeLen) + |EncodeOss(n.oss.value)| == i + |EncodeEntry(n, nodeLen, t)|
    ensures tdata[i + NodeBytes(nodeLen) .. i + |EncodeEntry(n, nodeLen, t)|] == EncodeOss(n.oss.value)
  {
    var entry := EncodeEntry(n, nodeLen, t);
    assert entry[NodeBytes(nodeLen)..] == EncodeOss(n.oss.value);
  }

  /** After the node chunk of an entry with a snapshot come the snapshot
      header and its words. */
  lemma EntrySnapshot(n: Node, nodeLen: nat, t: nat, tdata: seq<byte>, i: nat)
    requires NodeSize(t) <= NodeBytes(nodeLen) && n.oss.Some?
    requires i + |EncodeEntry(n, nodeLen, t)| <= |tdata|
    requires tdata[i .. i + |EncodeEntry(n, nodeLen, t)|] == EncodeEntry(n, nodeLen, t)
    ensures var j := i + NodeBytes(nodeLen);
      var o := n.oss.value;
      var words := if o.data.Some? then o.data.value else [];
      Slice(tdata, j, j + 4) == ToBE(|words| / 4, 1) + ToBE(o.schemaId, 3) + []
      && Slice(tdata, j + 4, j + 4 + |words| / 4 * 4) == words[..|words| / 4 * 4]
  {
    EntryOss(n, nodeLen, t, tdata, i);
    var j := i + NodeBytes(nodeLen);
    var o := n.oss.value;
    var words := if o.data.Some? then o.data.value else [];
    var header := ToBE(|words| / 4, 1) + ToBE(o.schemaId, 3);
    var oss := EncodeOss(o);
    var e := j + |oss|;
    assert oss == header + words;
    assert tdata[j .. j + 4] == header by {
      assert tdata[j .. j + 4] == tdata[j .. e][..4];
    }
    assert tdata[j + 4 .. e] == words by {
      assert tdata[j + 4 .. e] == tdata[j .. e][4..];
    }
    assert header + [] == header;
    assert tdata[j + 4 .. j + 4 + |words| / 4 * 4] == tdata[j + 4 .. e][..|words| / 4 * 4];
  }

  /** The decoder reads an encoded entry at byte `i` back as its node and
      moves past it. */
  lemma WireStepEncoded(n: Node, nodeLen: nat, t: nat, tdata: seq<byte>, i: nat)
    requires NodeSize(t) <= NodeBytes(nodeLen) && (nodeLen > 0 || Masked(t, TRACE_TYPE_BIT22_MASK))
    requires EntryWF(n, t)
    requires i + |EncodeEntry(n, nodeLen, t)| <= |tdata|
    requires tdata[i .. i + |EncodeEntry(n, nodeLen, t)|] == EncodeEntry(n, nodeLen, t)
    ensures WireStep(tdata, nodeLen, t, i) == Some((n, i + |EncodeEntry(n, nodeLen, t)|))
  {
    var bare := n.(oss := None);
    var data := EncodeNode(bare, t);
    EntryChunk(n, nodeLen, t, tdata, i);
    DecodeEncodeNode(bare, t, Zeros(NodeBytes(nodeLen) - |data|));
    if Masked(t, TRACE_TYPE_BIT22_MASK) {
      var o := n.oss.value;
      var words := if o.data.Some? then o.data.value else [];
      var ossLen := |words| / 4;
      EntrySnapshot(n, nodeLen, t, tdata, i);
      UnpackU8U24Pack(ossLen, o.schemaId, []);
      assert words[..ossLen * 4] == words;
      WireStepSnapshot(tdata, nodeLen, t, i, bare, ossLen, o.schemaId);
      assert bare.(oss := Some(Oss(o.schemaId, o.data))) == n;
    } else {
      WireStepPlain(tdata, nodeLen, t, i, bare);
      assert bare == n;
    }
  }

  /** Every node of an encoded list comes back, in wire order, when the
      encoding is the rest of the data from byte `i`. */
  lemma {:induction false} WireNodesEncoded(nodes: seq<Node>, nodeLen: nat, t: nat, tdata: seq<byte>, i: nat)
    requires NodeSize(t) <= NodeBytes(nodeLen) && (nodeLen > 0 || Masked(t, TRACE_TYPE_BIT22_MASK))
    requires EntriesWF(nodes, t)
    requires i <= |tdata| && tdata[i..] == EncodeWire(nodes, nodeLen, t)
    ensures WireNodes(tdata, nodeLen, t, i) == Some(nodes)
    decreases |nodes|
  {
    if nodes != [] {
      var next := i + |EncodeEntry(nodes[0], nodeLen, t)|;
      WireSplit(nodes, nodeLen, t, tdata, i);
      WireStepEncoded(nodes[0], nodeLen, t, tdata, i);
      WireNodesStep(tdata, nodeLen, t, i, nodes[0], next);
      WireNodesEncoded(nodes[1..], nodeLen, t, tdata, next);
      assert [nodes[0]] + nodes[1..] == nodes;
    }
  }

  /** The first entry of an encoded list, then the encoding of the others. */
  lemma WireSplit(nodes: seq<Node>, nodeLen: nat, t: nat, tdata: seq<byte>, i: nat)
    requires NodeSize(t) <= NodeBytes(nodeLen) && nodes != []
    requires i <= |tdata| && tdata[i..] == EncodeWire(nodes, nodeLen, t)
    ensures var next := i + |EncodeEntry(nodes[0], nodeLen, t)|;
      next <= |tdata| && tdata[i .. next] == EncodeEntry(nodes[0], nodeLen, t)
      && tdata[next..] == EncodeWire(nodes[1..], nodeLen, t)
  {
    var entry := EncodeEntry(nodes[0], nodeLen, t);
    assert tdata[i..] == entry + EncodeWire(nodes[1..], nodeLen, t);
    assert tdata[i .. i + |entry|] == tdata[i..][..|entry|];
    assert tdata[i + |entry| ..] == tdata[i..][|entry|..];
  }

  /** An event carrying the encoding of a trace's nodes (last hop first, as
      the agent reports them, so the wire holds them reversed) decodes to that
      trace: the bitmask is the attribute without its low byte. */
  lemma DecodeEncodeEvent(namespace: u16, nodeLen: u8, attr: u32, nodes: seq<Node>)
    requires NodeSize(BitField(attr)) <= NodeBytes(nodeLen)
    requires nodeLen > 0 || Masked(BitField(attr), TRACE_TYPE_BIT22_MASK)
    requires forall k :: 0 <= k < |nodes| ==> EntryWF(nodes[k], BitField(attr))
    ensures var t := BitField(attr);
      DecodeEvent(Event(IOAM6_EVENT_TRACE, Some(namespace), Some(nodeLen), Some(attr),
                        Some(EncodeWire(Reverse(nodes), nodeLen, t))))
      == Some(Trace(t, namespace, nodes))
  {
    var t := BitField(attr);
    var wire := Reverse(nodes);
    assert forall k :: 0 <= k < |wire| ==> EntryWF(wire[k], t) by {
      forall k | 0 <= k < |wire| ensures EntryWF(wire[k], t) {
        assert wire[k] == nodes[|nodes| - 1 - k];
      }
    }
    EntriesWFAll(wire, t);
    WireNodesEncoded(wire, nodeLen, t, EncodeWire(wire, nodeLen, t), 0);
    ReverseReverse(nodes);
  }
}
