/** The IOAM pre-allocated trace decoder of the agent (RFC 9197, section 4.4):
    node data fields selected by the trace-type bitmask, read big-endian with a
    cursor, one node per `node_len * 4`-byte chunk, optionally followed by an
    Opaque State Snapshot, and collected in reverse wire order. */
module IoamDecoder {
  import opened Common
  import opened Bytes
  import opened TraceType

  type u8 = x: nat | x < 0x100
  type u16 = x: nat | x < 0x1_0000
  type u32 = x: nat | x < 0x1_0000_0000

  /** Opaque State Snapshot: the schema id is always set, the data only when
      the snapshot announces a non-zero length. */
  datatype Oss = Oss(schemaId: nat, data: Option<seq<byte>>)

  /** One decoded hop. A field the bitmask does not select is never assigned
      and stays `None`. */
  datatype Node = Node(
    hopLimit: Option<nat>,
    id: Option<nat>,
    ingressId: Option<nat>,
    egressId: Option<nat>,
    timestampSecs: Option<nat>,
    timestampFrac: Option<nat>,
    transitDelay: Option<nat>,
    namespaceData: Option<seq<byte>>,
    queueDepth: Option<nat>,
    csumComp: Option<nat>,
    idWide: Option<nat>,
    ingressIdWide: Option<nat>,
    egressIdWide: Option<nat>,
    namespaceDataWide: Option<seq<byte>>,
    bufferOccupancy: Option<nat>,
    oss: Option<Oss>)

  const EmptyNode := Node(None, None, None, None, None, None, None, None,
                          None, None, None, None, None, None, None, None)

  datatype Trace = Trace(bitField: nat, namespaceId: u16, nodes: seq<Node>)

  /** A generic-netlink IOAM6 event: the command and the attributes, each of
      which may be missing (`event.get` then yields None). */
  datatype Event = Event(
    cmd: nat,
    namespace: Option<u16>,
    nodeLen: Option<u8>,
    traceType: Option<u32>,
    data: Option<seq<byte>>)

  const IOAM6_EVENT_TRACE: nat := 1

  // ----- Reference definition of one node's fields -----

  /** The bytes of field `k` at its offset; empty when the bit is clear or the
      field does not fit (every format then fails to unpack). */
  function Chunk(p: seq<byte>, t: nat, k: FieldIndex): (r: seq<byte>)
    ensures Present(t, k) && Offset(t, k) + Width(k) <= |p| ==> |r| == Width(k)
    ensures !(Present(t, k) && Offset(t, k) + Width(k) <= |p|) ==> r == []
  {
    if Present(t, k) && Offset(t, k) + Width(k) <= |p|
    then p[Offset(t, k) .. Offset(t, k) + Width(k)] else []
  }

  function Fst(o: Option<(nat, nat)>): Option<nat>
  {
    if o.Some? then Some(o.value.0) else None
  }

  function Snd(o: Option<(nat, nat)>): Option<nat>
  {
    if o.Some? then Some(o.value.1) else None
  }

  /** The hop limit: bit 8's (wide) takes precedence over bit 0's (short). */
  function HopLimitOf(p: seq<byte>, t: nat): Option<nat>
  {
    if Present(t, 8) then Fst(UnpackU8U56(Chunk(p, t, 8)))
    else Fst(UnpackU8U24(Chunk(p, t, 0)))
  }

  /** Every field unpacked from the bytes at its offset; a clear bit leaves its
      field unassigned. */
  function NodeFields(p: seq<byte>, t: nat): Node
  {
    Node(
      hopLimit := HopLimitOf(p, t),
      id := Snd(UnpackU8U24(Chunk(p, t, 0))),
      ingressId := Fst(UnpackU16U16(Chunk(p, t, 1))),
      egressId := Snd(UnpackU16U16(Chunk(p, t, 1))),
      timestampSecs := UnpackU32(Chunk(p, t, 2)),
      timestampFrac := UnpackU32(Chunk(p, t, 3)),
      transitDelay := UnpackU32(Chunk(p, t, 4)),
      namespaceData := UnpackR32(Chunk(p, t, 5)),
      queueDepth := UnpackU32(Chunk(p, t, 6)),
      csumComp := UnpackU32(Chunk(p, t, 7)),
      idWide := Snd(UnpackU8U56(Chunk(p, t, 8))),
      ingressIdWide := Fst(UnpackU32U32(Chunk(p, t, 9))),
      egressIdWide := Snd(UnpackU32U32(Chunk(p, t, 9))),
      namespaceDataWide := UnpackR64(Chunk(p, t, 10)),
      bufferOccupancy := UnpackU32(Chunk(p, t, 11)),
      oss := None)
  }

  /** A node decodes exactly when the chunk holds every field the bitmask
      asks for; the node is what the twelve field blocks build (equal to
      `NodeFields`, see `DecodeNodeFields`). */
  function DecodeNode(p: seq<byte>, t: nat): Option<Node>
  {
    if |p| >= NodeSize(t) then Some(Partial(p, t, FIELD_COUNT)) else None
  }

  /** A node decodes, to the reference fields, exactly when the chunk is at
      least the node size. */
  lemma DecodeNodeFields(p: seq<byte>, t: nat)
    ensures DecodeNode(p, t).Some? <==> |p| >= NodeSize(t)
    ensures DecodeNode(p, t).Some? ==> DecodeNode(p, t).value == NodeFields(p, t)
  {
    if |p| >= NodeSize(t) {
      PartialComplete(p, t);
    }
  }

  /** The node as the walk leaves it after the first `k` field blocks: each
      block stores its chunk's fields, and a clear bit stores nothing. */
  function Partial(p: seq<byte>, t: nat, k: nat): Node
    requires k <= FIELD_COUNT
  {
    if k == 0 then EmptyNode else Store(Partial(p, t, k - 1), k - 1, Chunk(p, t, k - 1))
  }

  /** The assignments of field block `k` with the unpacked chunk `c`; an
      empty chunk (a clear bit) assigns nothing. */
  function Store(node: Node, k: FieldIndex, c: seq<byte>): Node
  {
    if c == [] then node
    else match k
      case 0 => node.(hopLimit := Fst(UnpackU8U24(c)), id := Snd(UnpackU8U24(c)))
      case 1 => node.(ingressId := Fst(UnpackU16U16(c)), egressId := Snd(UnpackU16U16(c)))
      case 2 => node.(timestampSecs := UnpackU32(c))
      case 3 => node.(timestampFrac := UnpackU32(c))
      case 4 => node.(transitDelay := UnpackU32(c))
      case 5 => node.(namespaceData := UnpackR32(c))
      case 6 => node.(queueDepth := UnpackU32(c))
      case 7 => node.(csumComp := UnpackU32(c))
      case 8 => node.(hopLimit := Fst(UnpackU8U56(c)), idWide := Snd(UnpackU8U56(c)))
      case 9 => node.(ingressIdWide := Fst(UnpackU32U32(c)), egressIdWide := Snd(UnpackU32U32(c)))
      case 10 => node.(namespaceDataWide := UnpackR64(c))
      case 11 => node.(bufferOccupancy := UnpackU32(c))
  }

  /** Running all twelve blocks over a chunk that holds every selected field
      yields the reference node. */
  lemma {:induction false} PartialComplete(p: seq<byte>, t: nat)
    requires |p| >= NodeSize(t)
    ensures Partial(p, t, FIELD_COUNT) == NodeFields(p, t)
  {
    assert Partial(p, t, 0) == EmptyNode;
    var n1 := Partial(p, t, 1);
    assert n1 == EmptyNode.(hopLimit := Fst(UnpackU8U24(Chunk(p, t, 0))), id := Snd(UnpackU8U24(Chunk(p, t, 0))));
    var n2 := Partial(p, t, 2);
    assert n2 == n1.(ingressId := Fst(UnpackU16U16(Chunk(p, t, 1))), egressId := Snd(UnpackU16U16(Chunk(p, t, 1))));
    var n3 := Partial(p, t, 3);
    assert n3 == n2.(timestampSecs := UnpackU32(Chunk(p, t, 2)));
    var n4 := Partial(p, t, 4);
    assert n4 == n3.(timestampFrac := UnpackU32(Chunk(p, t, 3)));
    var n5 := Partial(p, t, 5);
    assert n5 == n4.(transitDelay := UnpackU32(Chunk(p, t, 4)));
    var n6 := Partial(p, t, 6);
    assert n6 == n5.(namespaceData := UnpackR32(Chunk(p, t, 5)));
    var n7 := Partial(p, t, 7);
    assert n7 == n6.(queueDepth := UnpackU32(Chunk(p, t, 6)));
    var n8 := Partial(p, t, 8);
    assert n8 == n7.(csumComp := UnpackU32(Chunk(p, t, 7)));
    var n9 := Partial(p, t, 9);
    assert n9 == n8.(hopLimit := HopLimitOf(p, t), idWide := Snd(UnpackU8U56(Chunk(p, t, 8)))) by {
      if Present(t, 8) {
        OffsetFits(t, 8);
      }
    }
    var n10 := Partial(p, t, 10);
    assert n10 == n9.(ingressIdWide := Fst(UnpackU32U32(Chunk(p, t, 9))), egressIdWide := Snd(UnpackU32U32(Chunk(p, t, 9))));
    var n11 := Partial(p, t, 11);
    assert n11 == n10.(namespaceDataWide := UnpackR64(Chunk(p, t, 10)));
    assert Partial(p, t, 12) == n11.(bufferOccupancy := UnpackU32(Chunk(p, t, 11)));
  }

  /** A field's chunk lies within the node size. */
  lemma ChunkIgnoresTail(p: seq<byte>, extra: seq<byte>, t: nat, k: FieldIndex)
    requires |p| >= NodeSize(t)
    ensures Chunk(p + extra, t, k) == Chunk(p, t, k)
  {
    if Present(t, k) {
      OffsetFits(t, k);
      assert (p + extra)[Offset(t, k) .. Offset(t, k) + Width(k)] == p[Offset(t, k) .. Offset(t, k) + Width(k)];
    }
  }

  /** Bytes after the node size are never read. */
  lemma DecodeNodeIgnoresTail(p: seq<byte>, extra: seq<byte>, t: nat)
    requires |p| >= NodeSize(t)
    ensures DecodeNode(p + extra, t) == DecodeNode(p, t)
  {
    forall k: FieldIndex ensures Chunk(p + extra, t, k) == Chunk(p, t, k) {
      ChunkIgnoresTail(p, extra, t, k);
    }
    DecodeNodeFields(p + extra, t);
    DecodeNodeFields(p, t);
  }

  /** The first block read starts at byte 0 and a wide hop limit (bit 8)
      overrides the short one (bit 0): the hop limit is the first byte of the
      last of the two blocks present, and the node id the three bytes after
      the short block's. */
  lemma HopLimitBigEndian(p: seq<byte>, t: nat)
    requires |p| >= NodeSize(t)
    ensures Present(t, 8) ==> Offset(t, 8) < |p|
    ensures Present(t, 0) ==> 4 <= |p|
    ensures Present(t, 8) ==> NodeFields(p, t).hopLimit == Some(p[Offset(t, 8)] as nat)
    ensures !Present(t, 8) && Present(t, 0) ==> NodeFields(p, t).hopLimit == Some(p[0] as nat)
    ensures !Present(t, 8) && !Present(t, 0) ==> NodeFields(p, t).hopLimit == None
    ensures Present(t, 0) ==> NodeFields(p, t).id == Some(BE(p[1..4]))
  {
    if Present(t, 8) {
      OffsetFits(t, 8);
    }
    if Present(t, 0) {
      OffsetFits(t, 0);
      assert Offset(t, 0) == 0;
      assert p[0..4][1..4] == p[1..4];
    }
  }

  // ----- parse_trace_node -----

  /** One `if ttype & TRACE_TYPE_BITk_MASK:` block: when field `k` is selected,
      the slice `p[i:i+width]` is unpacked into the node (too short a slice is
      the unpack failure) and the cursor moves past it; otherwise nothing
      changes. */
  method ReadField(p: seq<byte>, ttype: nat, k: FieldIndex, node: Node, i: nat) returns (ok: bool, node': Node, next: nat)
    requires i == Offset(ttype, k) && i <= |p| && node == Partial(p, ttype, k)
    ensures !ok ==> |p| < NodeSize(ttype)
    ensures ok ==> node' == Partial(p, ttype, k + 1) && next == Offset(ttype, k + 1) && next <= |p|
  {
    OffsetStep(ttype, k);
    if Masked(ttype, Mask(k)) {
      var chunk := Slice(p, i, i + Width(k));
      if |chunk| < Width(k) {
        FailsBelow(p, ttype, k);
        return false, node, i;
      }
      return true, Store(node, k, chunk), i + Width(k);
    }
    return true, node, i;
  }

  /** Walks the chunk with a cursor, one block per trace-type bit in fixed
      order; any short read fails the whole node. */
  method ParseTraceNode(p: seq<byte>, ttype: nat) returns (r: Option<Node>)
    ensures r == DecodeNode(p, ttype)
  {
    var node := EmptyNode;
    var i: nat := 0;
    var ok: bool;
    ok, node, i := ReadField(p, ttype, 0, node, i);   // >u8u24
    if !ok { return None; }
    ok, node, i := ReadField(p, ttype, 1, node, i);   // >u16u16
    if !ok { return None; }
    ok, node, i := ReadField(p, ttype, 2, node, i);   // >u32
    if !ok { return None; }
    ok, node, i := ReadField(p, ttype, 3, node, i);   // >u32
    if !ok { return None; }
    ok, node, i := ReadField(p, ttype, 4, node, i);   // >u32
    if !ok { return None; }
    ok, node, i := ReadField(p, ttype, 5, node, i);   // >r32
    if !ok { return None; }
    ok, node, i := ReadField(p, ttype, 6, node, i);   // >u32
    if !ok { return None; }
    ok, node, i := ReadField(p, ttype, 7, node, i);   // >u32
    if !ok { return None; }
    ok, node, i := ReadField(p, ttype, 8, node, i);   // >u8u56
    if !ok { return None; }
    ok, node, i := ReadField(p, ttype, 9, node, i);   // >u32u32
    if !ok { return None; }
    ok, node, i := ReadField(p, ttype, 10, node, i);  // >r64
    if !ok { return None; }
    ok, node, i := ReadField(p, ttype, 11, node, i);  // >u32
    if !ok { return None; }
    r := Some(node);
  }

  /** A present field that does not fit means the chunk is short of the node size. */
  lemma FailsBelow(p: seq<byte>, t: nat, k: FieldIndex)
    requires Present(t, k) && |p| < Offset(t, k) + Width(k)
    ensures |p| < NodeSize(t)
  {
    OffsetFits(t, k);
  }

  // ----- Reference definition of a whole trace -----

  /** Python's `x*4` on the node length and the advance past one snapshot. */
  function NodeBytes(nodeLen: nat): nat { nodeLen * 4 }

  /** The node whose chunk starts at byte `i` (clipped at the end of the
      data), with its Opaque State Snapshot when bit 22 is set, and the byte
      after them. `None` for a node or snapshot header that does not unpack,
      and for the case in which the walk cannot advance (`nodeLen == 0` with
      no snapshot). */
  function WireStep(tdata: seq<byte>, nodeLen: nat, t: nat, i: nat): (r: Option<(Node, nat)>)
    ensures r.Some? ==> r.value.1 > i
  {
    var node := DecodeNode(Slice(tdata, i, i + NodeBytes(nodeLen)), t);
    var j := i + NodeBytes(nodeLen);
    if node.None? then None
    else if Masked(t, TRACE_TYPE_BIT22_MASK) then
      var hdr := UnpackU8U24(Slice(tdata, j, j + 4));
      if hdr.None? then None
      else
        var ossLen := hdr.value.0;
        var data := if ossLen > 0 then Some(Slice(tdata, j + 4, j + 4 + ossLen * 4)) else None;
        Some((node.value.(oss := Some(Oss(hdr.value.1, data))), j + 4 + ossLen * 4))
    else if nodeLen == 0 then None
    else Some((node.value, j))
  }

  /** The nodes from byte `i` onwards, in wire order, while bytes remain. */
  function WireNodes(tdata: seq<byte>, nodeLen: nat, t: nat, i: nat): Option<seq<Node>>
    decreases |tdata| - i
  {
    if i >= |tdata| then Some([])
    else
      var step := WireStep(tdata, nodeLen, t, i);
      if step.None? then None
      else Prepend([step.value.0], WireNodes(tdata, nodeLen, t, step.value.1))
  }

  /** Without snapshots, a decoded trace has one node per started chunk of
      the data, and its `k`-th node is the decoding of the `k`-th chunk from
      the end. */
  lemma DecodeEventChunks(ev: Event)
    requires DecodeEvent(ev).Some? && ev.nodeLen.Some? && ev.nodeLen.value > 0
    requires !Masked(BitField(ev.traceType.value), TRACE_TYPE_BIT22_MASK)
    ensures var nodes := DecodeEvent(ev).value.nodes;
      var size := NodeBytes(ev.nodeLen.value);
      |nodes| == Chunks(|ev.data.value|, size)
      && forall k :: 0 <= k < |nodes| ==>
           Some(nodes[k]) == DecodeNode(ChunkAt(ev.data.value, 0, |nodes| - 1 - k, size), BitField(ev.traceType.value))
  {
    var t := BitField(ev.traceType.value);
    var size := NodeBytes(ev.nodeLen.value);
    var wire := WireNodes(ev.data.value, ev.nodeLen.value, t, 0);
    var nodes := DecodeEvent(ev).value.nodes;
    assert wire.Some? && nodes == Reverse(wire.value);
    WireNodesChunks(ev.data.value, ev.nodeLen.value, t, 0);
    DecodedChunksAt(wire.value, ev.data.value, t, 0, size);
    ReversedChunks(wire.value, ev.data.value, t, size);
  }

  /** Reversing nodes decoded from consecutive chunks pairs the `k`-th node
      with the `k`-th chunk from the end. */
  lemma ReversedChunks(w: seq<Node>, data: seq<byte>, t: nat, size: nat)
    requires forall k :: 0 <= k < |w| ==> Some(w[k]) == DecodeNode(ChunkAt(data, 0, k, size), t)
    ensures var nodes := Reverse(w);
      forall k :: 0 <= k < |nodes| ==> Some(nodes[k]) == DecodeNode(ChunkAt(data, 0, |nodes| - 1 - k, size), t)
  {
    var nodes := Reverse(w);
    forall k | 0 <= k < |nodes|
      ensures Some(nodes[k]) == DecodeNode(ChunkAt(data, 0, |nodes| - 1 - k, size), t)
    {
      assert nodes[k] == w[|nodes| - 1 - k];
    }
  }

  /** `pre` in front of the nodes still to come, when they decode. */
  function Prepend(pre: seq<Node>, rest: Option<seq<Node>>): Option<seq<Node>>
  {
    if rest.None? then None else Some(pre + rest.value)
  }

  /** A step over a node without snapshot: the node, and the next chunk. */
  lemma WireStepPlain(tdata: seq<byte>, nodeLen: nat, t: nat, i: nat, node: Node)
    requires DecodeNode(Slice(tdata, i, i + NodeBytes(nodeLen)), t) == Some(node)
    requires !Masked(t, TRACE_TYPE_BIT22_MASK) && nodeLen > 0
    ensures WireStep(tdata, nodeLen, t, i) == Some((node, i + NodeBytes(nodeLen)))
  {
  }

  /** A step over a node and its snapshot: the snapshot holds the schema id
      and, when its length is non-zero, that many words; the next chunk
      follows them. */
  lemma WireStepSnapshot(tdata: seq<byte>, nodeLen: nat, t: nat, i: nat, node: Node, ossLen: nat, schemaId: nat)
    requires DecodeNode(Slice(tdata, i, i + NodeBytes(nodeLen)), t) == Some(node)
    requires Masked(t, TRACE_TYPE_BIT22_MASK)
    requires UnpackU8U24(Slice(tdata, i + NodeBytes(nodeLen), i + NodeBytes(nodeLen) + 4)) == Some((ossLen, schemaId))
    ensures var j := i + NodeBytes(nodeLen) + 4;
      var data := if ossLen > 0 then Some(Slice(tdata, j, j + ossLen * 4)) else None;
      WireStep(tdata, nodeLen, t, i) == Some((node.(oss := Some(Oss(schemaId, data))), j + ossLen * 4))
  {
  }

  /** While bytes remain, the nodes are the one a step reads, then the rest. */
  lemma WireNodesStep(tdata: seq<byte>, nodeLen: nat, t: nat, i: nat, node: Node, next: nat)
    requires i < |tdata| && WireStep(tdata, nodeLen, t, i) == Some((node, next))
    ensures WireNodes(tdata, nodeLen, t, i) == Prepend([node], WireNodes(tdata, nodeLen, t, next))
  {
  }

  /** Without snapshots, a step reads one chunk of `nodeLen * 4` bytes. */
  lemma PlainStep(tdata: seq<byte>, nodeLen: nat, t: nat, i: nat)
    requires nodeLen > 0 && !Masked(t, TRACE_TYPE_BIT22_MASK)
    requires i < |tdata| && WireNodes(tdata, nodeLen, t, i).Some?
    ensures var node := DecodeNode(Slice(tdata, i, i + NodeBytes(nodeLen)), t);
      node.Some? && WireNodes(tdata, nodeLen, t, i + NodeBytes(nodeLen)).Some?
      && WireNodes(tdata, nodeLen, t, i).value == [node.value] + WireNodes(tdata, nodeLen, t, i + NodeBytes(nodeLen)).value
  {
  }

  /** The number of `size`-byte chunks, the last possibly short, that `x`
      bytes start: the least `r` with `x <= r * size`. */
  function Chunks(x: nat, size: nat): (r: nat)
    requires size > 0
    ensures x <= r * size && (r == 0 || (r - 1) * size < x)
  {
    if x == 0 then 0
    else if x <= size then 1
    else
      var r := Chunks(x - size, size) + 1;
      assert r * size == (r - 1) * size + size;
      r
  }

  /** The `k`-th chunk of `size` bytes from byte `i`, clipped at the end. */
  function ChunkAt(tdata: seq<byte>, i: nat, k: nat, size: nat): seq<byte>
  {
    Slice(tdata, i + k * size, i + k * size + size)
  }

  lemma ChunkAtNext(tdata: seq<byte>, i: nat, k: nat, size: nat)
    requires k > 0
    ensures ChunkAt(tdata, i, k, size) == ChunkAt(tdata, i + size, k - 1, size)
  {
    assert i + k * size == (i + size) + (k - 1) * size;
  }

  /** `w` are the decodings of consecutive `size`-byte chunks from byte `i`. */
  predicate DecodedChunks(w: seq<Node>, tdata: seq<byte>, t: nat, i: nat, size: nat)
    decreases |w|
  {
    w == [] || (Some(w[0]) == DecodeNode(Slice(tdata, i, i + size), t)
                && DecodedChunks(w[1..], tdata, t, i + size, size))
  }

  /** The `k`-th of consecutively decoded nodes is the decoding of the `k`-th chunk. */
  lemma {:induction false} DecodedChunksAt(w: seq<Node>, tdata: seq<byte>, t: nat, i: nat, size: nat)
    requires DecodedChunks(w, tdata, t, i, size)
    ensures forall k :: 0 <= k < |w| ==> Some(w[k]) == DecodeNode(ChunkAt(tdata, i, k, size), t)
    decreases |w|
  {
    if w != [] {
      DecodedChunksAt(w[1..], tdata, t, i + size, size);
      assert ChunkAt(tdata, i, 0, size) == Slice(tdata, i, i + size);
      forall k | 0 < k < |w|
        ensures Some(w[k]) == DecodeNode(ChunkAt(tdata, i, k, size), t)
      {
        assert w[k] == w[1..][k - 1];
        ChunkAtNext(tdata, i, k, size);
      }
    }
  }

  /** Without snapshots, the nodes are the decodings of consecutive
      `nodeLen * 4`-byte chunks from byte `i` (the last one clipped), one per
      started chunk. */
  lemma {:induction false} WireNodesChunks(tdata: seq<byte>, nodeLen: nat, t: nat, i: nat)
    requires nodeLen > 0 && !Masked(t, TRACE_TYPE_BIT22_MASK)
    requires WireNodes(tdata, nodeLen, t, i).Some?
    ensures var w := WireNodes(tdata, nodeLen, t, i).value;
      |w| == (if i >= |tdata| then 0 else Chunks(|tdata| - i, NodeBytes(nodeLen)))
      && DecodedChunks(w, tdata, t, i, NodeBytes(nodeLen))
    decreases |tdata| - i
  {
    if i < |tdata| {
      PlainStep(tdata, nodeLen, t, i);
      var w := WireNodes(tdata, nodeLen, t, i).value;
      WireNodesChunks(tdata, nodeLen, t, i + NodeBytes(nodeLen));
      assert w[1..] == WireNodes(tdata, nodeLen, t, i + NodeBytes(nodeLen)).value;
    }
  }

  /** The bitmask the agent keeps: the trace-type attribute without its low byte. */
  function BitField(attr: u32): nat { attr / 256 }

  /** The trace of an event: every attribute it reads must be there (the node
      length only when there is data to cut), and the nodes come out last hop
      first, the reverse of the wire order. */
  function DecodeEvent(ev: Event): (r: Option<Trace>)
    ensures ev.traceType.None? || ev.data.None? || ev.namespace.None? ==> r.None?
    ensures r.Some? ==> r.value.bitField == ev.traceType.value / 256 && r.value.namespaceId == ev.namespace.value
  {
    if ev.traceType.None? || ev.data.None? then None
    else if ev.data.value != [] && ev.nodeLen.None? then None
    else
      var t := BitField(ev.traceType.value);
      var nodeLen := if ev.nodeLen.Some? then ev.nodeLen.value else 0;
      var wire := WireNodes(ev.data.value, nodeLen, t, 0);
      if wire.None? || ev.namespace.None? then None
      else Some(Trace(t, ev.namespace.value, Reverse(wire.value)))
  }

  lemma PrependNil(o: Option<seq<Node>>)
    ensures Prepend([], o) == o
  {
    if o.Some? {
      assert [] + o.value == o.value;
    }
  }

  lemma PrependPrepend(a: seq<Node>, b: seq<Node>, o: Option<seq<Node>>)
    ensures Prepend(a, Prepend(b, o)) == Prepend(a + b, o)
  {
    if o.Some? {
      assert a + (b + o.value) == (a + b) + o.value;
    }
  }

  // ----- parse_ioam_trace -----

  /** One pass of the loop body at byte `i`: the node chunk, then the
      snapshot when bit 22 is set. Yields the node and the next position, or
      `None` where the source raises (or would spin forever). */
  method ReadNode(tdata: seq<byte>, nodeLen: nat, ttype: nat, i: nat) returns (r: Option<(Node, nat)>)
    ensures r == WireStep(tdata, nodeLen, ttype, i)
  {
    var node := ParseTraceNode(Slice(tdata, i, i + NodeBytes(nodeLen)), ttype);
    if node.None? { return None; }
    var n := node.value;
    var j := i + NodeBytes(nodeLen);
    if Masked(ttype, TRACE_TYPE_BIT22_MASK) {
      var hdr := UnpackU8U24(Slice(tdata, j, j + 4));
      if hdr.None? { return None; }
      var ossLen, schemaId := hdr.value.0, hdr.value.1;
      var data: Option<seq<byte>> := None;
      if ossLen > 0 {
        data := Some(Slice(tdata, j + 4, j + 4 + ossLen * 4));
      }
      n := n.(oss := Some(Oss(schemaId, data)));
      j := j + 4 + ossLen * 4;
    } else if nodeLen == 0 {
      return None;
    }
    return Some((n, j));
  }

  /** Cuts the data into node chunks, decodes each (and its snapshot), and
      inserts every node at the front of the list; any failure along the way
      is caught and yields `None`. */
  method ParseIoamTrace(ev: Event) returns (r: Option<Trace>)
    ensures r == DecodeEvent(ev)
  {
    if ev.traceType.None? || ev.data.None? { return None; }
    var ttype := BitField(ev.traceType.value);
    var tdata := ev.data.value;
    if tdata != [] && ev.nodeLen.None? { return None; }
    var nodeLen := if ev.nodeLen.Some? then ev.nodeLen.value else 0;
    var nodes: seq<Node> := [];
    var i: nat := 0;
    PrependNil(WireNodes(tdata, nodeLen, ttype, 0));
    while i < |tdata|
      invariant WireNodes(tdata, nodeLen, ttype, 0) == Prepend(Reverse(nodes), WireNodes(tdata, nodeLen, ttype, i))
      decreases |tdata| - i
    {
      var step := ReadNode(tdata, nodeLen, ttype, i);
      if step.None? { return None; }
      var n;
      n, i := step.value.0, step.value.1;
      assert Reverse([n] + nodes) == Reverse(nodes) + [n] by {
        assert ([n] + nodes)[1..] == nodes;
      }
      PrependPrepend(Reverse(nodes), [n], WireNodes(tdata, nodeLen, ttype, i));
      nodes := [n] + nodes;
    }
    ReverseReverse(nodes);
    assert Reverse(nodes) + [] == Reverse(nodes);
    if ev.namespace.None? { return None; }
    r := Some(Trace(ttype, ev.namespace.value, nodes));
  }

  // ----- report_event -----

  /** Hands the decoded trace to `report` (modelled as the list of calls made)
      when the event is a trace event that decodes, and does nothing otherwise. */
  method ReportEvent(ev: Event) returns (calls: seq<Trace>)
    ensures |calls| <= 1
    ensures calls != [] <==> ev.cmd == IOAM6_EVENT_TRACE && DecodeEvent(ev).Some?
    ensures calls != [] ==> calls[0] == DecodeEvent(ev).value
  {
    var parsed: Option<Trace> := None;
    if ev.cmd == IOAM6_EVENT_TRACE {
      parsed := ParseIoamTrace(ev);
    }
    calls := [];
    if parsed.Some? {
      calls := [parsed.value];
    }
  }
}
