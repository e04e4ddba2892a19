# IOAM agent: trace decoder and gNMI exporter, modelled in Dafny

The IOAM agent listens for IPv6 In-situ OAM trace events on the kernel's
generic-netlink IOAM6 family and decodes the pre-allocated trace of each event
(RFC 9197, section 4.4). The trace-type bitmask selects which node data fields
each hop carries. Each hop occupies `node_len * 4` bytes, optionally followed
by an Opaque State Snapshot. Nodes are collected last hop first, and the
decoded trace goes to a reporting callback.

The gNMI exporter keeps the traces handed to it in two ways:

- the last trace per (namespace, first node id), for SAMPLE subscribers;
- a FIFO of traces, for an ON_CHANGE subscriber.

It flattens a trace into (path, value, kind) triples and answers Subscribe
requests (section 3.5 of the gNMI specification). To do so it parses its path
strings with the bracket-aware split and key extraction of the gNMI Path
Conventions.

The model has one module per concern:

- `Common`: `Option` and sequence reversal.
- `Bytes`: bytes, big-endian values, Python slicing, and the `bitstruct`
  formats the decoder unpacks (`u8u24`, `u16u16`, `u32`, `r32`, `u8u56`,
  `u32u32`, `r64`). Each one fails on input that is too short.
- `TraceType`: the masks, the field widths and the offset of each field
  under a bitmask.
- `IoamDecoder`:
  - `ParseTraceNode`, the cursor walk over one node, as a method.
  - `ParseIoamTrace`, the chunking loop with snapshots and the reversal, as a method.
  - `ReportEvent`.
  - The reference functions these methods are proved against: `NodeFields`,
    `DecodeNode`, `WireStep`, `WireNodes` and `DecodeEvent`.
- `IoamEncoding`: a reference encoder for nodes, snapshots and whole traces,
  with the round trips proved against the decoder.
- `PathCodec`:
  - `list_from_path` (`ListFromPath`). Its regular-expression split is modelled
    by the predicate `CleanFrom`, which is what the lookahead means.
  - `path_from_string` (`PathFromString`).
  - A renderer, and the proof that parsing a rendered path gives back its
    names and keys.
- `GnmiExporter`:
  - the `Exporter` class, whose fields are `data`, `queue` and `onChange`;
  - the store as an insertion-ordered association list;
  - `_parse_ioam_record` and `_iterate_data`.
- `GnmiServer`:
  - the `Servicer` class with `_validate_subscriptions` as a nested loop;
  - the dispatch on the value kind;
  - the loop that builds the updates of a response;
  - the proof that every triple of a record becomes an update at the path it
    names, holding the value it carries.

A Python exception is modelled as `None`. This covers `bitstruct` on short
input, a missing netlink attribute, `IndexError` on a trace without nodes, a
`KeyError` on a JSON key that is absent, and a protobuf type error. Where the
code catches the exception, the `None` is handled at the same place.

## Model

| member | source | states |
|---|---|---|
| TraceType.Mask | ioam-agent.py:37-49 | the mask of field block k (trace-type bit k) is the single bit `1 << (23 - k)` of the shifted trace type |
| TraceType.OffsetMonotone | ioam-agent.py:54-90 | the cursor never moves backwards across the field blocks |
| TraceType.OffsetFits | ioam-agent.py:54-90 | a selected field lies entirely inside the node size the bitmask asks for |
| TraceType.NodeSizeByCounts | ioam-agent.py:51-92 | the node size is 4 bytes per set narrow bit plus 8 per set wide bit |
| TraceType.OffsetByCounts | ioam-agent.py:54-90 | each field starts after 4 bytes per earlier narrow field and 8 per earlier wide field |
| Bytes.Slice | ioam-agent.py:105 | Python slicing of the trace data clips at the end, never fails, and equals the Dafny slice when in range |
| Bytes.UnpackU8U24 | ioam-agent.py:56 | `unpack(">u8u24")` succeeds exactly on at least 4 bytes |
| Bytes.UnpackU16U16 | ioam-agent.py:59 | `unpack(">u16u16")` succeeds exactly on at least 4 bytes |
| Bytes.UnpackU32 | ioam-agent.py:62 | `unpack(">u32")` succeeds exactly on at least 4 bytes |
| Bytes.UnpackR32 | ioam-agent.py:71 | `unpack(">r32")` succeeds exactly on at least 4 bytes |
| Bytes.UnpackU8U56 | ioam-agent.py:80 | `unpack(">u8u56")` succeeds exactly on at least 8 bytes |
| Bytes.UnpackU32U32 | ioam-agent.py:83 | `unpack(">u32u32")` succeeds exactly on at least 8 bytes |
| Bytes.UnpackR64 | ioam-agent.py:86 | `unpack(">r64")` succeeds exactly on at least 8 bytes |
| Bytes.BEToBE | ioam-agent.py:56 | reading back an n-byte big-endian encoding gives the value when it fits |
| Bytes.ToBEBE | ioam-agent.py:56 | encoding a value read from bytes gives the same bytes |
| Bytes.UnpackU8U24BigEndian | ioam-agent.py:56 | hop limit and 24-bit id are the first byte and the next three, big-endian |
| Bytes.UnpackU16U16BigEndian | ioam-agent.py:59 | ingress and egress ids are two big-endian 16-bit halves |
| Bytes.UnpackU32U32BigEndian | ioam-agent.py:83 | wide ingress and egress ids are two big-endian 32-bit halves |
| Bytes.UnpackU8U24Pack | ioam-agent.py:56 | unpacking a packed 8/24-bit pair gives the pair, whatever follows |
| Bytes.UnpackU16U16Pack | ioam-agent.py:59 | unpacking a packed 16/16-bit pair gives the pair |
| Bytes.UnpackU32Pack | ioam-agent.py:62 | unpacking a packed 32-bit value gives it |
| Bytes.UnpackR32Pack | ioam-agent.py:71 | unpacking 4 raw bytes gives them |
| Bytes.UnpackU8U56Pack | ioam-agent.py:80 | unpacking a packed 8/56-bit pair gives the pair |
| Bytes.UnpackU32U32Pack | ioam-agent.py:83 | unpacking a packed 32/32-bit pair gives the pair |
| Bytes.UnpackR64Pack | ioam-agent.py:86 | unpacking 8 raw bytes gives them |
| Common.Reverse | ioam-agent.py:117 | prepending each node yields the wire order reversed: the k-th result is the (n-1-k)-th node |
| Common.ReverseReverse | ioam-agent.py:117 | reversing twice gives the original order |
| IoamDecoder.Chunk | ioam-agent.py:55-90 | the chunk read for a selected field that fits is exactly its width in bytes; for an unselected or overrunning field nothing is read |
| IoamDecoder.DecodeNodeFields | ioam-agent.py:51-92 | a node decodes exactly when its chunk holds the node size the bitmask asks for, and then to the field-by-field reference |
| IoamDecoder.PartialComplete | ioam-agent.py:54-90 | running all twelve `if` blocks in order over a long-enough chunk assigns every selected field and no other |
| IoamDecoder.DecodeNodeIgnoresTail | ioam-agent.py:51-92 | bytes past the node size never influence the decoded node |
| IoamDecoder.HopLimitBigEndian | ioam-agent.py:55-81 | the wide hop limit (bit 8) overrides the short one (bit 0); the hop limit is the first byte of its block and the short id the next three |
| IoamDecoder.ReadField | ioam-agent.py:54-90 | one `if ttype & mask` block: fails only when the chunk is shorter than the node size, else assigns that block's fields and advances the cursor by its width |
| IoamDecoder.ParseTraceNode | ioam-agent.py:51-92 | the cursor walk returns exactly the reference decoding of the chunk (None on a short chunk) |
| IoamDecoder.FailsBelow | ioam-agent.py:51-92 | a selected field that does not fit implies the chunk is shorter than the node size |
| IoamDecoder.WireStep | ioam-agent.py:104-117 | a successful step over a node (and its snapshot) moves the cursor strictly forward |
| IoamDecoder.WireStepSnapshot | ioam-agent.py:108-115 | with bit 22, the snapshot header gives length and schema id, data is kept only for a non-zero length, and the cursor passes `4 + oss_len * 4` more bytes |
| IoamDecoder.PlainStep | ioam-agent.py:104-106 | without snapshots, the node list is the decoding of the next chunk followed by the rest |
| IoamDecoder.WireNodesChunks | ioam-agent.py:104-117 | without snapshots, there is one node per started `node_len * 4`-byte chunk, each decoded from its chunk |
| IoamDecoder.DecodedChunksAt | ioam-agent.py:104-106 | the k-th decoded node is the decoding of the k-th chunk |
| IoamDecoder.ReversedChunks | ioam-agent.py:117 | after the reversal, the k-th node comes from the k-th chunk counted from the end |
| IoamDecoder.DecodeEventChunks | ioam-agent.py:94-126 | without snapshots, a decoded trace has one node per started chunk, and node k is the decoding of chunk n-1-k (last hop first) |
| IoamDecoder.DecodeEvent | ioam-agent.py:94-126 | a missing trace type, data or namespace fails; bit field = attribute >> 8 and namespace as given |
| IoamDecoder.ReadNode | ioam-agent.py:105-115 | one loop pass returns exactly the reference step: node, optional snapshot, next cursor |
| IoamDecoder.ParseIoamTrace | ioam-agent.py:94-126 | the loop returns exactly the reference trace of the event, None wherever the code raises |
| IoamDecoder.ReportEvent | ioam-agent.py:128-139 | the callback is invoked at most once, exactly for a trace event whose decoding succeeds, and with that trace |
| IoamEncoding.EncodePrefix | ioam-agent.py:54-90 | the bytes of the first k field blocks are a prefix of those of the first j |
| IoamEncoding.ChunkOfEncoding | ioam-agent.py:54-90 | the chunk the decoder reads for field k of an encoded node is exactly that field's encoding |
| IoamEncoding.U8U24Back | ioam-agent.py:56 | the short hop limit and id block reads back |
| IoamEncoding.U16U16Back | ioam-agent.py:59 | the short ingress and egress ids read back |
| IoamEncoding.U32Back | ioam-agent.py:61-69 | a 32-bit field reads back when present and stays unset otherwise |
| IoamEncoding.R32Back | ioam-agent.py:70-72 | short namespace data reads back as raw bytes |
| IoamEncoding.U8U56Back | ioam-agent.py:80 | the wide hop limit and id block reads back |
| IoamEncoding.U32U32Back | ioam-agent.py:83 | the wide ingress and egress ids read back |
| IoamEncoding.R64Back | ioam-agent.py:85-87 | wide namespace data reads back as raw bytes |
| IoamEncoding.LowFieldsBack | ioam-agent.py:55-72 | field blocks 0-5 of an encoded well-formed node unpack to its values |
| IoamEncoding.HighFieldsBack | ioam-agent.py:73-90 | field blocks 6-11 of an encoded well-formed node unpack to its values |
| IoamEncoding.FieldsBack | ioam-agent.py:51-92 | the field reference applied to an encoded well-formed node gives the node |
| IoamEncoding.DecodeEncodeNode | ioam-agent.py:51-92 | decoding an encoded well-formed node, followed by any padding, gives it back |
| IoamEncoding.ChunksWhole | ioam-agent.py:54-90 | a chunk of at least the node size holds every selected field whole |
| IoamEncoding.DecodedShortIdsWF | ioam-agent.py:55-66 | decoded short ids and timestamps are set exactly for their bits and fit their widths |
| IoamEncoding.DecodedShortDataWF | ioam-agent.py:67-78 | decoded transit delay, namespace data, queue depth and checksum are set exactly for their bits and fit |
| IoamEncoding.DecodedWideWF | ioam-agent.py:79-90 | decoded hop limit and wide fields are set exactly for their bits and fit; no snapshot is set |
| IoamEncoding.DecodedNodeWF | ioam-agent.py:51-92 | every decoded node is well formed (the encoder's domain is the decoder's range) |
| IoamEncoding.EncodeOss | ioam-agent.py:109-113 | an encoded snapshot is a 4-byte header then the data; for a well-formed snapshot the header unpacks to the data length in words and the schema id |
| IoamEncoding.EntriesWFAll | ioam-agent.py:104-117 | a list whose every node is a well-formed entry satisfies the recursive entry predicate |
| IoamEncoding.EntryChunk | ioam-agent.py:105 | the node chunk of an encoded entry is the node's encoding, zero-padded to `node_len * 4` |
| IoamEncoding.EntrySnapshot | ioam-agent.py:108-115 | after an entry's node chunk come its snapshot header (length, schema id) and its data words |
| IoamEncoding.WireStepEncoded | ioam-agent.py:104-117 | one loop step reads an encoded entry back as its node (with snapshot) and moves past it exactly |
| IoamEncoding.WireNodesEncoded | ioam-agent.py:104-117 | the loop reads an encoded list of entries back as the same nodes, in wire order |
| IoamEncoding.WireSplit | ioam-agent.py:104-117 | an encoded list is its first entry followed by the encoding of the rest |
| IoamEncoding.DecodeEncodeEvent | ioam-agent.py:94-126 | an event carrying a trace's nodes in wire order decodes to that trace, last hop first |
| PathCodec.SplitFrom | gnmi.py:23 | the split always yields at least one piece |
| PathCodec.SplitFromJoin | gnmi.py:23 | joining the pieces of the split with `/` gives the string back |
| PathCodec.SplitJoin | gnmi.py:23 | splitting loses no character |
| PathCodec.NotCleanBeforeClose | gnmi.py:23 | a suffix with a `]` before any `[` fails the lookahead |
| PathCodec.SlashInGroupKept | gnmi.py:23 | a `/` inside a `[...]` group never splits |
| PathCodec.SplitFromLast | gnmi.py:22-23 | a trailing `/` always splits and leaves an empty last piece |
| PathCodec.ListFromPath | gnmi.py:19-31 | the segments are never more than the pieces of the split |
| PathCodec.ListFromPathRoot | gnmi.py:19-31 | the empty path and `/` have no segments |
| PathCodec.AbsoluteList | gnmi.py:21-25 | an absolute path's segments are the split of the rest, minus the empty piece after a trailing `/` |
| PathCodec.AbsolutePathJoin | gnmi.py:21-25 | an absolute path is `/` followed by its segments joined with `/`, then the trailing `/` if any |
| PathCodec.Before | gnmi.py:36 | `split("[", 1)[0]` is the longest prefix without `[` |
| PathCodec.SplitOnce | gnmi.py:38 | `split("=", 1)` yields two parts exactly when there is an `=`, splitting at the first one |
| PathCodec.GroupEnd | gnmi.py:37 | a lazy group ends at the first `]`, unless a newline comes first |
| PathCodec.KeysFrom | gnmi.py:38 | building the key dict fails exactly when some group lacks `=` |
| PathCodec.KeysLastWins | gnmi.py:38 | for a repeated key, the last group wins |
| PathCodec.ElemFromString | gnmi.py:36-39 | an element's name is the text before its first `[` and contains no `[` |
| PathCodec.ElemsFrom | gnmi.py:35-40 | a path parses exactly when every segment does, element by element and in order |
| PathCodec.FindAllRenderKeys | gnmi.py:37 | the lazy findall over rendered key groups returns the group bodies in order |
| PathCodec.KeysFromRendered | gnmi.py:38 | the dict built from rendered groups is the keys in order, the last one winning |
| PathCodec.ElemRoundTrip | gnmi.py:36-39 | parsing a rendered element gives its name and key map |
| PathCodec.SplitJoinSegments | gnmi.py:23 | segments joined with `/` split back into the same segments |
| PathCodec.PathRoundTrip | gnmi.py:19-31 | `list_from_path` of `/` followed by well-formed segments gives the segments |
| PathCodec.PathFromStringRoundTrip | gnmi.py:33-40 | `path_from_string` of a rendered path gives one element per spec, with its name and keys |
| GnmiExporter.Decimal | gnmi.py:225 | `"{}".format(n)` is a non-empty string of decimal digits |
| GnmiExporter.DecimalRoundTrip | gnmi.py:225 | reading the numeral gives the number back |
| GnmiExporter.NodeTriples | gnmi.py:230-235 | each node yields six triples |
| GnmiExporter.TriplesOf | gnmi.py:227-235 | a record yields six triples per node |
| GnmiExporter.ParseIoamRecord | gnmi.py:223-235 | the triples exist exactly when the trace has nodes (`Nodes[0]` raises otherwise) |
| GnmiExporter.TriplesAt | gnmi.py:227-235 | node k's triples are the six at 6k, in node order |
| GnmiExporter.TriplesAreInts | gnmi.py:230-235 | every triple is an int under the namespace prefix |
| GnmiExporter.Lookup | gnmi.py:221 | a key is absent exactly when it is not among the stored keys |
| GnmiExporter.PutLookup | gnmi.py:221 | after a store, the key maps to the new trace and every other key is unchanged |
| GnmiExporter.PutKeys | gnmi.py:221 | a store keeps the key order and appends a new key at the end |
| GnmiExporter.PutEntries | gnmi.py:221 | a store adds no entry other than the new one |
| GnmiExporter.PutStoreWF | gnmi.py:218-221 | storing a trace keeps the keys distinct, each matching its trace |
| GnmiExporter.RecordsOf | gnmi.py:255-256 | flattening the store fails exactly when some stored trace has no nodes |
| GnmiExporter.PutNew | gnmi.py:221 | storing under a new key appends the entry at the end |
| GnmiExporter.PutAt | gnmi.py:221 | storing under an existing key replaces that entry in place and keeps all others |
| GnmiExporter.PutTwice | gnmi.py:221 | storing twice under one key leaves only the second trace, as if the first store never happened |
| GnmiExporter.RecordsOfAppend | gnmi.py:254-256 | iterating two stores one after the other gives the first's triples then the second's |
| GnmiExporter.RecordsOfCount | gnmi.py:227-235 | a store whose traces all have nodes flattens to six triples per stored node |
| GnmiExporter.RecordsOfLayout | gnmi.py:254-256 | a well-formed store flattens, and entry `i`'s triples sit right after those of the entries before it |
| GnmiExporter.RecordsOfPut | gnmi.py:210-221 | after storing a trace, its triples replace the old trace's at the same place, or come after all others for a new key |
| GnmiExporter.Exporter.constructor | gnmi.py:178-180 | empty store, empty queue, ON_CHANGE off |
| GnmiExporter.Exporter.InputIoamRecord | gnmi.py:210-221 | in ON_CHANGE mode the trace is queued and the store is unchanged; otherwise it is stored under (namespace, first node id), and a trace without nodes raises and changes nothing |
| GnmiExporter.Exporter.OnchangeServicerHasClosed | gnmi.py:199-201 | ON_CHANGE is switched off, the queue is emptied and the store is kept |
| GnmiExporter.Exporter.IterateData | gnmi.py:237-256 | nothing unless `/` is subscribed; then six triples per stored node, and the triples of entry `i` are exactly its record's triples, placed after those of the entries before it in insertion order |
| GnmiServer.PathsOf | gnmi.py:76-84 | one path string per subscription, the i-th being the i-th subscription's names rendered as a path |
| GnmiServer.FirstBad | gnmi.py:76-89 | the loop stops at the first subscription whose JSON lacks a key it reads; all earlier ones are complete |
| GnmiServer.Validated | gnmi.py:66-92 | succeeds exactly when there is a subscription and each has the keys read from it; then the i-th path is the i-th subscription's, and a SAMPLE first subscription gives its own nonzero interval |
| GnmiServer.ValidatedInterval | gnmi.py:85-92 | the interval is 0 exactly when the first subscription is ON_CHANGE |
| GnmiServer.PathStringJoin | gnmi.py:77-83 | the path string is `/` followed by the names joined with `/` |
| GnmiServer.SubscribedPathSplits | gnmi.py:77-84 | `list_from_path` of a subscription's path string gives back its element names |
| GnmiServer.Dispatch | gnmi.py:107-114 | int accepts only int64 ints, str and json accept only strings, float accepts ints and floats, any other kind leaves the value unset |
| GnmiServer.DispatchKeepsValue | gnmi.py:107-114 | a dispatched value is the datum in the field its kind names |
| GnmiServer.Collect | gnmi.py:102-114 | a response's updates exist exactly when every conversion succeeds, and then they are those results in order |
| GnmiServer.UpdatesOfEach | gnmi.py:102-114 | the updates exist exactly when every triple converts, and the i-th update is the i-th triple's |
| GnmiServer.BuildUpdates | gnmi.py:102-114 | the loop adding one update per triple returns the reference updates (None on the first failure) |
| GnmiServer.TriplePath | gnmi.py:225-235 | each record triple's path parses to the `ioam` element with the namespace id, then the `Node` element with the first node's id (except for BitField), then the field |
| GnmiServer.TripleUpdate | gnmi.py:126-138 | a record triple becomes an update at its field's path with its int value |
| GnmiServer.RecordUpdates | gnmi.py:126-138 | a record whose values fit int64 converts fully: update 6k+j is field j of node k at its path |
| GnmiServer.RecordResponse | gnmi.py:118-140 | an ON_CHANGE response for such a record exists, is a notification, carries the timestamp and holds six updates per node |
| GnmiServer.StoreResponse | gnmi.py:94-116 | for a root subscription over a store whose traces fit int64, the SAMPLE response exists, is a notification stamped `now`, holds six updates per stored node, and from `Start(data, i)` on holds entry `i`'s record updates, in insertion order |
| GnmiServer.Servicer.constructor | gnmi.py:46-50 | the servicer starts with ON_CHANGE off |
| GnmiServer.Servicer.ValidateSubscriptions | gnmi.py:66-92 | the nested loops return exactly the reference paths and first interval; the flag is set iff an ON_CHANGE subscription is read before a failure, and it is never cleared |
| GnmiServer.Servicer.SubscribeResponse | gnmi.py:94-116 | the response holding the updates of the iterated store; any response sent is a notification with the given timestamp, never the sync flag, and it is empty when `/` is not subscribed |
| GnmiServer.Servicer.SubscribeResponseOnChange | gnmi.py:118-140 | a notification holding the updates of one trace, with the given timestamp |

## Left out

- Netlink I/O is not modelled: the event socket, the family lookup and the message marshalling. An event is a value whose attributes may each be missing.
- The agent's command line, its gRPC client to the collector and its main loop are not modelled. `ReportEvent` returns the list of callback invocations instead of calling one.
- `ReportEvent` swallows `grpc.RpcError`. Whatever the callback does after the call is not modelled.
- A trace event with data, a node length of 0, bit 22 clear and none of the field bits 0-11 set makes the source loop forever, because the cursor never advances and the empty chunk is never unpacked. The model returns `None` there. With any field bit 0-11 set, the empty chunk makes `unpack` raise (ioam-agent.py:55-56), the bare `except` (ioam-agent.py:125-126) returns `None`, and the model gives `None` as well.
- The loop stops once the cursor passes the end of the data. A last node that overruns the data is decoded from the clipped chunk, or fails in `unpack`. It is not discarded as a whole; the model follows the code.
- Fields the bitmask does not select are `None`. A protobuf message would read them as 0.
- The exporter's record (`ExportNode`, `ExportTrace`) is separate from the decoder's `Node`. The exporter reads `Timestamp` and `TimestampSub` (gnmi.py:231-235), while the decoder fills `TimestampSecs` and `TimestampFrac` (ioam-agent.py:62-65). The type of the exporter's input does not appear in these sources, so the model gives the exporter its own record.
- The gRPC server is not modelled: TLS credentials, certificate files, `run`, and the Capabilities and Get stubs.
- The `Subscribe` generator is not modelled: the callback registration, the blocking queue, `time.sleep` and the infinite response loops. The timestamp (`time.time_ns()`) is a parameter `now`.
- The JSON form of a request is modelled by its default-omission semantics. An empty element list, the TARGET_DEFINED mode and a zero interval are absent keys, and reading one raises. A request without a subscription list returns a bare list, which the caller cannot unpack; the model gives `None`.
- GnmiServer.Servicer.SubscribeResponse: `_subscribeResponse` sets `sync_response` (gnmi.py:100), but `update` and `sync_response` share the `response` oneof, and writing `update` (gnmi.py:105, 115) clears the flag. The response sent is always a notification, so the model never sends the sync flag.
- GnmiServer.Validated: returns the sample interval in nanoseconds as a natural number, without the division by `1e9` into a float.
- GnmiServer.Dispatch: float values are mathematical reals, with no rounding to the protobuf `float`. The UTF-8 encoding of `json_val` is not modelled and the text is kept as is.
- The exporter's store, queue and flag are touched by several gRPC threads. Concurrency and the thread safety of `Queue` are not modelled.
- `_parse_ioam_record` uses the first node's id in every node prefix. The model keeps this as written, so every node of a record maps to the same `Node[id=…]` path.
- `list_from_path` drops the first piece of the split whenever the path starts with `/`, even a non-empty piece before a `[`-protected slash. This is modelled as written; the round-trip lemmas are stated for paths the exporter writes.
- `path_from_string` on a group body containing a newline is not covered by a round-trip lemma. `GroupEnd` models the regular expression's `.`, which stops at a newline.
