/** The exporter's store: the last trace per (namespace, first node id) for
    SAMPLE subscribers, a FIFO of traces for an ON_CHANGE subscriber, and
    the flattening of a trace into (path, value, kind) triples. */
module GnmiExporter {
  import opened Common
  import opened PathCodec

  // ----- Traces as the exporter reads them -----

  /** The node fields the exporter reads. */
  datatype ExportNode = ExportNode(hopLimit: nat, id: nat, ingressId: nat, egressId: nat,
                                   timestamp: nat, timestampSub: nat)

  datatype ExportTrace = ExportTrace(namespaceId: nat, bitField: nat, nodes: seq<ExportNode>)

  /** The Python type a triple announces for its value. */
  datatype Kind = IntKind | StrKind | FloatKind | JsonKind | OtherKind

  datatype Datum = DInt(i: int) | DStr(s: string) | DFloat(f: real)

  datatype Triple = Triple(path: string, value: Datum, kind: Kind)

  /** The key a trace is stored under. */
  type Key = (nat, nat)

  // ----- Decimal numerals (`"{}".format(n)`) -----

  function Digit(d: nat): (c: char)
    requires d < 10
    ensures '0' <= c <= '9'
  {
    "0123456789"[d]
  }

  function Decimal(n: nat): (r: string)
    ensures r != []
    ensures forall i :: 0 <= i < |r| ==> '0' <= r[i] <= '9'
  {
    if n < 10 then [Digit(n)] else Decimal(n / 10) + [Digit(n % 10)]
  }

  /** The value of a string of decimal digits. */
  function DecimalValue(s: string): nat
    requires forall i :: 0 <= i < |s| ==> '0' <= s[i] <= '9'
  {
    if s == [] then 0 else DecimalValue(s[..|s| - 1]) * 10 + (s[|s| - 1] as nat - '0' as nat)
  }

  /** Reading a numeral gives the number back. */
  lemma {:induction false} DecimalRoundTrip(n: nat)
    ensures DecimalValue(Decimal(n)) == n
  {
    if n >= 10 {
      var s := Decimal(n);
      DecimalRoundTrip(n / 10);
      assert s[..|s| - 1] == Decimal(n / 10);
      assert "0123456789"[n % 10] as nat - '0' as nat == n % 10;
    } else {
      assert "0123456789"[n] as nat - '0' as nat == n;
    }
  }

  // ----- _parse_ioam_record -----

  function NamespacePrefix(t: ExportTrace): string
  {
    "/ioam[id=" + Decimal(t.namespaceId) + "]"
  }

  /** The prefix of every node's fields: always the first node's id. */
  function NodePrefix(t: ExportTrace): string
    requires t.nodes != []
  {
    NamespacePrefix(t) + "/Node[id=" + Decimal(t.nodes[0].id) + "]"
  }

  /** The six triples a node contributes. */
  function NodeTriples(t: ExportTrace, n: ExportNode): (r: seq<Triple>)
    requires t.nodes != []
    ensures |r| == 6
  {
    [Triple(NamespacePrefix(t) + "/BitField", DInt(t.bitField), IntKind),
     Triple(NodePrefix(t) + "/HopLimit", DInt(n.hopLimit), IntKind),
     Triple(NodePrefix(t) + "/IngressId", DInt(n.ingressId), IntKind),
     Triple(NodePrefix(t) + "/EgressId", DInt(n.egressId), IntKind),
     Triple(NodePrefix(t) + "/Timestamp", DInt(n.timestamp), IntKind),
     Triple(NodePrefix(t) + "/TimestampSub", DInt(n.timestampSub), IntKind)]
  }

  function TriplesOf(t: ExportTrace, nodes: seq<ExportNode>): (r: seq<Triple>)
    requires t.nodes != []
    ensures |r| == 6 * |nodes|
  {
    if nodes == [] then [] else NodeTriples(t, nodes[0]) + TriplesOf(t, nodes[1..])
  }

  /** `_parse_ioam_record`: six int triples per node, in node order; a trace
      without nodes fails on its first node's id. */
  function ParseIoamRecord(t: ExportTrace): (r: Option<seq<Triple>>)
    ensures r.Some? <==> t.nodes != []
  {
    if t.nodes == [] then None else Some(TriplesOf(t, t.nodes))
  }

  /** The triples of node `k` are the six at `6 * k`. */
  lemma {:induction false} TriplesAt(t: ExportTrace, nodes: seq<ExportNode>, k: nat)
    requires t.nodes != [] && k < |nodes|
    ensures TriplesOf(t, nodes)[6 * k .. 6 * k + 6] == NodeTriples(t, nodes[k])
    decreases k
  {
    var r := TriplesOf(t, nodes);
    if k > 0 {
      TriplesAt(t, nodes[1..], k - 1);
      assert r[6 * k .. 6 * k + 6] == TriplesOf(t, nodes[1..])[6 * (k - 1) .. 6 * (k - 1) + 6];
    }
  }

  /** Every triple of a record has an int value and kind, and a path under
      the namespace prefix. */
  lemma {:induction false} TriplesAreInts(t: ExportTrace, nodes: seq<ExportNode>)
    requires t.nodes != []
    ensures forall i :: 0 <= i < |TriplesOf(t, nodes)| ==>
      TriplesOf(t, nodes)[i].kind == IntKind && TriplesOf(t, nodes)[i].value.DInt?
      && NamespacePrefix(t) <= TriplesOf(t, nodes)[i].path
    decreases |nodes|
  {
    if nodes != [] {
      TriplesAreInts(t, nodes[1..]);
      var r := TriplesOf(t, nodes);
      var head := NodeTriples(t, nodes[0]);
      forall i | 0 <= i < |r|
        ensures r[i].kind == IntKind && r[i].value.DInt? && NamespacePrefix(t) <= r[i].path
      {
        if i < 6 {
          assert r[i] == head[i];
          assert NamespacePrefix(t) <= NodePrefix(t);
        } else {
          assert r[i] == TriplesOf(t, nodes[1..])[i - 6];
        }
      }
    }
  }

  // ----- The dict of stored traces, in insertion order -----

  function Keys(d: seq<(Key, ExportTrace)>): (r: seq<Key>)
    ensures |r| == |d|
    ensures forall i :: 0 <= i < |d| ==> r[i] == d[i].0
  {
    if d == [] then [] else [d[0].0] + Keys(d[1..])
  }

  predicate Distinct(ks: seq<Key>)
  {
    forall i, j :: 0 <= i < j < |ks| ==> ks[i] != ks[j]
  }

  /** `d[k]`, if present. */
  function Lookup(d: seq<(Key, ExportTrace)>, k: Key): (r: Option<ExportTrace>)
    ensures r.None? <==> k !in Keys(d)
  {
    if d == [] then None else if d[0].0 == k then Some(d[0].1) else Lookup(d[1..], k)
  }

  /** `d[k] = v`: an existing key keeps its position, a new one goes last. */
  function Put(d: seq<(Key, ExportTrace)>, k: Key, v: ExportTrace): (r: seq<(Key, ExportTrace)>)
  {
    if d == [] then [(k, v)]
    else if d[0].0 == k then [(k, v)] + d[1..]
    else [d[0]] + Put(d[1..], k, v)
  }

  /** After `d[k] = v`, `d[k]` is `v` and every other key reads as before. */
  lemma {:induction false} PutLookup(d: seq<(Key, ExportTrace)>, k: Key, v: ExportTrace, k': Key)
    ensures Lookup(Put(d, k, v), k') == if k' == k then Some(v) else Lookup(d, k')
    decreases |d|
  {
    if d != [] && d[0].0 != k {
      PutLookup(d[1..], k, v, k');
      assert Put(d, k, v)[1..] == Put(d[1..], k, v);
    }
  }

  /** Overwriting keeps the key order; a new key is appended. */
  lemma {:induction false} PutKeys(d: seq<(Key, ExportTrace)>, k: Key, v: ExportTrace)
    ensures Keys(Put(d, k, v)) == if k in Keys(d) then Keys(d) else Keys(d) + [k]
    decreases |d|
  {
    if d != [] {
      assert Keys(d) == [d[0].0] + Keys(d[1..]);
      if d[0].0 != k {
        PutKeys(d[1..], k, v);
        assert Put(d, k, v)[1..] == Put(d[1..], k, v);
        assert k in Keys(d) <==> k in Keys(d[1..]);
      }
    }
  }

  /** The entries of `Put(d, k, v)` are those of `d`, with `(k, v)` in place
      of the entry for `k`, or added. */
  lemma {:induction false} PutEntries(d: seq<(Key, ExportTrace)>, k: Key, v: ExportTrace)
    ensures forall e :: e in Put(d, k, v) ==> e == (k, v) || e in d
    decreases |d|
  {
    if d != [] && d[0].0 != k {
      PutEntries(d[1..], k, v);
    }
  }

  function KeyOf(t: ExportTrace): Key
    requires t.nodes != []
  {
    (t.namespaceId, t.nodes[0].id)
  }

  /** What the store keeps: distinct keys, each trace under its own key and
      with at least one node. */
  predicate StoreWF(d: seq<(Key, ExportTrace)>)
  {
    Distinct(Keys(d)) && forall i :: 0 <= i < |d| ==> d[i].1.nodes != [] && d[i].0 == KeyOf(d[i].1)
  }

  lemma {:induction false} PutStoreWF(d: seq<(Key, ExportTrace)>, t: ExportTrace)
    requires StoreWF(d) && t.nodes != []
    ensures StoreWF(Put(d, KeyOf(t), t))
  {
    var k := KeyOf(t);
    if k !in Keys(d) {
      PutNew(d, k, t);
      StoreWFAppend(d, t);
    } else {
      var i :| 0 <= i < |d| && Keys(d)[i] == k;
      PutAt(d, k, t, i);
      StoreWFReplace(d, t, i);
    }
  }

  lemma {:induction false} StoreWFAppend(d: seq<(Key, ExportTrace)>, t: ExportTrace)
    requires StoreWF(d) && t.nodes != [] && KeyOf(t) !in Keys(d)
    ensures StoreWF(d + [(KeyOf(t), t)])
  {
    var d' := d + [(KeyOf(t), t)];
    var ks := Keys(d');
    forall i, j | 0 <= i < j < |ks| ensures ks[i] != ks[j] {
      if j == |ks| - 1 { assert ks[i] == Keys(d)[i]; }
    }
    forall j | 0 <= j < |d'| ensures d'[j].1.nodes != [] && d'[j].0 == KeyOf(d'[j].1) {
      if j < |d| { assert d'[j] == d[j]; }
    }
  }

  lemma {:induction false} StoreWFReplace(d: seq<(Key, ExportTrace)>, t: ExportTrace, i: nat)
    requires StoreWF(d) && t.nodes != [] && i < |d| && d[i].0 == KeyOf(t)
    ensures StoreWF(d[..i] + [(KeyOf(t), t)] + d[i + 1..])
  {
    var d' := d[..i] + [(KeyOf(t), t)] + d[i + 1..];
    Replaced(d, (KeyOf(t), t), i);
    assert Keys(d') == Keys(d);
  }

  /** Replacing element `i` leaves the others in place. */
  lemma {:induction false} Replaced<T>(d: seq<T>, x: T, i: nat)
    requires i < |d|
    ensures var d' := d[..i] + [x] + d[i + 1..];
      |d'| == |d| && d'[i] == x && forall j :: 0 <= j < |d| && j != i ==> d'[j] == d[j]
  {
    var pre, post := d[..i] + [x], d[i + 1..];
    forall j | 0 <= j < |d| && j != i ensures (pre + post)[j] == d[j] {
      if j < i {
        assert (pre + post)[j] == pre[j];
      } else {
        assert (pre + post)[j] == post[j - i - 1];
      }
    }
  }

  /** Every stored trace has a node. */
  predicate AllHaveNodes(d: seq<(Key, ExportTrace)>)
  {
    forall i :: 0 <= i < |d| ==> d[i].1.nodes != []
  }

  /** The triples of the stored traces, one record after the other. */
  function RecordsOf(d: seq<(Key, ExportTrace)>): (r: Option<seq<Triple>>)
    ensures r.Some? <==> AllHaveNodes(d)
  {
    if d == [] then Some([])
    else
      var head := ParseIoamRecord(d[0].1);
      var tail := RecordsOf(d[1..]);
      if head.None? || tail.None? then None else Some(head.value + tail.value)
  }

  /** The nodes of all stored traces. */
  function NodeCount(d: seq<(Key, ExportTrace)>): nat
  {
    if d == [] then 0 else |d[0].1.nodes| + NodeCount(d[1..])
  }

  lemma {:induction false} NodeCountAppend(a: seq<(Key, ExportTrace)>, b: seq<(Key, ExportTrace)>)
    ensures NodeCount(a + b) == NodeCount(a) + NodeCount(b)
    decreases |a|
  {
    if a != [] {
      NodeCountAppend(a[1..], b);
      assert (a + b)[1..] == a[1..] + b;
    } else {
      assert a + b == b;
    }
  }

  /** Iterating two stores one after the other. */
  lemma {:induction false} RecordsOfAppend(a: seq<(Key, ExportTrace)>, b: seq<(Key, ExportTrace)>)
    ensures RecordsOf(a + b).Some? <==> RecordsOf(a).Some? && RecordsOf(b).Some?
    ensures RecordsOf(a + b).Some? ==> RecordsOf(a + b).value == RecordsOf(a).value + RecordsOf(b).value
    decreases |a|
  {
    if a != [] {
      RecordsOfAppend(a[1..], b);
      assert (a + b)[1..] == a[1..] + b;
    } else {
      assert a + b == b;
    }
  }

  /** Six triples per stored node. */
  lemma {:induction false} RecordsOfCount(d: seq<(Key, ExportTrace)>)
    requires AllHaveNodes(d)
    ensures |RecordsOf(d).value| == 6 * NodeCount(d)
    decreases |d|
  {
    if d != [] {
      RecordsOfCount(d[1..]);
    }
  }

  /** The triples of a store are those of the records before entry `i`,
      then entry `i`'s, then those after it. */
  lemma {:induction false} RecordsOfSplit(d: seq<(Key, ExportTrace)>, i: nat)
    requires AllHaveNodes(d) && i < |d|
    ensures d[i].1.nodes != [] && AllHaveNodes(d[..i]) && AllHaveNodes(d[i + 1..])
    ensures RecordsOf(d).value
      == RecordsOf(d[..i]).value + TriplesOf(d[i].1, d[i].1.nodes) + RecordsOf(d[i + 1..]).value
  {
    var mid := [d[i]] + d[i + 1..];
    assert d == d[..i] + mid;
    assert mid[1..] == d[i + 1..];
    RecordsOfAppend(d[..i], mid);
  }

  /** Where record `i` starts among the triples of the store: six per node of
      the records before it. */
  function Start(d: seq<(Key, ExportTrace)>, i: nat): (r: nat)
    requires i <= |d|
    ensures i == 0 ==> r == 0
    ensures i == |d| ==> r == 6 * NodeCount(d)
  {
    assert d[..|d|] == d;
    6 * NodeCount(d[..i])
  }

  /** Record `i`'s triples sit in `s` right after the six per node of the
      records before it. */
  predicate RecordAt(s: seq<Triple>, d: seq<(Key, ExportTrace)>, i: nat)
    requires i < |d| && d[i].1.nodes != []
  {
    Start(d, i) <= Start(d, i + 1) <= |s|
    && s[Start(d, i) .. Start(d, i + 1)] == TriplesOf(d[i].1, d[i].1.nodes)
  }

  /** Record `i` of the store lands right after the triples of the records
      before it. */
  lemma {:induction false} RecordsOfAt(d: seq<(Key, ExportTrace)>, i: nat)
    requires AllHaveNodes(d) && i < |d|
    ensures d[i].1.nodes != []
    ensures |RecordsOf(d).value| == 6 * NodeCount(d)
    ensures Start(d, i) <= Start(d, i + 1) <= |RecordsOf(d).value|
    ensures RecordsOf(d).value[Start(d, i) .. Start(d, i + 1)] == TriplesOf(d[i].1, d[i].1.nodes)
  {
    RecordsOfSplit(d, i);
    RecordsOfCount(d);
    RecordsOfCount(d[..i]);
    NodeCountAt(d, i);
    Middle(RecordsOf(d[..i]).value, TriplesOf(d[i].1, d[i].1.nodes), RecordsOf(d[i + 1..]).value);
  }

  /** Entry `i` adds its nodes to those before it. */
  lemma {:induction false} NodeCountAt(d: seq<(Key, ExportTrace)>, i: nat)
    requires i < |d|
    ensures NodeCount(d[..i + 1]) == NodeCount(d[..i]) + |d[i].1.nodes| <= NodeCount(d)
  {
    assert d[..i + 1] == d[..i] + [d[i]];
    NodeCountAppend(d[..i], [d[i]]);
    assert NodeCount([d[i]]) == |d[i].1.nodes| by { assert [d[i]][1..] == d[..0]; }
    assert d[..i + 1] + d[i + 1..] == d;
    NodeCountAppend(d[..i + 1], d[i + 1..]);
  }

  lemma Middle<T>(a: seq<T>, b: seq<T>, c: seq<T>)
    ensures (a + b + c)[|a| .. |a| + |b|] == b
  {
  }

  /** Iterating a valid store yields every record's triples, record after
      record in insertion order, and nothing else. */
  lemma {:induction false} RecordsOfLayout(d: seq<(Key, ExportTrace)>)
    requires StoreWF(d)
    ensures RecordsOf(d).Some? && |RecordsOf(d).value| == 6 * NodeCount(d)
    ensures forall i :: 0 <= i < |d| ==> RecordAt(RecordsOf(d).value, d, i)
  {
    RecordsOfCount(d);
    forall i | 0 <= i < |d| ensures RecordAt(RecordsOf(d).value, d, i) {
      RecordsOfAt(d, i);
    }
  }

  /** A new key goes last. */
  lemma {:induction false} PutNew(d: seq<(Key, ExportTrace)>, k: Key, v: ExportTrace)
    requires k !in Keys(d)
    ensures Put(d, k, v) == d + [(k, v)]
    decreases |d|
  {
    if d != [] {
      assert Keys(d) == [d[0].0] + Keys(d[1..]);
      PutNew(d[1..], k, v);
    }
  }

  /** An existing key keeps its place. */
  lemma {:induction false} PutAt(d: seq<(Key, ExportTrace)>, k: Key, v: ExportTrace, i: nat)
    requires Distinct(Keys(d)) && i < |d| && d[i].0 == k
    ensures Put(d, k, v) == d[..i] + [(k, v)] + d[i + 1..]
    decreases i
  {
    if i > 0 {
      assert d[0].0 != k by { assert Keys(d)[0] != Keys(d)[i]; }
      DistinctTail(d);
      PutAt(d[1..], k, v, i - 1);
      assert d[1..][..i - 1] == d[1..i];
      assert d[1..][i..] == d[i + 1..];
      assert [d[0]] + d[1..i] == d[..i];
    }
  }

  lemma {:induction false} DistinctTail(d: seq<(Key, ExportTrace)>)
    requires d != [] && Distinct(Keys(d))
    ensures Distinct(Keys(d[1..]))
  {
    forall a, b | 0 <= a < b < |d| - 1 ensures Keys(d[1..])[a] != Keys(d[1..])[b] {
      assert Keys(d)[a + 1] != Keys(d)[b + 1];
    }
  }

  /** Storing a trace under an existing key puts its triples where the old
      trace's were; under a new key they come last. */
  lemma {:induction false} RecordsOfPut(d: seq<(Key, ExportTrace)>, t: ExportTrace)
    requires StoreWF(d) && t.nodes != []
    ensures RecordsOf(Put(d, KeyOf(t), t)).Some?
    ensures KeyOf(t) !in Keys(d) ==>
      RecordsOf(Put(d, KeyOf(t), t)).value == RecordsOf(d).value + TriplesOf(t, t.nodes)
    ensures forall i :: 0 <= i < |d| && d[i].0 == KeyOf(t) ==>
      RecordsOf(d[..i]).Some? && RecordsOf(d[i + 1..]).Some?
      && RecordsOf(Put(d, KeyOf(t), t)).value
        == RecordsOf(d[..i]).value + TriplesOf(t, t.nodes) + RecordsOf(d[i + 1..]).value
  {
    var k := KeyOf(t);
    PutStoreWF(d, t);
    if k !in Keys(d) {
      PutNew(d, k, t);
      var one := [(k, t)];
      assert one[1..] == [];
      assert RecordsOf(one[1..]) == Some([]);
      assert TriplesOf(t, t.nodes) + [] == TriplesOf(t, t.nodes);
      assert RecordsOf(one) == Some(TriplesOf(t, t.nodes));
      RecordsOfAppend(d, [(k, t)]);
    } else {
      forall i | 0 <= i < |d| && d[i].0 == k
        ensures RecordsOf(d[..i]).Some? && RecordsOf(d[i + 1..]).Some?
          && RecordsOf(Put(d, k, t)).value
            == RecordsOf(d[..i]).value + TriplesOf(t, t.nodes) + RecordsOf(d[i + 1..]).value
      {
        PutAt(d, k, t, i);
        RecordsOfSplit(d, i);
        var d' := Put(d, k, t);
        assert d'[..i] == d[..i] && d'[i] == (k, t) && d'[i + 1..] == d[i + 1..];
        RecordsOfSplit(d', i);
      }
    }
  }

  /** Storing twice under one key keeps only the second trace. */
  lemma {:induction false} PutTwice(d: seq<(Key, ExportTrace)>, k: Key, v: ExportTrace, w: ExportTrace)
    ensures Put(Put(d, k, v), k, w) == Put(d, k, w)
    decreases |d|
  {
    if d != [] && d[0].0 != k {
      PutTwice(d[1..], k, v, w);
      assert Put(d, k, v)[1..] == Put(d[1..], k, v);
    }
  }

  class Exporter {
    var data: seq<(Key, ExportTrace)>
    var queue: seq<ExportTrace>
    var onChange: bool

    predicate Valid()
      reads this
    {
      StoreWF(data)
    }

    constructor()
      ensures Valid() && data == [] && queue == [] && !onChange
    {
      data := [];
      queue := [];
      onChange := false;
    }

    /** `input_ioam_record`: with an ON_CHANGE subscriber, queue the trace;
        otherwise store it under (namespace, first node id), replacing the
        previous one. A trace without nodes cannot be stored. */
    method InputIoamRecord(trace: ExportTrace) returns (ok: bool)
      requires Valid()
      modifies this
      ensures Valid() && onChange == old(onChange)
      ensures ok <==> old(onChange) || trace.nodes != []
      ensures old(onChange) ==> queue == old(queue) + [trace] && data == old(data)
      ensures !old(onChange) && ok ==> data == Put(old(data), KeyOf(trace), trace) && queue == old(queue)
      ensures !ok ==> data == old(data) && queue == old(queue)
    {
      if onChange {
        queue := queue + [trace];
        return true;
      }
      if trace.nodes == [] {
        return false;
      }
      PutStoreWF(data, trace);
      data := Put(data, KeyOf(trace), trace);
      return true;
    }

    /** `onchange_servicer_has_closed`: back to SAMPLE delivery, and the
        queued traces are dropped. */
    method OnchangeServicerHasClosed()
      requires Valid()
      modifies this
      ensures Valid() && !onChange && queue == [] && data == old(data)
    {
      onChange := false;
      queue := [];
    }

    /** `_iterate_data`: every stored record's triples in dict order, but only
        for a subscription to the root path `/`. */
    function IterateData(subscribed: seq<string>): (r: Option<seq<Triple>>)
      reads this
      requires Valid()
      ensures r.Some?
      ensures "/" !in subscribed ==> r.value == []
      ensures "/" in subscribed ==> |r.value| == 6 * NodeCount(data)
      ensures "/" in subscribed ==> forall i :: 0 <= i < |data| ==> RecordAt(r.value, data, i)
    {
      if "/" in subscribed then RecordsOfLayout(data); RecordsOf(data) else Some([])
    }
  }
}
