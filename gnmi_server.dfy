/** The Subscribe side of the gNMI service (section 3.5 of the gNMI
    specification): the subscriptions of a request folded into path strings,
    an interval and the ON_CHANGE flag; the typed value of each triple; and
    the updates of SAMPLE and ON_CHANGE responses. */
module GnmiServer {
  import opened Common
  import opened PathCodec
  import opened GnmiExporter

  // ----- Requests, as their JSON form presents them -----

  datatype Mode = TargetDefined | OnChange | Sample

  /** A subscription: the names of its path elements ("" for a nameless
      one), its mode and its sample interval in nanoseconds. */
  datatype Subscription = Subscription(names: seq<string>, mode: Mode, sampleInterval: nat)

  /** A request; `None` when it carries no subscription list. */
  datatype Request = Request(subscribe: Option<seq<Subscription>>)

  function SubscriptionsOf(req: Request): seq<Subscription>
  {
    if req.subscribe.Some? then req.subscribe.value else []
  }

  /** The JSON form leaves out a field at its default: an empty element list,
      the TARGET_DEFINED mode and a zero interval are missing keys, and
      reading one raises. */
  predicate SubscriptionOk(s: Subscription)
  {
    s.names != [] && (s.mode == OnChange || (s.mode == Sample && s.sampleInterval > 0))
  }

  /** One element of a path string: `/` and the name. A nameless element
      gives `/`, the same as a name that is empty. */
  function ElemString(name: string): string
  {
    "/" + name
  }

  function PathString(names: seq<string>): string
  {
    if names == [] then "" else PathString(names[..|names| - 1]) + ElemString(names[|names| - 1])
  }

  /** One path string per subscription, in order. */
  function PathsOf(subs: seq<Subscription>): (r: seq<string>)
    ensures |r| == |subs|
    ensures forall i :: 0 <= i < |subs| ==> r[i] == PathString(subs[i].names)
  {
    if subs == [] then [] else PathsOf(subs[..|subs| - 1]) + [PathString(subs[|subs| - 1].names)]
  }

  /** Where the fold stops: the first subscription whose JSON form lacks a
      key the code reads, or the end. */
  function FirstBad(subs: seq<Subscription>): (r: nat)
    ensures r <= |subs|
    ensures forall j :: 0 <= j < r ==> SubscriptionOk(subs[j])
    ensures r < |subs| ==> !SubscriptionOk(subs[r])
  {
    if subs == [] then 0
    else if !SubscriptionOk(subs[0]) then 0
    else
      var r := 1 + FirstBad(subs[1..]);
      assert forall j :: 1 <= j < |subs| ==> subs[j] == subs[1..][j - 1];
      r
  }

  /** Some subscription among these is ON_CHANGE. */
  predicate AnyOnChange(subs: seq<Subscription>)
  {
    subs != [] && (AnyOnChange(subs[..|subs| - 1]) || subs[|subs| - 1].mode == OnChange)
  }

  /** The interval a subscription contributes: 0 for ON_CHANGE. */
  function IntervalOf(s: Subscription): nat
  {
    if s.mode == OnChange then 0 else s.sampleInterval
  }

  /** The paths and the first interval, when every subscription has the keys
      read from it; `None` when the request has no subscription list (the
      bare list returned then cannot be unpacked into two values). */
  function Validated(req: Request): (r: Option<(seq<string>, nat)>)
    ensures var subs := SubscriptionsOf(req);
      r.Some? <==> subs != [] && forall j :: 0 <= j < |subs| ==> SubscriptionOk(subs[j])
    ensures var subs := SubscriptionsOf(req);
      r.Some? ==>
        |r.value.0| == |subs| > 0
        && (forall i :: 0 <= i < |subs| ==> r.value.0[i] == PathString(subs[i].names))
        && (subs[0].mode == Sample ==> r.value.1 == subs[0].sampleInterval > 0)
  {
    var subs := SubscriptionsOf(req);
    if subs == [] || FirstBad(subs) < |subs| then None
    else Some((PathsOf(subs), IntervalOf(subs[0])))
  }

  /** The interval is 0 exactly when the first subscription is ON_CHANGE. */
  lemma ValidatedInterval(req: Request)
    requires Validated(req).Some?
    ensures Validated(req).value.1 == 0 <==> SubscriptionsOf(req)[0].mode == OnChange
  {
    assert SubscriptionOk(SubscriptionsOf(req)[0]);
  }

  /** Each path string is the subscription's names, each after a `/`. */
  lemma {:induction false} PathStringJoin(names: seq<string>)
    requires names != []
    ensures PathString(names) == "/" + Join(names)
    decreases |names|
  {
    if |names| > 1 {
      var init := names[..|names| - 1];
      PathStringJoin(init);
      JoinSnoc(init, names[|names| - 1]);
      assert init + [names[|names| - 1]] == names;
    }
  }

  lemma {:induction false} JoinSnoc(parts: seq<string>, last: string)
    requires parts != []
    ensures Join(parts + [last]) == Join(parts) + "/" + last
    decreases |parts|
  {
    if |parts| > 1 {
      JoinSnoc(parts[1..], last);
      assert (parts + [last])[1..] == parts[1..] + [last];
    }
  }

  /** A subscribed path string splits back into its element names, when they
      are segments the split keeps whole. */
  lemma SubscribedPathSplits(names: seq<string>)
    requires names != [] && names[|names| - 1] != ""
    requires forall i :: 0 <= i < |names| ==> SegmentWF(names[i])
    ensures ListFromPath(PathString(names)) == names
  {
    PathStringJoin(names);
    PathRoundTrip(names);
  }

  // ----- Typed values -----

  const INT64_MIN: int := -0x8000_0000_0000_0000
  const INT64_MAX: int := 0x7fff_ffff_ffff_ffff

  /** The value of an update. */
  datatype TypedValue = IntVal(i: int) | StringVal(s: string) | FloatVal(f: real) | JsonVal(j: string) | NoValue

  /** The kind dispatch: the value goes into the field its kind names; a
      value the field does not accept raises; an unknown kind leaves the
      value unset. */
  function Dispatch(d: Datum, k: Kind): (r: Option<TypedValue>)
    ensures k == IntKind ==> (r.Some? <==> d.DInt? && INT64_MIN <= d.i <= INT64_MAX)
    ensures k == StrKind || k == JsonKind ==> (r.Some? <==> d.DStr?)
    ensures k == FloatKind ==> (r.Some? <==> !d.DStr?)
    ensures k == OtherKind ==> r == Some(NoValue)
  {
    match k
    case IntKind => if d.DInt? && INT64_MIN <= d.i <= INT64_MAX then Some(IntVal(d.i)) else None
    case StrKind => if d.DStr? then Some(StringVal(d.s)) else None
    case FloatKind =>
      if d.DInt? then Some(FloatVal(d.i as real))
      else if d.DFloat? then Some(FloatVal(d.f)) else None
    case JsonKind => if d.DStr? then Some(JsonVal(d.s)) else None
    case OtherKind => Some(NoValue)
  }

  /** A dispatched value keeps the datum: reading the field back gives it. */
  lemma DispatchKeepsValue(d: Datum, k: Kind)
    requires Dispatch(d, k).Some? && k != OtherKind
    ensures var v := Dispatch(d, k).value;
      match v
      case IntVal(i) => d == DInt(i) && k == IntKind
      case StringVal(s) => d == DStr(s) && k == StrKind
      case FloatVal(f) => k == FloatKind && (d == DFloat(f) || (d.DInt? && d.i as real == f))
      case JsonVal(j) => d == DStr(j) && k == JsonKind
      case NoValue => false
  {
  }

  // ----- Responses -----

  datatype Update = Update(path: seq<PathElem>, val: TypedValue)

  /** A `SubscribeResponse` holds one member of its `response` oneof: a
      notification of updates with its timestamp, or the sync flag. Writing
      the `update` member clears `sync_response`. */
  datatype Response = Notification(updates: seq<Update>, timestamp: nat) | SyncResponse

  /** The update of one triple: its path parsed, its value dispatched. */
  function UpdateOf(t: Triple): Option<Update>
  {
    var path := PathFromString(t.path);
    var val := Dispatch(t.value, t.kind);
    if path.None? || val.None? then None else Some(Update(path.value, val.value))
  }

  /** All the values, when none is missing. */
  function Collect<T>(xs: seq<Option<T>>): (r: Option<seq<T>>)
    ensures r.Some? <==> forall i :: 0 <= i < |xs| ==> xs[i].Some?
    ensures r.Some? ==> |r.value| == |xs| && forall i :: 0 <= i < |xs| ==> r.value[i] == xs[i].value
  {
    if xs == [] then Some([])
    else
      var init := Collect(xs[..|xs| - 1]);
      var last := xs[|xs| - 1];
      if init.None? || last.None? then None else Some(init.value + [last.value])
  }

  /** `f` applied to each element. */
  function Mapped<A, B>(xs: seq<A>, f: A -> B): (r: seq<B>)
    ensures |r| == |xs|
  {
    if xs == [] then [] else Mapped(xs[..|xs| - 1], f) + [f(xs[|xs| - 1])]
  }

  lemma {:induction false} MappedAt<A, B>(xs: seq<A>, f: A -> B, i: nat)
    requires i < |xs|
    ensures Mapped(xs, f)[i] == f(xs[i])
    decreases |xs|
  {
    if i < |xs| - 1 {
      MappedAt(xs[..|xs| - 1], f, i);
    }
  }

  lemma MappedSnoc<A, B>(xs: seq<A>, f: A -> B, i: nat)
    requires i < |xs|
    ensures Mapped(xs[..i + 1], f) == Mapped(xs[..i], f) + [f(xs[i])]
  {
    assert xs[..i + 1][..i] == xs[..i];
  }

  /** One missing value leaves the whole missing. */
  lemma CollectMappedNone<A, B>(xs: seq<A>, f: A -> Option<B>, i: nat)
    requires i < |xs| && f(xs[i]).None?
    ensures Collect(Mapped(xs, f)).None?
  {
    MappedAt(xs, f, i);
  }

  /** The updates of all triples, in order; one failure fails the response. */
  function UpdatesOf(ts: seq<Triple>): Option<seq<Update>>
  {
    Collect(Mapped(ts, UpdateOf))
  }

  /** The notification built from the triples, if every one converts. */
  function ResponseOf(ts: Option<seq<Triple>>, now: nat): Option<Response>
  {
    if ts.None? then None
    else
      var ups := UpdatesOf(ts.value);
      if ups.None? then None else Some(Notification(ups.value, now))
  }

  /** A response's updates exist when every triple converts, and then they
      are the triples' updates in order. */
  lemma UpdatesOfEach(ts: seq<Triple>)
    ensures UpdatesOf(ts).Some? <==> forall i :: 0 <= i < |ts| ==> UpdateOf(ts[i]).Some?
    ensures UpdatesOf(ts).Some? ==> |UpdatesOf(ts).value| == |ts|
    ensures UpdatesOf(ts).Some? ==> forall i :: 0 <= i < |ts| ==> Some(UpdatesOf(ts).value[i]) == UpdateOf(ts[i])
  {
    var conv := Mapped(ts, UpdateOf);
    forall i | 0 <= i < |ts| ensures conv[i] == UpdateOf(ts[i]) {
      MappedAt(ts, UpdateOf, i);
    }
  }

  /** The loop that adds one update per triple. */
  method BuildUpdates(ts: seq<Triple>) returns (r: Option<seq<Update>>)
    ensures r == UpdatesOf(ts)
  {
    var ups: seq<Update> := [];
    var i := 0;
    while i < |ts|
      invariant 0 <= i <= |ts|
      invariant Collect(Mapped(ts[..i], UpdateOf)) == Some(ups)
    {
      var u := UpdateOf(ts[i]);
      if u.None? {
        CollectMappedNone(ts, UpdateOf, i);
        return None;
      }
      MappedSnoc(ts, UpdateOf, i);
      ups := ups + [u.value];
      i := i + 1;
    }
    assert ts[..i] == ts;
    r := Some(ups);
  }

  // ----- The updates of a record -----

  /** The field each of a node's six triples carries, in order. */
  function FieldName(j: nat): string
    requires j < 6
  {
    ["BitField", "HopLimit", "IngressId", "EgressId", "Timestamp", "TimestampSub"][j]
  }

  function FieldValue(t: ExportTrace, n: ExportNode, j: nat): nat
    requires j < 6
  {
    if j == 0 then t.bitField
    else if j == 1 then n.hopLimit
    else if j == 2 then n.ingressId
    else if j == 3 then n.egressId
    else if j == 4 then n.timestamp
    else n.timestampSub
  }

  /** The path of field `j`: the bit field sits under the namespace, the
      other fields under the first node. */
  function RecordElems(t: ExportTrace, j: nat): seq<PathElem>
    requires t.nodes != [] && j < 6
  {
    var ns := PathElem("ioam", map["id" := Decimal(t.namespaceId)]);
    var field := PathElem(FieldName(j), map[]);
    if j == 0 then [ns, field]
    else [ns, PathElem("Node", map["id" := Decimal(t.nodes[0].id)]), field]
  }

  /** Every value of the trace fits the int64 field of an update. */
  predicate TraceFits(t: ExportTrace)
  {
    t.bitField <= INT64_MAX
    && forall k :: 0 <= k < |t.nodes| ==> NodeFits(t.nodes[k])
  }

  predicate NodeFits(n: ExportNode)
  {
    n.hopLimit <= INT64_MAX && n.ingressId <= INT64_MAX && n.egressId <= INT64_MAX
    && n.timestamp <= INT64_MAX && n.timestampSub <= INT64_MAX
  }

  predicate IsDigits(d: string)
  {
    forall i :: 0 <= i < |d| ==> '0' <= d[i] <= '9'
  }

  /** A name the path codec reads back as it is. */
  predicate IsName(f: string)
  {
    f != [] && NoBrackets(f) && '/' !in f
  }

  lemma IdKeyWF(d: string)
    requires IsDigits(d)
    ensures KeyWF(("id", d))
  {
    assert "id"[0] == 'i' && "id"[1] == 'd';
  }

  lemma IdElemRender(name: string, d: string)
    ensures RenderElem(name, [("id", d)]) == name + "[id=" + d + "]"
  {
    var kvs := [("id", d)];
    assert kvs[1..] == [];
    assert RenderKeys(kvs) == RenderKey(("id", d)) + "";
    assert RenderKey(("id", d)) == "[" + "id" + "=" + d + "]";
    assert "[" + "id" + "=" == "[id=";
  }

  lemma KeyMapId(d: string)
    ensures KeyMap([("id", d)], map[]) == map["id" := d]
  {
    assert [("id", d)][1..] == [];
  }

  lemma NamesWF()
    ensures IsName("ioam") && IsName("Node")
  {
    assert "ioam"[0] == 'i' && "ioam"[1] == 'o' && "ioam"[2] == 'a' && "ioam"[3] == 'm';
    assert "Node"[0] == 'N' && "Node"[1] == 'o' && "Node"[2] == 'd' && "Node"[3] == 'e';
  }

  function NamespaceSpec(d: string, f: string): seq<ElemSpec>
  {
    [ElemSpec("ioam", [("id", d)]), ElemSpec(f, [])]
  }

  function NodeSpec(d: string, e: string, f: string): seq<ElemSpec>
  {
    [ElemSpec("ioam", [("id", d)]), ElemSpec("Node", [("id", e)]), ElemSpec(f, [])]
  }

  /** `/ioam[id=d]/f` is written from two elements. */
  lemma NamespaceRender(d: string, f: string)
    ensures "/ioam[id=" + d + "]" + "/" + f == RenderPath(NamespaceSpec(d, f))
  {
    var es := NamespaceSpec(d, f);
    var a := "ioam[id=" + d + "]";
    IdElemRender("ioam", d);
    assert RenderElem(f, []) == f + "";
    var segs := RenderSegments(es);
    assert segs[0] == a && segs[1] == f;
    assert segs == [a, f];
    assert Join(segs) == a + "/" + f by {
      assert segs[1..] == [f];
    }
    var x := "/ioam[id=" + d + "]";
    assert x == "/" + a by { assert "/ioam[id=" == "/" + "ioam[id="; }
    assert x + "/" + f == "/" + (a + "/" + f);
  }

  /** `/ioam[id=d]/Node[id=e]/f` is written from three elements. */
  lemma NodeRender(d: string, e: string, f: string)
    ensures "/ioam[id=" + d + "]" + "/Node[id=" + e + "]" + "/" + f == RenderPath(NodeSpec(d, e, f))
  {
    var a := "ioam[id=" + d + "]";
    var b := "Node[id=" + e + "]";
    NodeSegments(d, e, f);
    JoinThree(a, b, f);
    var x := "/ioam[id=" + d + "]";
    var y := "/Node[id=" + e + "]";
    assert x == "/" + a by { assert "/ioam[id=" == "/" + "ioam[id="; }
    assert y == "/" + b by { assert "/Node[id=" == "/" + "Node[id="; }
    SlashConcat(x, y, f, a, b);
  }

  lemma NodeSegments(d: string, e: string, f: string)
    ensures RenderSegments(NodeSpec(d, e, f)) == ["ioam[id=" + d + "]", "Node[id=" + e + "]", f]
  {
    IdElemRender("ioam", d);
    IdElemRender("Node", e);
    assert RenderElem(f, []) == f + "";
    var segs := RenderSegments(NodeSpec(d, e, f));
    assert segs[0] == "ioam[id=" + d + "]" && segs[1] == "Node[id=" + e + "]" && segs[2] == f;
  }

  lemma JoinThree(a: string, b: string, f: string)
    ensures Join([a, b, f]) == a + "/" + (b + "/" + f)
  {
    assert [a, b, f][1..] == [b, f];
    assert [b, f][1..] == [f];
    assert Join([b, f]) == b + "/" + f;
  }

  lemma SlashConcat(x: string, y: string, f: string, a: string, b: string)
    requires x == "/" + a && y == "/" + b
    ensures x + y + "/" + f == "/" + (a + "/" + (b + "/" + f))
  {
  }

  lemma NamespaceSpecWF(d: string, f: string)
    requires IsDigits(d) && IsName(f)
    ensures forall i :: 0 <= i < |NamespaceSpec(d, f)| ==> ElemSpecWF(NamespaceSpec(d, f)[i])
  {
    var es := NamespaceSpec(d, f);
    IdKeyWF(d);
    NamesWF();
    assert ElemSpecWF(es[0]) && ElemSpecWF(es[1]);
  }

  lemma NodeSpecWF(d: string, e: string, f: string)
    requires IsDigits(d) && IsDigits(e) && IsName(f)
    ensures forall i :: 0 <= i < |NodeSpec(d, e, f)| ==> ElemSpecWF(NodeSpec(d, e, f)[i])
  {
    var es := NodeSpec(d, e, f);
    IdKeyWF(d);
    IdKeyWF(e);
    NamesWF();
    assert ElemSpecWF(es[0]) && ElemSpecWF(es[1]) && ElemSpecWF(es[2]);
  }

  /** The two-element path reads back as its elements. */
  lemma NamespaceParse(d: string, f: string)
    requires IsDigits(d) && IsName(f)
    ensures PathFromString(RenderPath(NamespaceSpec(d, f)))
      == Some([PathElem("ioam", map["id" := d]), PathElem(f, map[])])
  {
    var es := NamespaceSpec(d, f);
    NamespaceSpecWF(d, f);
    PathFromStringRoundTrip(es);
    KeyMapId(d);
    var r := PathFromString(RenderPath(es)).value;
    assert r[0] == PathElem("ioam", map["id" := d]) && r[1] == PathElem(f, map[]);
    assert r == [PathElem("ioam", map["id" := d]), PathElem(f, map[])];
  }

  /** The three-element path reads back as its elements. */
  lemma NodeParse(d: string, e: string, f: string)
    requires IsDigits(d) && IsDigits(e) && IsName(f)
    ensures PathFromString(RenderPath(NodeSpec(d, e, f)))
      == Some([PathElem("ioam", map["id" := d]), PathElem("Node", map["id" := e]), PathElem(f, map[])])
  {
    var es := NodeSpec(d, e, f);
    NodeSpecWF(d, e, f);
    PathFromStringRoundTrip(es);
    KeyMapId(d);
    KeyMapId(e);
    var r := PathFromString(RenderPath(es)).value;
    assert r[0] == PathElem("ioam", map["id" := d]) && r[1] == PathElem("Node", map["id" := e]);
    assert r[2] == PathElem(f, map[]);
    assert r == [PathElem("ioam", map["id" := d]), PathElem("Node", map["id" := e]), PathElem(f, map[])];
  }

  lemma FieldNameWF(j: nat)
    requires j < 6
    ensures IsName(FieldName(j))
  {
    if j == 0 {
      assert IsName("BitField");
    } else if j == 1 {
      assert IsName("HopLimit");
    } else if j == 2 {
      assert IsName("IngressId");
    } else if j == 3 {
      assert IsName("EgressId");
    } else if j == 4 {
      assert IsName("Timestamp");
    } else {
      assert IsName("TimestampSub");
    }
  }

  /** Each triple's path is its prefix, a `/` and the field's name. */
  lemma TriplePathString(t: ExportTrace, n: ExportNode, j: nat)
    requires t.nodes != [] && j < 6
    ensures NodeTriples(t, n)[j].path == (if j == 0 then NamespacePrefix(t) else NodePrefix(t)) + "/" + FieldName(j)
  {
    var ts := NodeTriples(t, n);
    if j == 0 {
      assert "/BitField" == "/" + "BitField";
    } else if j == 1 {
      assert "/HopLimit" == "/" + "HopLimit";
    } else if j == 2 {
      assert "/IngressId" == "/" + "IngressId";
    } else if j == 3 {
      assert "/EgressId" == "/" + "EgressId";
    } else if j == 4 {
      assert "/Timestamp" == "/" + "Timestamp";
    } else {
      assert "/TimestampSub" == "/" + "TimestampSub";
    }
  }

  /** Each triple's path reads back as its field's elements. */
  lemma TriplePath(t: ExportTrace, n: ExportNode, j: nat)
    requires t.nodes != [] && j < 6
    ensures PathFromString(NodeTriples(t, n)[j].path) == Some(RecordElems(t, j))
  {
    var d := Decimal(t.namespaceId);
    var f := FieldName(j);
    FieldNameWF(j);
    TriplePathString(t, n, j);
    if j == 0 {
      NamespaceRender(d, f);
      NamespaceParse(d, f);
    } else {
      NodeRender(d, Decimal(t.nodes[0].id), f);
      NodeParse(d, Decimal(t.nodes[0].id), f);
    }
  }

  /** A record's triple of field `j` becomes an update at that field's path
      holding the field's value. */
  lemma TripleUpdate(t: ExportTrace, n: ExportNode, j: nat)
    requires t.nodes != [] && j < 6 && t.bitField <= INT64_MAX && NodeFits(n)
    ensures UpdateOf(NodeTriples(t, n)[j]) == Some(Update(RecordElems(t, j), IntVal(FieldValue(t, n, j))))
  {
    var tr := NodeTriples(t, n)[j];
    TriplePath(t, n, j);
    TripleValue(t, n, j);
    assert Dispatch(tr.value, tr.kind) == Some(IntVal(FieldValue(t, n, j)));
  }

  /** Each triple holds its field's value as an int. */
  lemma TripleValue(t: ExportTrace, n: ExportNode, j: nat)
    requires t.nodes != [] && j < 6
    ensures NodeTriples(t, n)[j].value == DInt(FieldValue(t, n, j)) && NodeTriples(t, n)[j].kind == IntKind
  {
  }

  /** The update at `6 * k + j` of a record, when it converts. */
  predicate RecordUpdate(t: ExportTrace, ups: seq<Update>, k: nat, j: nat)
    requires t.nodes != [] && k < |t.nodes| && j < 6 && |ups| == 6 * |t.nodes|
  {
    ups[6 * k + j] == Update(RecordElems(t, j), IntVal(FieldValue(t, t.nodes[k], j)))
  }

  /** A record whose values fit int64 converts completely: six updates per
      node in node order, each at its field's path with its field's value. */
  lemma RecordUpdates(t: ExportTrace)
    requires t.nodes != [] && TraceFits(t)
    ensures var u := UpdatesOf(TriplesOf(t, t.nodes));
      u.Some? && |u.value| == 6 * |t.nodes|
      && forall k, j :: 0 <= k < |t.nodes| && 0 <= j < 6 ==> RecordUpdate(t, u.value, k, j)
  {
    var ts := TriplesOf(t, t.nodes);
    forall i | 0 <= i < |ts| ensures UpdateOf(ts[i]).Some? {
      TripleUpdateAt(t, i / 6, i % 6);
    }
    UpdatesOfEach(ts);
    var u := UpdatesOf(ts).value;
    forall k, j | 0 <= k < |t.nodes| && 0 <= j < 6 ensures RecordUpdate(t, u, k, j) {
      TripleUpdateAt(t, k, j);
    }
  }

  /** The triple at `6 * k + j` converts to the update of field `j` of node `k`. */
  lemma TripleUpdateAt(t: ExportTrace, k: nat, j: nat)
    requires t.nodes != [] && TraceFits(t) && k < |t.nodes| && j < 6
    ensures 6 * k + j < |TriplesOf(t, t.nodes)|
    ensures UpdateOf(TriplesOf(t, t.nodes)[6 * k + j])
      == Some(Update(RecordElems(t, j), IntVal(FieldValue(t, t.nodes[k], j))))
  {
    var ts := TriplesOf(t, t.nodes);
    TriplesAt(t, t.nodes, k);
    assert ts[6 * k + j] == ts[6 * k .. 6 * k + 6][j];
    assert NodeFits(t.nodes[k]);
    TripleUpdate(t, t.nodes[k], j);
  }

  /** The ON_CHANGE response of such a record holds all its updates. */
  lemma RecordResponse(t: ExportTrace, now: nat)
    requires t.nodes != [] && TraceFits(t)
    ensures var r := ResponseOf(ParseIoamRecord(t), now);
      r.Some? && r.value.Notification? && r.value.timestamp == now
      && r.value.updates == UpdatesOf(TriplesOf(t, t.nodes)).value
      && |r.value.updates| == 6 * |t.nodes|
  {
    RecordUpdates(t);
  }

  /** Every triple of a record that fits int64 converts to an update. */
  lemma RecordConverts(t: ExportTrace)
    requires t.nodes != [] && TraceFits(t)
    ensures forall p :: 0 <= p < |TriplesOf(t, t.nodes)| ==> UpdateOf(TriplesOf(t, t.nodes)[p]).Some?
  {
    var head := TriplesOf(t, t.nodes);
    forall p | 0 <= p < |head| ensures UpdateOf(head[p]).Some? {
      TripleUpdateAt(t, p / 6, p % 6);
      assert head[p] == head[6 * (p / 6) + p % 6];
    }
  }

  /** Every triple of a store whose traces fit int64 converts to an update. */
  lemma {:induction false} RecordsConvert(d: seq<(Key, ExportTrace)>)
    requires AllHaveNodes(d) && forall i :: 0 <= i < |d| ==> TraceFits(d[i].1)
    ensures forall p :: 0 <= p < |RecordsOf(d).value| ==> UpdateOf(RecordsOf(d).value[p]).Some?
    decreases |d|
  {
    if d != [] {
      var t := d[0].1;
      var head := TriplesOf(t, t.nodes);
      var rest := d[1..];
      assert AllHaveNodes(rest) && forall i :: 0 <= i < |rest| ==> TraceFits(rest[i].1) by {
        forall i | 0 <= i < |rest| ensures rest[i].1.nodes != [] && TraceFits(rest[i].1) {
          assert rest[i] == d[i + 1];
        }
      }
      RecordsConvert(rest);
      RecordConverts(t);
      var tail := RecordsOf(rest).value;
      assert RecordsOf(d).value == head + tail;
      AppendAll(head, tail);
    }
  }

  /** Two sequences whose triples all convert concatenate to one that does. */
  lemma AppendAll(a: seq<Triple>, b: seq<Triple>)
    requires forall p :: 0 <= p < |a| ==> UpdateOf(a[p]).Some?
    requires forall p :: 0 <= p < |b| ==> UpdateOf(b[p]).Some?
    ensures forall p :: 0 <= p < |a + b| ==> UpdateOf((a + b)[p]).Some?
  {
    forall p | 0 <= p < |a + b| ensures UpdateOf((a + b)[p]).Some? {
      if p >= |a| { assert (a + b)[p] == b[p - |a|]; }
    }
  }

  /** Entry `i`'s updates are the six per node of its record, from
      `Start(d, i)` on. */
  predicate EntryUpdates(ups: seq<Update>, d: seq<(Key, ExportTrace)>, i: nat)
    requires i < |d| && d[i].1.nodes != []
  {
    Start(d, i) <= Start(d, i + 1) <= |ups|
    && Start(d, i + 1) - Start(d, i) == 6 * |d[i].1.nodes|
    && var part := ups[Start(d, i) .. Start(d, i + 1)];
      forall k, j :: 0 <= k < |d[i].1.nodes| && 0 <= j < 6 ==> RecordUpdate(d[i].1, part, k, j)
  }

  /** The SAMPLE response to a root subscription over a store whose traces
      fit int64: a notification stamped `now`, six updates per stored node,
      and each entry's record updates in insertion order. */
  lemma StoreResponse(e: Exporter, paths: seq<string>, now: nat)
    requires e.Valid() && "/" in paths
    requires forall i :: 0 <= i < |e.data| ==> TraceFits(e.data[i].1)
    ensures var r := ResponseOf(e.IterateData(paths), now);
      r.Some? && r.value.Notification? && r.value.timestamp == now
      && |r.value.updates| == 6 * NodeCount(e.data)
      && forall i :: 0 <= i < |e.data| ==> EntryUpdates(r.value.updates, e.data, i)
  {
    var d := e.data;
    RecordsOfLayout(d);
    var ts := RecordsOf(d).value;
    RecordsConvert(d);
    UpdatesOfEach(ts);
    var ups := UpdatesOf(ts).value;
    forall i | 0 <= i < |d| ensures EntryUpdates(ups, d, i) {
      EntryConverts(d, ts, ups, i);
    }
  }

  lemma EntryConverts(d: seq<(Key, ExportTrace)>, ts: seq<Triple>, ups: seq<Update>, i: nat)
    requires StoreWF(d) && i < |d| && TraceFits(d[i].1)
    requires RecordAt(ts, d, i) && |ups| == |ts|
    requires forall p :: 0 <= p < |ts| ==> Some(ups[p]) == UpdateOf(ts[p])
    ensures EntryUpdates(ups, d, i)
  {
    var t := d[i].1;
    var lo, hi := Start(d, i), Start(d, i + 1);
    var seg, part := ts[lo .. hi], ups[lo .. hi];
    assert seg == TriplesOf(t, t.nodes) && hi - lo == 6 * |t.nodes|;
    forall q | 0 <= q < |seg| ensures Some(part[q]) == UpdateOf(seg[q]) {
      assert part[q] == ups[lo + q] && seg[q] == ts[lo + q];
    }
    SegmentUpdates(t, seg, part);
  }

  /** The updates converted from a record's triples are its record updates. */
  lemma SegmentUpdates(t: ExportTrace, seg: seq<Triple>, part: seq<Update>)
    requires t.nodes != [] && TraceFits(t) && seg == TriplesOf(t, t.nodes) && |part| == |seg|
    requires forall q :: 0 <= q < |seg| ==> Some(part[q]) == UpdateOf(seg[q])
    ensures |part| == 6 * |t.nodes|
    ensures forall k, j :: 0 <= k < |t.nodes| && 0 <= j < 6 ==> RecordUpdate(t, part, k, j)
  {
    forall k, j | 0 <= k < |t.nodes| && 0 <= j < 6 ensures RecordUpdate(t, part, k, j) {
      TripleUpdateAt(t, k, j);
    }
  }

  class Servicer {
    var onChange: bool
    const exporter: Exporter

    constructor(exporter: Exporter)
      ensures this.exporter == exporter && !onChange
    {
      this.exporter := exporter;
      onChange := false;
    }

    /** `_validate_subscriptions`: the subscriptions' path strings and the
        first interval; any ON_CHANGE subscription read before a failure
        sets the flag, which is never cleared here. */
    method ValidateSubscriptions(req: Request) returns (r: Option<(seq<string>, nat)>)
      modifies this
      ensures r == Validated(req)
      ensures var subs := SubscriptionsOf(req);
        onChange == (old(onChange) || AnyOnChange(subs[..FirstBad(subs)]))
    {
      var subs := SubscriptionsOf(req);
      if subs == [] {
        assert subs[..FirstBad(subs)] == [];
        return None;
      }
      var paths: seq<string> := [];
      var intervals: seq<nat> := [];
      var i := 0;
      while i < |subs|
        invariant 0 <= i <= |subs| && i <= FirstBad(subs)
        invariant paths == PathsOf(subs[..i])
        invariant |intervals| == i && (i > 0 ==> intervals[0] == IntervalOf(subs[0]))
        invariant onChange == (old(onChange) || AnyOnChange(subs[..i]))
      {
        var s := subs[i];
        if s.names == [] {
          assert FirstBad(subs) == i;
          return None;
        }
        var path := "";
        var j := 0;
        while j < |s.names|
          invariant 0 <= j <= |s.names|
          invariant path == PathString(s.names[..j])
        {
          assert s.names[..j + 1][..j] == s.names[..j];
          path := path + ElemString(s.names[j]);
          j := j + 1;
        }
        assert s.names[..j] == s.names;
        assert subs[..i + 1][..i] == subs[..i];
        paths := paths + [path];
        match s.mode {
          case OnChange =>
            onChange := true;
            intervals := intervals + [0];
          case Sample =>
            if s.sampleInterval == 0 {
              assert FirstBad(subs) == i;
              return None;
            }
            intervals := intervals + [s.sampleInterval];
          case TargetDefined =>
            assert FirstBad(subs) == i;
            return None;
        }
        i := i + 1;
      }
      assert subs[..i] == subs;
      r := Some((paths, intervals[0]));
    }

    /** `_subscribeResponse`: the response starts as the sync flag, but the
        updates of the stored records and the timestamp are written into the
        `update` member of the same oneof, so what is sent is a notification
        and never the sync flag, even for an empty store. */
    method SubscribeResponse(paths: seq<string>, now: nat) returns (r: Option<Response>)
      requires exporter.Valid()
      ensures r == ResponseOf(exporter.IterateData(paths), now)
      ensures r.Some? ==> r.value.Notification? && r.value.timestamp == now
      ensures "/" !in paths ==> r == Some(Notification([], now))
    {
      var response := SyncResponse;
      var ts := exporter.IterateData(paths);
      var ups := BuildUpdates(ts.value);
      if ups.None? {
        return None;
      }
      response := Notification(ups.value, now);
      r := Some(response);
    }

    /** `_subscribeResponse_onChange`: a response holding the updates of one
        queued trace. */
    method SubscribeResponseOnChange(trace: ExportTrace, now: nat) returns (r: Option<Response>)
      ensures r == ResponseOf(ParseIoamRecord(trace), now)
      ensures r.Some? ==> r.value.Notification? && r.value.timestamp == now
    {
      var ts := ParseIoamRecord(trace);
      if ts.None? {
        return None;
      }
      var ups := BuildUpdates(ts.value);
      if ups.None? {
        return None;
      }
      r := Some(Notification(ups.value, now));
    }
  }
}
