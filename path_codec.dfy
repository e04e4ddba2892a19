/** gNMI paths in their string form (`/ioam[id=123]/Node[id=1]/HopLimit`):
    the bracket-aware split into segments, and each segment's name and keys
    (section 2.2.2 of the gNMI Path Conventions). */
module PathCodec {
  import opened Common

  // ----- The split -----

  /** Where a left-to-right scan of a suffix stands: outside any group, just
      after a `[`, or inside a group that already holds a character. */
  datatype Scan = Outside | Opened | Inside

  /** The rest of a string, from state `st`, consists of characters other than
      brackets and of complete, non-empty, non-nested `[...]` groups. */
  predicate CleanFrom(s: string, st: Scan)
    decreases |s|
  {
    if s == [] then st == Outside
    else match st
      case Outside =>
        if s[0] == '[' then CleanFrom(s[1..], Opened)
        else s[0] != ']' && CleanFrom(s[1..], Outside)
      case Opened =>
        s[0] != '[' && s[0] != ']' && CleanFrom(s[1..], Inside)
      case Inside =>
        if s[0] == ']' then CleanFrom(s[1..], Outside)
        else s[0] != '[' && CleanFrom(s[1..], Inside)
  }

  /** The lookahead of the split pattern: a `/` splits exactly when what
      follows it is clean. */
  predicate Clean(s: string)
  {
    CleanFrom(s, Outside)
  }

  predicate NoBrackets(s: string)
  {
    forall i :: 0 <= i < |s| ==> s[i] != '[' && s[i] != ']'
  }

  /** The pieces of `cur + s` between the splitting slashes, where `cur` is
      the piece read so far and `s` the rest of the string. */
  function SplitFrom(s: string, cur: string): (r: seq<string>)
    ensures |r| >= 1
    decreases |s|
  {
    if s == [] then [cur]
    else if s[0] == '/' && Clean(s[1..]) then [cur] + SplitFrom(s[1..], "")
    else SplitFrom(s[1..], cur + [s[0]])
  }

  /** `re.split` on a slash followed by a clean suffix. */
  function Split(s: string): (r: seq<string>)
    ensures |r| >= 1
  {
    SplitFrom(s, "")
  }

  /** The pieces put back together with a `/` between neighbours. */
  function Join(parts: seq<string>): string
    requires |parts| >= 1
  {
    if |parts| == 1 then parts[0] else parts[0] + "/" + Join(parts[1..])
  }

  /** Splitting loses nothing: joining the pieces gives the string back. */
  lemma {:induction false} SplitFromJoin(s: string, cur: string)
    ensures Join(SplitFrom(s, cur)) == cur + s
    decreases |s|
  {
    if s != [] {
      if s[0] == '/' && Clean(s[1..]) {
        SplitFromJoin(s[1..], "");
        assert "" + s[1..] == s[1..];
        assert cur + "/" + s[1..] == cur + s;
      } else {
        SplitFromJoin(s[1..], cur + [s[0]]);
        assert cur + [s[0]] + s[1..] == cur + s;
      }
    } else {
      assert cur + s == cur;
    }
  }

  lemma SplitJoin(s: string)
    ensures Join(Split(s)) == s
  {
    SplitFromJoin(s, "");
  }

  /** A string without brackets followed by `]` is never clean. */
  lemma {:induction false} NotCleanBeforeClose(g: string, y: string)
    requires NoBrackets(g)
    ensures !Clean(g + "]" + y)
    decreases |g|
  {
    if g != [] {
      assert (g + "]" + y)[1..] == g[1..] + "]" + y;
      NotCleanBeforeClose(g[1..], y);
    }
  }

  /** A slash inside a bracket group never splits: it stays in its piece. */
  lemma SlashInGroupKept(g: string, y: string, cur: string)
    requires NoBrackets(g)
    ensures SplitFrom("/" + g + "]" + y, cur) == SplitFrom(g + "]" + y, cur + "/")
  {
    NotCleanBeforeClose(g, y);
    assert ("/" + g + "]" + y)[1..] == g + "]" + y;
  }

  /** A final slash always splits, leaving an empty last piece. */
  lemma {:induction false} SplitFromLast(s: string, cur: string)
    requires s != [] && s[|s| - 1] == '/'
    ensures var r := SplitFrom(s, cur); |r| >= 2 && r[|r| - 1] == ""
    decreases |s|
  {
    if |s| > 1 {
      assert s[1..][|s[1..]| - 1] == '/';
      if s[0] == '/' && Clean(s[1..]) {
        SplitFromLast(s[1..], "");
      } else {
        SplitFromLast(s[1..], cur + [s[0]]);
      }
    } else {
      assert s[1..] == [] && Clean(s[1..]);
    }
  }

  /** `list_from_path`: the split, without the piece before a leading `/`
      and the piece after a trailing `/`; the empty path has no segments. */
  function ListFromPath(path: string): (r: seq<string>)
    ensures |r| <= |Split(path)|
  {
    if path == [] then []
    else
      var parts := Split(path);
      if path[0] == '/' then
        if path[|path| - 1] == '/' then (if |parts| >= 2 then parts[1..|parts| - 1] else [])
        else parts[1..]
      else if path[|path| - 1] == '/' then parts[..|parts| - 1]
      else parts
  }

  /** The empty path and the root path have no segments. */
  lemma ListFromPathRoot()
    ensures ListFromPath("") == [] && ListFromPath("/") == []
  {
    assert Split("/") == [""] + SplitFrom("", "");
  }

  /** The segments of an absolute path whose first slash splits: those of
      the rest of it, without the empty piece after a trailing `/`. */
  lemma AbsoluteList(path: string)
    requires |path| >= 2 && path[0] == '/' && Clean(path[1..])
    ensures var rest := Split(path[1..]);
      path[|path| - 1] != '/' ==> ListFromPath(path) == rest
    ensures var rest := Split(path[1..]);
      path[|path| - 1] == '/' ==> |rest| >= 2 && rest[|rest| - 1] == "" && ListFromPath(path) == rest[..|rest| - 1]
  {
    var tail := path[1..];
    var rest := Split(tail);
    var parts := [""] + rest;
    assert Split(path) == parts;
    if path[|path| - 1] == '/' {
      assert tail[|tail| - 1] == '/';
      SplitFromLast(tail, "");
      assert parts[1..|parts| - 1] == rest[..|rest| - 1];
    } else {
      assert parts[1..] == rest;
    }
  }

  /** An absolute path whose first slash splits is `/` followed by its
      segments joined with `/`, the trailing `/` (if any) after them. */
  lemma AbsolutePathJoin(path: string)
    requires |path| >= 2 && path[0] == '/' && Clean(path[1..])
    ensures ListFromPath(path) != []
    ensures path[|path| - 1] != '/' ==> "/" + Join(ListFromPath(path)) == path
    ensures path[|path| - 1] == '/' ==> "/" + Join(ListFromPath(path)) + "/" == path
  {
    var tail := path[1..];
    var rest := Split(tail);
    AbsoluteList(path);
    SplitJoin(tail);
    assert "/" + tail == path;
    if path[|path| - 1] == '/' {
      JoinDropLast(rest);
    }
  }

  /** Joining all pieces but an empty last one leaves the final `/` out. */
  lemma {:induction false} JoinDropLast(parts: seq<string>)
    requires |parts| >= 2 && parts[|parts| - 1] == ""
    ensures Join(parts[..|parts| - 1]) + "/" == Join(parts)
    decreases |parts|
  {
    if |parts| > 2 {
      JoinDropLast(parts[1..]);
      assert parts[1..][..|parts[1..]| - 1] == parts[..|parts| - 1][1..];
    } else {
      assert Join(parts) == parts[0] + "/" + "";
    }
  }

  // ----- One segment -----

  /** The text before the first `c`, all of `s` when there is none
      (`s.split(c, 1)[0]`). */
  function Before(s: string, c: char): (r: string)
    ensures |r| <= |s| && r == s[..|r|] && c !in r
    ensures |r| < |s| ==> s[|r|] == c
  {
    if s == [] || s[0] == c then [] else [s[0]] + Before(s[1..], c)
  }

  /** `s.split(c, 1)` when it has two parts: the text around the first `c`. */
  function SplitOnce(s: string, c: char): (r: Option<(string, string)>)
    ensures r.None? <==> c !in s
    ensures r.Some? ==> r.value.0 + [c] + r.value.1 == s && c !in r.value.0
  {
    var head := Before(s, c);
    if |head| == |s| then None
    else
      assert s == head + [c] + s[|head| + 1..];
      Some((head, s[|head| + 1..]))
  }

  /** Where the non-greedy `(.*?)\]` after a `[` ends: the first `]`, unless
      a newline (which `.` does not match) comes before it. */
  function GroupEnd(s: string): (r: Option<nat>)
    ensures r.Some? ==> r.value < |s| && s[r.value] == ']'
    ensures r.Some? ==> forall i :: 0 <= i < r.value ==> s[i] != ']' && s[i] != '\n'
    ensures r.None? ==> forall i :: 0 <= i < |s| && s[i] == ']' ==> '\n' in s[..i]
  {
    if s == [] || s[0] == '\n' then None
    else if s[0] == ']' then Some(0)
    else
      var e := GroupEnd(s[1..]);
      if e.None? then
        assert forall i :: 1 <= i < |s| && s[i] == ']' ==> '\n' in s[1..][..i - 1] by {
          forall i | 1 <= i < |s| && s[i] == ']' ensures '\n' in s[1..][..i - 1] {
            assert s[1..][i - 1] == ']';
          }
        }
        assert forall i :: 1 <= i < |s| ==> s[1..][..i - 1] == s[1..i];
        None
      else Some(e.value + 1)
  }

  /** `re.findall(r'\[(.*?)\]', s)`: the texts of the bracket groups, left to
      right; a `[` whose group does not close is passed over. */
  function FindAll(s: string): seq<string>
    decreases |s|
  {
    if s == [] then []
    else if s[0] == '[' && GroupEnd(s[1..]).Some? then
      var j := GroupEnd(s[1..]).value;
      [s[1..j + 1]] + FindAll(s[j + 2..])
    else FindAll(s[1..])
  }

  /** A path element: its name and its keys. */
  datatype PathElem = PathElem(name: string, keys: map<string, string>)

  /** `dict(x.split('=', 1) for x in groups)` on top of `acc`: each group gives
      a key (before its first `=`) and a value (the rest), later groups
      overwriting earlier ones; a group without `=` fails. */
  function KeysFrom(groups: seq<string>, acc: map<string, string>): (r: Option<map<string, string>>)
    ensures r.Some? <==> forall i :: 0 <= i < |groups| ==> '=' in groups[i]
    decreases |groups|
  {
    if groups == [] then Some(acc)
    else
      var kv := SplitOnce(groups[0], '=');
      if kv.None? then None
      else
        var r := KeysFrom(groups[1..], acc[kv.value.0 := kv.value.1]);
        assert forall i :: 1 <= i < |groups| ==> groups[i] == groups[1..][i - 1];
        r
  }

  /** A segment's element: the name before the first `[`, the keys of its
      bracket groups. */
  function ElemFromString(e: string): (r: Option<PathElem>)
    ensures r.Some? ==> r.value.name == Before(e, '[') && '[' !in r.value.name
  {
    var keys := KeysFrom(FindAll(e), map[]);
    if keys.None? then None else Some(PathElem(Before(e, '['), keys.value))
  }

  /** The elements of all segments, in order; one malformed segment fails all. */
  function ElemsFrom(segments: seq<string>): (r: Option<seq<PathElem>>)
    ensures r.Some? <==> forall i :: 0 <= i < |segments| ==> ElemFromString(segments[i]).Some?
    ensures r.Some? ==> |r.value| == |segments|
    ensures r.Some? ==> forall i :: 0 <= i < |segments| ==> r.value[i] == ElemFromString(segments[i]).value
  {
    if segments == [] then Some([])
    else
      var head := ElemFromString(segments[0]);
      var tail := ElemsFrom(segments[1..]);
      assert forall i :: 1 <= i < |segments| ==> segments[i] == segments[1..][i - 1];
      if head.None? || tail.None? then None
      else Some([head.value] + tail.value)
  }

  /** `path_from_string`: one element per segment of `list_from_path`. */
  function PathFromString(path: string): Option<seq<PathElem>>
  {
    ElemsFrom(ListFromPath(path))
  }

  // ----- Properties of the segment codec -----

  /** Duplicate keys: the last group wins. */
  lemma {:induction false} KeysLastWins(groups: seq<string>, k: string, v: string, acc: map<string, string>)
    requires '=' !in k
    ensures KeysFrom(groups + [k + "=" + v], acc).Some? <==> KeysFrom(groups, acc).Some?
    ensures KeysFrom(groups, acc).Some? ==>
      KeysFrom(groups + [k + "=" + v], acc) == Some(KeysFrom(groups, acc).value[k := v])
    decreases |groups|
  {
    var last := k + "=" + v;
    assert SplitOnce(last, '=') == Some((k, v)) by {
      assert Before(last, '=') == k by { BeforeOf(k, '=', v); }
      assert last[|k| + 1..] == v;
    }
    if groups == [] {
      assert [] + [last] == [last];
      assert [last][1..] == groups;
    } else {
      assert (groups + [last])[0] == groups[0];
      assert (groups + [last])[1..] == groups[1..] + [last];
      var kv := SplitOnce(groups[0], '=');
      if kv.Some? {
        KeysLastWins(groups[1..], k, v, acc[kv.value.0 := kv.value.1]);
      }
    }
  }

  /** The text before `c` in `x + [c] + y`, when `x` has no `c`, is `x`. */
  lemma {:induction false} BeforeOf(x: string, c: char, y: string)
    requires c !in x
    ensures Before(x + [c] + y, c) == x
    decreases |x|
  {
    if x != [] {
      assert (x + [c] + y)[1..] == x[1..] + [c] + y;
      BeforeOf(x[1..], c, y);
      assert [x[0]] + x[1..] == x;
    }
  }

  /** The string form of a key group. */
  function RenderKey(kv: (string, string)): string
  {
    "[" + kv.0 + "=" + kv.1 + "]"
  }

  function RenderKeys(kvs: seq<(string, string)>): string
  {
    if kvs == [] then "" else RenderKey(kvs[0]) + RenderKeys(kvs[1..])
  }

  /** The texts inside the rendered groups. */
  function Groups(kvs: seq<(string, string)>): (r: seq<string>)
    ensures |r| == |kvs|
  {
    if kvs == [] then [] else [kvs[0].0 + "=" + kvs[0].1] + Groups(kvs[1..])
  }

  /** A key and a value that survive the round trip: the key holds no `=`,
      and neither holds a bracket or a newline. */
  predicate KeyWF(kv: (string, string))
  {
    '=' !in kv.0 && NoBrackets(kv.0) && '\n' !in kv.0 && NoBrackets(kv.1) && '\n' !in kv.1
  }

  /** The keys as `dict` builds them from the pairs, in order. */
  function KeyMap(kvs: seq<(string, string)>, acc: map<string, string>): map<string, string>
  {
    if kvs == [] then acc else KeyMap(kvs[1..], acc[kvs[0].0 := kvs[0].1])
  }

  /** A group body without `]` or newline ends at the `]` after it. */
  lemma {:induction false} GroupEndOf(body: string, rest: string)
    requires ']' !in body && '\n' !in body
    ensures GroupEnd(body + "]" + rest) == Some(|body|)
    decreases |body|
  {
    if body != [] {
      assert (body + "]" + rest)[1..] == body[1..] + "]" + rest;
      GroupEndOf(body[1..], rest);
    }
  }

  /** The groups found in rendered keys are the rendered pairs. */
  lemma {:induction false} FindAllRenderKeys(kvs: seq<(string, string)>)
    requires forall i :: 0 <= i < |kvs| ==> KeyWF(kvs[i])
    ensures FindAll(RenderKeys(kvs)) == Groups(kvs)
    decreases |kvs|
  {
    if kvs != [] {
      var kv := kvs[0];
      assert KeyWF(kv);
      var body := kv.0 + "=" + kv.1;
      var rest := RenderKeys(kvs[1..]);
      var s := RenderKeys(kvs);
      assert ']' !in body && '\n' !in body by {
        assert forall i :: 0 <= i < |body| ==> body[i] == (if i < |kv.0| then kv.0[i] else if i == |kv.0| then '=' else kv.1[i - |kv.0| - 1]);
      }
      assert s == "[" + body + "]" + rest;
      assert s[1..] == body + "]" + rest;
      GroupEndOf(body, rest);
      assert s[1..|body| + 1] == body;
      assert s[|body| + 2..] == rest;
      assert FindAll(s) == [body] + FindAll(rest);
      assert Groups(kvs) == [body] + Groups(kvs[1..]);
      assert forall i :: 0 <= i < |kvs[1..]| ==> kvs[1..][i] == kvs[i + 1];
      FindAllRenderKeys(kvs[1..]);
    }
  }

  /** Reading the rendered groups gives the keys `dict` would build from them. */
  lemma {:induction false} KeysFromRendered(kvs: seq<(string, string)>, acc: map<string, string>)
    requires forall i :: 0 <= i < |kvs| ==> KeyWF(kvs[i])
    ensures KeysFrom(Groups(kvs), acc) == Some(KeyMap(kvs, acc))
    decreases |kvs|
  {
    if kvs != [] {
      var kv := kvs[0];
      assert KeyWF(kv);
      var g := kv.0 + "=" + kv.1;
      BeforeOf(kv.0, '=', kv.1);
      assert SplitOnce(g, '=') == Some((kv.0, kv.1)) by {
        assert g[|kv.0| + 1..] == kv.1;
      }
      assert Groups(kvs)[0] == g && Groups(kvs)[1..] == Groups(kvs[1..]);
      assert forall i :: 0 <= i < |kvs[1..]| ==> kvs[1..][i] == kvs[i + 1];
      KeysFromRendered(kvs[1..], acc[kv.0 := kv.1]);
    }
  }

  /** A name without `[` contributes no group. */
  lemma {:induction false} FindAllSkipsName(name: string, rest: string)
    requires '[' !in name
    ensures FindAll(name + rest) == FindAll(rest)
    decreases |name|
  {
    if name != [] {
      assert (name + rest)[1..] == name[1..] + rest;
      FindAllSkipsName(name[1..], rest);
    } else {
      assert name + rest == rest;
    }
  }

  /** Without `c`, the text before `c` is the whole string. */
  lemma {:induction false} BeforeAll(s: string, c: char)
    requires c !in s
    ensures Before(s, c) == s
    decreases |s|
  {
    if s != [] {
      BeforeAll(s[1..], c);
    }
  }

  /** The string form of an element: its name, then its key groups. */
  function RenderElem(name: string, kvs: seq<(string, string)>): string
  {
    name + RenderKeys(kvs)
  }

  /** The name of a rendered element is the text before its first `[`. */
  lemma BeforeRender(name: string, kvs: seq<(string, string)>)
    requires '[' !in name
    ensures Before(RenderElem(name, kvs), '[') == name
  {
    var e := RenderElem(name, kvs);
    if kvs == [] {
      assert e == name;
      BeforeAll(name, '[');
    } else {
      assert e == name + ['['] + e[|name| + 1..];
      BeforeOf(name, '[', e[|name| + 1..]);
    }
  }

  /** A rendered element reads back: its name, and the keys of its groups
      (the last of equal keys winning). */
  lemma ElemRoundTrip(name: string, kvs: seq<(string, string)>)
    requires '[' !in name
    requires forall i :: 0 <= i < |kvs| ==> KeyWF(kvs[i])
    ensures ElemFromString(RenderElem(name, kvs)) == Some(PathElem(name, KeyMap(kvs, map[])))
  {
    BeforeRender(name, kvs);
    FindAllSkipsName(name, RenderKeys(kvs));
    FindAllRenderKeys(kvs);
    KeysFromRendered(kvs, map[]);
  }

  // ----- Whole paths -----

  /** The rest of a segment from scan state `st`: outside groups no `/` and
      no stray `]`; groups complete, non-empty and free of brackets. */
  predicate SegmentFrom(s: string, st: Scan)
    decreases |s|
  {
    if s == [] then st == Outside
    else match st
      case Outside =>
        if s[0] == '[' then SegmentFrom(s[1..], Opened)
        else s[0] != ']' && s[0] != '/' && SegmentFrom(s[1..], Outside)
      case Opened =>
        s[0] != '[' && s[0] != ']' && SegmentFrom(s[1..], Inside)
      case Inside =>
        if s[0] == ']' then SegmentFrom(s[1..], Outside)
        else s[0] != '[' && SegmentFrom(s[1..], Inside)
  }

  /** A segment the split keeps whole: a `/` may appear only inside a group. */
  predicate SegmentWF(s: string)
  {
    SegmentFrom(s, Outside)
  }

  lemma {:induction false} SegmentClean(s: string, st: Scan, rest: string)
    requires SegmentFrom(s, st) && Clean(rest)
    ensures CleanFrom(s + rest, st)
    decreases |s|
  {
    if s != [] {
      assert (s + rest)[0] == s[0] && (s + rest)[1..] == s[1..] + rest;
      match st
      case Outside => SegmentClean(s[1..], if s[0] == '[' then Opened else Outside, rest);
      case Opened => SegmentClean(s[1..], Inside, rest);
      case Inside => SegmentClean(s[1..], if s[0] == ']' then Outside else Inside, rest);
    } else {
      assert s + rest == rest;
    }
  }

  /** What follows a position inside a group is never clean: the group's
      `]` comes before any `[`. */
  lemma {:induction false} InsideGroupNotClean(s: string, st: Scan, rest: string)
    requires st != Outside && SegmentFrom(s, st)
    ensures !Clean(s + rest)
    decreases |s|
  {
    assert (s + rest)[0] == s[0] && (s + rest)[1..] == s[1..] + rest;
    if s[0] != ']' {
      InsideGroupNotClean(s[1..], Inside, rest);
    }
  }

  /** Splitting the rest of a segment, followed by `/` and a clean string:
      the segment is one piece and the cut falls at that `/`. */
  lemma {:induction false} SplitSegment(s: string, st: Scan, rest: string, cur: string)
    requires SegmentFrom(s, st) && Clean(rest)
    ensures SplitFrom(s + "/" + rest, cur) == [cur + s] + SplitFrom(rest, "")
    decreases |s|
  {
    var w := s + "/" + rest;
    if s == [] {
      assert w[1..] == rest;
      assert cur + s == cur;
    } else {
      assert w[0] == s[0] && w[1..] == s[1..] + "/" + rest;
      var next := match st
        case Outside => if s[0] == '[' then Opened else Outside
        case Opened => Inside
        case Inside => if s[0] == ']' then Outside else Inside;
      if s[0] == '/' {
        InsideGroupNotClean(s[1..], Inside, "/" + rest);
        assert s[1..] + "/" + rest == s[1..] + ("/" + rest);
      }
      SplitSegment(s[1..], next, rest, cur + [s[0]]);
      assert cur + [s[0]] + s[1..] == cur + s;
    }
  }

  /** The last segment is one piece. */
  lemma {:induction false} SplitLastSegment(s: string, st: Scan, cur: string)
    requires SegmentFrom(s, st)
    ensures SplitFrom(s, cur) == [cur + s]
    decreases |s|
  {
    if s == [] {
      assert cur + s == cur;
    } else {
      var next := match st
        case Outside => if s[0] == '[' then Opened else Outside
        case Opened => Inside
        case Inside => if s[0] == ']' then Outside else Inside;
      if s[0] == '/' {
        InsideGroupNotClean(s[1..], Inside, []);
        assert s[1..] + [] == s[1..];
      }
      SplitLastSegment(s[1..], next, cur + [s[0]]);
      assert cur + [s[0]] + s[1..] == cur + s;
    }
  }

  /** Segments joined with `/` split back into the same segments, and what
      they make up is clean. */
  lemma {:induction false} SplitJoinSegments(segs: seq<string>)
    requires |segs| >= 1 && forall i :: 0 <= i < |segs| ==> SegmentWF(segs[i])
    ensures Split(Join(segs)) == segs && Clean(Join(segs))
    decreases |segs|
  {
    if |segs| == 1 {
      OneSegment(segs[0]);
    } else {
      assert forall i :: 0 <= i < |segs[1..]| ==> segs[1..][i] == segs[i + 1];
      SplitJoinSegments(segs[1..]);
      SegmentThenRest(segs[0], Join(segs[1..]));
      assert [segs[0]] + segs[1..] == segs;
    }
  }

  /** A lone segment is one clean piece. */
  lemma OneSegment(s: string)
    requires SegmentWF(s)
    ensures Split(s) == [s] && Clean(s)
  {
    SplitLastSegment(s, Outside, "");
    SegmentClean(s, Outside, []);
    assert s + [] == s;
    assert "" + s == s;
  }

  /** A segment, a `/` and a clean rest split at that `/`. */
  lemma SegmentThenRest(s: string, rest: string)
    requires SegmentWF(s) && Clean(rest)
    ensures Split(s + "/" + rest) == [s] + Split(rest) && Clean(s + "/" + rest)
  {
    SplitSegment(s, Outside, rest, "");
    assert "" + s == s;
    assert Clean("/" + rest) by { assert ("/" + rest)[1..] == rest; }
    SegmentClean(s, Outside, "/" + rest);
    assert s + "/" + rest == s + ("/" + rest);
  }

  /** `list_from_path` undoes writing the segments as an absolute path: a
      `/` inside a group never splits. */
  lemma PathRoundTrip(segs: seq<string>)
    requires |segs| >= 1 && forall i :: 0 <= i < |segs| ==> SegmentWF(segs[i])
    requires segs[|segs| - 1] != ""
    ensures ListFromPath("/" + Join(segs)) == segs
  {
    var j := Join(segs);
    JoinedSegments(segs);
    ListFromAbsolute(j);
  }

  /** Joined segments split back into themselves, are clean, and do not end
      in `/`. */
  lemma JoinedSegments(segs: seq<string>)
    requires |segs| >= 1 && forall i :: 0 <= i < |segs| ==> SegmentWF(segs[i])
    requires segs[|segs| - 1] != ""
    ensures var j := Join(segs); Split(j) == segs && Clean(j) && j != [] && j[|j| - 1] != '/'
  {
    SplitJoinSegments(segs);
    JoinEnds(segs);
    SegmentLast(segs[|segs| - 1], Outside);
  }

  /** An absolute path whose first slash splits and which does not end in
      `/` has the segments of the rest of it. */
  lemma ListFromAbsolute(j: string)
    requires j != [] && j[|j| - 1] != '/' && Clean(j)
    ensures ListFromPath("/" + j) == Split(j)
  {
    var path := "/" + j;
    assert path[1..] == j && path[|path| - 1] == j[|j| - 1];
    AbsoluteList(path);
  }

  /** A joined path ends with the last segment's last character. */
  lemma {:induction false} JoinEnds(segs: seq<string>)
    requires |segs| >= 1 && segs[|segs| - 1] != ""
    ensures var j := Join(segs); var last := segs[|segs| - 1];
      |j| >= |last| > 0 && j[|j| - 1] == last[|last| - 1]
    decreases |segs|
  {
    if |segs| > 1 {
      JoinEnds(segs[1..]);
    }
  }

  /** A segment never ends with a `/`: one outside a group is excluded and
      one inside must be followed by `]`. */
  lemma {:induction false} SegmentLast(s: string, st: Scan)
    requires SegmentFrom(s, st) && s != []
    ensures s[|s| - 1] != '/'
    decreases |s|
  {
    if |s| > 1 {
      var next := match st
        case Outside => if s[0] == '[' then Opened else Outside
        case Opened => Inside
        case Inside => if s[0] == ']' then Outside else Inside;
      SegmentLast(s[1..], next);
    }
  }

  /** Rendered keys from inside their groups' scan are a segment's tail. */
  lemma {:induction false} RenderKeysSegment(kvs: seq<(string, string)>)
    requires forall i :: 0 <= i < |kvs| ==> KeyWF(kvs[i])
    ensures SegmentFrom(RenderKeys(kvs), Outside)
    decreases |kvs|
  {
    if kvs != [] {
      var kv := kvs[0];
      assert KeyWF(kv);
      var body := kv.0 + "=" + kv.1;
      assert NoBrackets(body) by {
        assert forall i :: 0 <= i < |body| ==> body[i] == (if i < |kv.0| then kv.0[i] else if i == |kv.0| then '=' else kv.1[i - |kv.0| - 1]);
      }
      var rest := RenderKeys(kvs[1..]);
      assert forall i :: 0 <= i < |kvs[1..]| ==> kvs[1..][i] == kvs[i + 1];
      RenderKeysSegment(kvs[1..]);
      GroupSegment(body, rest);
      assert RenderKeys(kvs) == "[" + body + "]" + rest;
    }
  }

  /** A complete non-empty group, then a segment's tail. */
  lemma GroupSegment(body: string, rest: string)
    requires body != [] && NoBrackets(body) && SegmentFrom(rest, Outside)
    ensures SegmentFrom("[" + body + "]" + rest, Outside)
  {
    var w := "[" + body + "]" + rest;
    assert w[1..] == body + "]" + rest;
    assert (body + "]" + rest)[1..] == body[1..] + "]" + rest;
    GroupBodySegment(body[1..], rest);
  }

  lemma {:induction false} GroupBodySegment(body: string, rest: string)
    requires NoBrackets(body) && SegmentFrom(rest, Outside)
    ensures SegmentFrom(body + "]" + rest, Inside)
    decreases |body|
  {
    if body != [] {
      assert (body + "]" + rest)[1..] == body[1..] + "]" + rest;
      GroupBodySegment(body[1..], rest);
    } else {
      assert (body + "]" + rest)[1..] == rest;
    }
  }

  /** A name without brackets or `/` is the head of a segment. */
  lemma {:induction false} NameSegment(name: string, rest: string)
    requires NoBrackets(name) && '/' !in name && SegmentFrom(rest, Outside)
    ensures SegmentFrom(name + rest, Outside)
    decreases |name|
  {
    if name != [] {
      assert (name + rest)[1..] == name[1..] + rest;
      NameSegment(name[1..], rest);
    } else {
      assert name + rest == rest;
    }
  }

  /** A rendered element with a plain name and well-formed keys is kept
      whole by the split. */
  lemma RenderElemSegment(name: string, kvs: seq<(string, string)>)
    requires NoBrackets(name) && '/' !in name
    requires forall i :: 0 <= i < |kvs| ==> KeyWF(kvs[i])
    ensures SegmentWF(RenderElem(name, kvs))
  {
    RenderKeysSegment(kvs);
    NameSegment(name, RenderKeys(kvs));
  }

  /** An element as names and key pairs, before `dict` folds the pairs. */
  datatype ElemSpec = ElemSpec(name: string, kvs: seq<(string, string)>)

  predicate ElemSpecWF(e: ElemSpec)
  {
    e.name != [] && NoBrackets(e.name) && '/' !in e.name
    && forall i :: 0 <= i < |e.kvs| ==> KeyWF(e.kvs[i])
  }

  function RenderSegments(es: seq<ElemSpec>): (r: seq<string>)
    ensures |r| == |es|
    ensures forall i :: 0 <= i < |es| ==> r[i] == RenderElem(es[i].name, es[i].kvs)
  {
    if es == [] then [] else [RenderElem(es[0].name, es[0].kvs)] + RenderSegments(es[1..])
  }

  /** The string form of a non-empty path: `/`, then the elements joined by `/`. */
  function RenderPath(es: seq<ElemSpec>): string
    requires |es| >= 1
  {
    "/" + Join(RenderSegments(es))
  }

  /** `path_from_string` reads a rendered path back: the same names, and
      each element's keys folded last-wins. */
  lemma PathFromStringRoundTrip(es: seq<ElemSpec>)
    requires |es| >= 1 && forall i :: 0 <= i < |es| ==> ElemSpecWF(es[i])
    ensures var r := PathFromString(RenderPath(es));
      r.Some? && |r.value| == |es|
      && forall i :: 0 <= i < |es| ==> r.value[i] == PathElem(es[i].name, KeyMap(es[i].kvs, map[]))
  {
    var segs := RenderSegments(es);
    forall i | 0 <= i < |es| ensures SegmentWF(segs[i]) {
      assert ElemSpecWF(es[i]);
      RenderElemSegment(es[i].name, es[i].kvs);
    }
    assert segs[|segs| - 1] != "" by {
      assert ElemSpecWF(es[|es| - 1]);
    }
    PathRoundTrip(segs);
    forall i | 0 <= i < |es|
      ensures ElemFromString(segs[i]) == Some(PathElem(es[i].name, KeyMap(es[i].kvs, map[])))
    {
      assert ElemSpecWF(es[i]);
      ElemRoundTrip(es[i].name, es[i].kvs);
    }
  }
}
