/** The fragment tree. Go links fragments by pointer and lets a child alias
    its parent's shared metadata table; here fragments and tables live in
    arenas indexed by number, so aliasing is two fragments holding the same
    table id. */
module Fragments {
  import opened Wrappers
  import opened Text
  import opened CoreValue
  import opened Parser

  type FragId = nat
  type TableId = nat

  datatype Kind = FragmentKind | PageKind | TemplateKind

  /** `PENDING`, `EVALUATING`, `EVALUATED`; a new fragment starts `Pending`,
      Go's zero value. */
  datatype EvalState = Pending | Evaluating | Evaluated

  datatype Fragment = Fragment(
    name: string,
    kind: Kind,
    code: string,
    depth: nat,
    parent: Option<FragId>,
    local: Entries,
    shared: TableId,
    state: EvalState,
    builders: Entries,
    template: Option<FragId>)

  /** A positioned evaluation failure of one node. */
  datatype EvalError = EvalError(line: int, column: int, message: string)

  /** What the evaluator writes to the error log. */
  datatype LogEntry =
    | ScriptFailed(fragment: string, message: string)
    | ParseFailed(parse: ParseError)
    | NodeFailed(error: EvalError)
    | TemplateNotAtRoot

  /** All fragments and tables, the fragment cache (name to fragment) and
      the error log. Fresh ids come from the two counters. */
  datatype World = World(
    frags: map<FragId, Fragment>,
    tables: map<TableId, Entries>,
    cache: map<string, FragId>,
    log: seq<LogEntry>,
    nextFrag: nat,
    nextTable: nat)

  /** The fields a fragment keeps for life. */
  predicate SameSkeleton(a: Fragment, b: Fragment) {
    a.name == b.name && a.kind == b.kind && a.code == b.code && a.depth == b.depth && a.parent == b.parent
  }

  /** One fragment's links are well formed: its table exists, its parent is
      an older fragment one level up (and only roots lack one), and its
      template is a younger fragment. */
  predicate FragOk(w: World, x: FragId)
    requires x in w.frags
  {
    var f := w.frags[x];
    && x < w.nextFrag
    && f.shared in w.tables
    && (f.parent.None? <==> f.depth == 0)
    && (f.parent.Some? ==> var p := f.parent.value;
                           p in w.frags && p < x && f.depth == w.frags[p].depth + 1)
    && (f.template.Some? ==> f.template.value in w.frags && x < f.template.value)
  }

  predicate Valid(w: World) {
    && (forall x {:trigger FragOk(w, x)} :: x in w.frags ==> FragOk(w, x))
    && (forall t :: t in w.tables ==> t < w.nextTable)
  }

  /** `w2` extends `w1`: nothing is removed, fragments keep their skeleton,
      those below `bound` are untouched, the log only grows, and every
      cache entry that is new or replaced names a fragment at or above
      `bound`. */
  predicate Keeps(w1: World, w2: World, bound: nat) {
    && w1.frags.Keys <= w2.frags.Keys
    && w1.tables.Keys <= w2.tables.Keys
    && w1.cache.Keys <= w2.cache.Keys
    && w1.nextFrag <= w2.nextFrag
    && w1.nextTable <= w2.nextTable
    && w1.log <= w2.log
    && (forall x :: x in w1.frags ==> SameSkeleton(w1.frags[x], w2.frags[x]))
    && (forall x :: x in w1.frags && x < bound ==> w2.frags[x] == w1.frags[x])
    && (forall n :: n in w2.cache ==> (n in w1.cache && w2.cache[n] == w1.cache[n]) || w2.cache[n] >= bound)
  }

  /** No cache entry naming fragment `y` appears in `w2` that was not
      already in `w1`. */
  predicate NotNewlyCached(w1: World, w2: World, y: FragId) {
    forall n :: n in w2.cache && w2.cache[n] == y ==> n in w1.cache && w1.cache[n] == y
  }

  lemma KeepsAboveNotNewlyCached(w1: World, w2: World, y: FragId)
    requires Keeps(w1, w2, y + 1)
    ensures NotNewlyCached(w1, w2, y)
  {
  }

  lemma NotNewlyCachedTrans(w1: World, w2: World, w3: World, y: FragId)
    requires NotNewlyCached(w1, w2, y) && NotNewlyCached(w2, w3, y)
    ensures NotNewlyCached(w1, w3, y)
  {
  }

  lemma KeepsRefl(w: World, bound: nat)
    ensures Keeps(w, w, bound)
  {
  }

  lemma KeepsTrans(w1: World, w2: World, w3: World, b1: nat, b2: nat, b: nat)
    requires Keeps(w1, w2, b1) && Keeps(w2, w3, b2) && b <= b1 && b <= b2
    ensures Keeps(w1, w3, b)
  {
  }

  lemma KeepsWeaken(w1: World, w2: World, b1: nat, b: nat)
    requires Keeps(w1, w2, b1) && b <= b1
    ensures Keeps(w1, w2, b)
  {
  }

  function Log(w: World, e: LogEntry): (r: World)
    ensures r.log == w.log + [e]
    ensures r.frags == w.frags && r.tables == w.tables && r.cache == w.cache
    ensures r.nextFrag == w.nextFrag && r.nextTable == w.nextTable
  {
    w.(log := w.log + [e])
  }

  /** Validity depends only on the fragments, the tables and the counters. */
  lemma ValidFrame(w: World, w': World)
    requires Valid(w) && w'.frags == w.frags && w'.tables == w.tables
    requires w'.nextFrag == w.nextFrag && w'.nextTable == w.nextTable
    ensures Valid(w')
  {
    forall x | x in w'.frags ensures FragOk(w', x) {
      assert FragOk(w, x);
    }
  }

  /** Every fragment id in use is below the counter. */
  lemma IdsBelowNext(w: World)
    requires Valid(w)
    ensures forall x :: x in w.frags ==> x < w.nextFrag
  {
    forall x | x in w.frags ensures x < w.nextFrag {
      assert FragOk(w, x);
    }
  }

  lemma LogKeeps(w: World, e: LogEntry, bound: nat)
    ensures Keeps(w, Log(w, e), bound)
    ensures Valid(w) ==> Valid(Log(w, e))
  {
    if Valid(w) {
      ValidFrame(w, Log(w, e));
    }
  }

  /** Replace one fragment's record by one with the same skeleton and
      well-formed links. */
  function UpdateFrag(w: World, id: FragId, f: Fragment): (r: World)
    requires Valid(w) && id in w.frags && SameSkeleton(w.frags[id], f)
    requires f.shared in w.tables
    requires f.template.Some? ==> f.template.value in w.frags && id < f.template.value
    ensures r.frags == w.frags[id := f]
    ensures r.tables == w.tables && r.cache == w.cache && r.log == w.log
    ensures r.nextFrag == w.nextFrag && r.nextTable == w.nextTable
    ensures Valid(r) && Keeps(w, r, id)
  {
    UpdateFragValid(w, id, f);
    w.(frags := w.frags[id := f])
  }

  lemma UpdateFragValid(w: World, id: FragId, f: Fragment)
    requires Valid(w) && id in w.frags && SameSkeleton(w.frags[id], f)
    requires f.shared in w.tables
    requires f.template.Some? ==> f.template.value in w.frags && id < f.template.value
    ensures Valid(w.(frags := w.frags[id := f]))
  {
    var r := w.(frags := w.frags[id := f]);
    assert FragOk(w, id);
    forall x | x in r.frags ensures FragOk(r, x) {
      assert FragOk(w, x);
    }
  }

  /** Replace the contents of an existing table. */
  function UpdateTable(w: World, t: TableId, entries: Entries): (r: World)
    requires Valid(w) && t in w.tables
    ensures r.tables == w.tables[t := entries]
    ensures r.frags == w.frags && r.cache == w.cache && r.log == w.log
    ensures r.nextFrag == w.nextFrag && r.nextTable == w.nextTable
    ensures Valid(r) && Keeps(w, r, r.nextFrag)
  {
    var r := w.(tables := w.tables[t := entries]);
    assert forall x :: x in r.frags ==> FragOk(r, x) by {
      forall x | x in r.frags ensures FragOk(r, x) {
        assert FragOk(w, x);
      }
    }
    r
  }

  /** A world with one root fragment, as `GetFragmentFromName` builds it:
      depth 0, no parent, empty local metadata and its own new empty shared
      table. */
  function NewRoot(w: World, name: string, kind: Kind, code: string): (r: (World, FragId))
    requires Valid(w)
    ensures var (w', id) := r;
            && id == w.nextFrag && id !in w.frags && id in w'.frags
            && w'.frags[id] == Fragment(name, kind, code, 0, None, map[], w.nextTable, Pending, map[], None)
            && w'.tables == w.tables[w.nextTable := map[]]
            && w'.frags == w.frags[id := w'.frags[id]]
            && Valid(w') && Keeps(w, w', w'.nextFrag)
  {
    var id := w.nextFrag;
    var t := w.nextTable;
    IdsBelowNext(w);
    var w' := w.(frags := w.frags[id := Fragment(name, kind, code, 0, None, map[], t, Pending, map[], None)],
                 tables := w.tables[t := map[]],
                 nextFrag := id + 1,
                 nextTable := t + 1);
    assert forall x :: x in w'.frags ==> FragOk(w', x) by {
      forall x | x in w'.frags ensures FragOk(w', x) {
        if x != id {
          assert FragOk(w, x);
        }
      }
    }
    (w', id)
  }

  /** The world holding just one root fragment. */
  function Start(name: string, kind: Kind, code: string): (r: (World, FragId))
    ensures Valid(r.0) && r.1 in r.0.frags
    ensures r.0.frags[r.1].depth == 0 && r.0.frags[r.1].state == Pending
  {
    NewRoot(World(map[], map[], map[], [], 0, 0), name, kind, code)
  }

  /** `MakeChild`: a new fragment one level below `id`, linked to it as
      parent, with empty local metadata and the parent's shared table itself
      (not a copy). */
  function MakeChild(w: World, id: FragId, name: string, code: string): (r: (World, FragId))
    requires Valid(w) && id in w.frags
    ensures r.1 == w.nextFrag && r.1 !in w.frags && r.1 in r.0.frags && id < r.1
    ensures var child := r.0.frags[r.1];
            && child.depth == w.frags[id].depth + 1
            && child.parent == Some(id)
            && child.local == map[]
            && child.shared == w.frags[id].shared
            && child.name == name && child.code == code && child.kind == FragmentKind
            && child.state == Pending && child.builders == map[] && child.template == None
    ensures r.0.frags == w.frags[r.1 := r.0.frags[r.1]]
    ensures r.0.tables == w.tables && r.0.cache == w.cache && r.0.log == w.log
    ensures Valid(r.0) && Keeps(w, r.0, r.0.nextFrag)
  {
    var c := w.nextFrag;
    var f := w.frags[id];
    assert FragOk(w, id);
    IdsBelowNext(w);
    var child := Fragment(name, FragmentKind, code, f.depth + 1, Some(id), map[], f.shared, Pending, map[], None);
    var w' := w.(frags := w.frags[c := child], nextFrag := c + 1);
    assert forall x :: x in w'.frags ==> FragOk(w', x) by {
      forall x | x in w'.frags ensures FragOk(w', x) {
        if x != c {
          assert FragOk(w, x);
        }
      }
    }
    (w', c)
  }

  /** `RetrieveSharedMetadata`: the shared table of the depth-0 ancestor. */
  function RetrieveShared(w: World, id: FragId): (t: TableId)
    requires Valid(w) && id in w.frags
    ensures t in w.tables
    decreases id
  {
    assert FragOk(w, id);
    var f := w.frags[id];
    if f.depth == 0 then f.shared else RetrieveShared(w, f.parent.value)
  }

  /** Every child holds its parent's table, as `MakeChild` arranges. */
  predicate SharedConsistent(w: World)
    requires Valid(w)
  {
    forall x :: x in w.frags && w.frags[x].parent.Some? ==>
      FragOk(w, x) && w.frags[x].shared == w.frags[w.frags[x].parent.value].shared
  }

  /** Where every child aliases its parent's table, walking up to the root
      finds the fragment's own table. */
  lemma {:induction false} RetrieveSharedIsOwn(w: World, id: FragId)
    requires Valid(w) && id in w.frags && SharedConsistent(w)
    ensures RetrieveShared(w, id) == w.frags[id].shared
    decreases id
  {
    assert FragOk(w, id);
    if w.frags[id].depth != 0 {
      RetrieveSharedIsOwn(w, w.frags[id].parent.value);
    }
  }

  /** A child retrieves the same shared table as its parent. */
  lemma ChildRetrievesParentTable(w: World, id: FragId, name: string, code: string)
    requires Valid(w) && id in w.frags
    ensures var (w', c) := MakeChild(w, id, name, code);
            RetrieveShared(w', c) == RetrieveShared(w, id)
  {
    var (w', c) := MakeChild(w, id, name, code);
    RetrieveSharedFrame(w, w', id);
  }

  /** Adding a fragment does not change what an existing one retrieves. */
  lemma {:induction false} RetrieveSharedFrame(w: World, w': World, id: FragId)
    requires Valid(w) && Valid(w') && id in w.frags
    requires forall x :: x in w.frags ==> x in w'.frags && w'.frags[x] == w.frags[x]
    ensures RetrieveShared(w', id) == RetrieveShared(w, id)
    decreases id
  {
    assert FragOk(w, id);
    if w.frags[id].depth != 0 {
      RetrieveSharedFrame(w, w', w.frags[id].parent.value);
    }
  }

  /** `MakeChild` keeps every child aliasing its parent's table. */
  lemma MakeChildKeepsSharing(w: World, id: FragId, name: string, code: string)
    requires Valid(w) && id in w.frags && SharedConsistent(w)
    ensures var (w', c) := MakeChild(w, id, name, code);
            SharedConsistent(w')
  {
  }

  /** `getFragmentStack`: the chain of ancestors from the root down to the
      given fragment; empty for no fragment. */
  function FragmentStack(w: World, f: Option<FragId>): (r: seq<FragId>)
    requires Valid(w) && (f.Some? ==> f.value in w.frags)
    ensures f.None? ==> r == []
    ensures forall k :: 0 <= k < |r| ==> r[k] in w.frags
    ensures f.Some? ==> && |r| == w.frags[f.value].depth + 1
                        && r[|r| - 1] == f.value
                        && w.frags[r[0]].parent.None?
    ensures forall k :: 0 <= k < |r| - 1 ==> w.frags[r[k + 1]].parent == Some(r[k])
    decreases if f.None? then 0 else f.value + 1
  {
    if f.None? then []
    else
      assert FragOk(w, f.value);
      FragmentStack(w, w.frags[f.value].parent) + [f.value]
  }

  /** The root at the bottom of the stack holds the table that
      `RetrieveSharedMetadata` returns. */
  lemma {:induction false} StackRootHoldsShared(w: World, id: FragId)
    requires Valid(w) && id in w.frags
    ensures var s := FragmentStack(w, Some(id));
            RetrieveShared(w, id) == w.frags[s[0]].shared
    decreases id
  {
    assert FragOk(w, id);
    var f := w.frags[id];
    if f.depth != 0 {
      StackRootHoldsShared(w, f.parent.value);
      var s := FragmentStack(w, f.parent);
      assert FragmentStack(w, Some(id)) == s + [id];
    }
  }

  // ----- Pieces of `Evaluate` that do not recurse -----

  const Separator: string := "---"

  /** The script prologue and the body of a fragment's code: with no `---`
      the script is empty and the body is everything; otherwise the script
      is the text before the first `---` and the body the text before the
      second, anything later being dropped. */
  function SplitCode(code: string): (r: (string, string))
  {
    var parts := Split(code, Separator);
    if |parts| == 1 then ("", parts[0]) else (parts[0], parts[1])
  }

  /** What `SplitCode` keeps and drops, stated on the code itself: the
      script ends at the first `---`, and the body runs from there to the
      next one (or to the end). */
  lemma SplitCodeMeaning(code: string)
    ensures var (script, body) := SplitCode(code);
            && !Contains(script, Separator) && !Contains(body, Separator)
            && (!Contains(code, Separator) ==> script == "" && body == code)
            && (Contains(code, Separator) ==>
                  && IndexFrom(code, Separator, 0) == Some(|script|)
                  && (forall j :: 0 <= j < |script| ==> !OccursAt(code, Separator, j))
                  && (forall j :: |script| + |Separator| <= j < |script| + |Separator| + |body| ==>
                                    !OccursAt(code, Separator, j))
                  && exists rest :: code == script + Separator + body + rest
                                    && (rest == "" || (|rest| >= |Separator| && rest[..|Separator|] == Separator)))
  {
    var parts := Split(code, Separator);
    SplitLeftmost(code, Separator);
    if |parts| == 1 {
      assert Join(parts, Separator) == parts[0];
    } else {
      var rest := SplitCodeRest(code);
      assert code == parts[0] + Separator + parts[1] + rest;
    }
  }

  /** With a separator, the code is the script, the separator, the body and
      what follows the body (nothing, or another separator and more). */
  lemma SplitCodeRest(code: string) returns (rest: string)
    requires |Split(code, Separator)| > 1
    ensures var parts := Split(code, Separator);
            && code == parts[0] + Separator + parts[1] + rest
            && (rest == "" || (|rest| >= |Separator| && rest[..|Separator|] == Separator))
            && Contains(code, Separator)
  {
    var parts := Split(code, Separator);
    rest := if |parts| == 2 then "" else Separator + Join(parts[2..], Separator);
    var tail := Join(parts[1..], Separator);
    JoinFromSecond(parts, Separator);
    assert code == parts[0] + Separator + tail;
    PieceAt(parts[0], Separator, tail);
    assert OccursAt(code, Separator, |parts[0]|);
    Regroup4(parts[0], Separator, parts[1], rest);
  }

  lemma JoinFromSecond(parts: seq<string>, sep: string)
    requires |parts| > 1
    ensures Join(parts[1..], sep) == parts[1] + if |parts| == 2 then "" else sep + Join(parts[2..], sep)
  {
    if |parts| > 2 {
      assert parts[1..][1..] == parts[2..];
      assert parts[1..][0] == parts[1];
    } else {
      assert parts[1..] == [parts[1]];
    }
  }

  lemma PieceAt(a: string, b: string, c: string)
    ensures (a + b + c)[|a|..|a| + |b|] == b
  {
  }

  lemma Regroup4(a: string, b: string, c: string, d: string)
    ensures a + b + (c + d) == a + b + c + d
  {
  }

  /** `MetaReferenceNode.Evaluate` reads local metadata only; the later
      version reads shared metadata first and falls back to local. */
  datatype LookupOrder = LocalOnly | SharedThenLocal

  /** The value a meta reference finds, if any. */
  function LookupMeta(order: LookupOrder, local: Entries, shared: Entries, key: string): (r: Option<Value>)
    ensures order.LocalOnly? ==> (r.Some? <==> key in local) && (r.Some? ==> r.value == local[key])
    ensures order.SharedThenLocal? ==>
              && (r.Some? <==> key in shared || key in local)
              && (key in shared ==> r == Some(shared[key]))
              && (key !in shared && key in local ==> r == Some(local[key]))
  {
    if order.SharedThenLocal? && key in shared then Some(shared[key])
    else if key in local then Some(local[key])
    else None
  }

  function MissingKey(key: string): string {
    "Metadata key not found: `" + key + "`"
  }

  function BuilderNotFound(name: string): string {
    "Builder not found: " + name
  }

  /** `ParseError.Error()`. */
  function ParseErrorText(e: ParseError): string {
    "Parse error at line " + IntToString(e.line) + ", column " + IntToString(e.column) + ": " + e.message
  }

  /** `EvaluationError.Error()`. */
  function EvalErrorText(e: EvalError): string {
    "Evaluation error at line " + IntToString(e.line) + ", column " + IntToString(e.column) + ": " + e.message
  }

  /** The arguments a builder is called with: none for empty content,
      otherwise the content as the one string. */
  function BuilderArgs(content: string): (args: seq<string>)
    ensures |args| <= 1
    ensures args == [] <==> content == ""
    ensures |args| == 1 ==> args[0] == content
  {
    if content == "" then [] else [content]
  }

  /** `WithContent`, before its final `Evaluate`: the `merge` of shared
      metadata builds a table that is thrown away, so only `CONTENT` in the
      local metadata changes. */
  function WithContent(w: World, id: FragId, content: string): (r: World)
    requires id in w.frags
    ensures r.tables == w.tables && r.cache == w.cache && r.log == w.log
    ensures r.nextFrag == w.nextFrag && r.nextTable == w.nextTable
    ensures r.frags.Keys == w.frags.Keys
    ensures forall x :: x in w.frags && x != id ==> r.frags[x] == w.frags[x]
    ensures r.frags[id].local.Keys == w.frags[id].local.Keys + {"CONTENT"}
    ensures r.frags[id].local["CONTENT"] == Str(content)
    ensures forall k :: k in w.frags[id].local && k != "CONTENT" ==> r.frags[id].local[k] == w.frags[id].local[k]
    ensures r.frags[id] == w.frags[id].(local := r.frags[id].local)
  {
    var f := w.frags[id];
    w.(frags := w.frags[id := f.(local := f.local["CONTENT" := Str(content)])])
  }

  lemma WithContentKeepsValid(w: World, id: FragId, content: string)
    requires Valid(w) && id in w.frags
    ensures Valid(WithContent(w, id, content)) && Keeps(w, WithContent(w, id, content), id)
  {
    var r := WithContent(w, id, content);
    forall x | x in r.frags ensures FragOk(r, x) {
      assert FragOk(w, x);
    }
  }
}
