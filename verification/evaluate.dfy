/** `Fragment.Evaluate` and the `Evaluate` methods of the node types. The
    Lua runtime, the file system and `%f` number formatting are supplied
    by a `Host`. Evaluation can recurse without bound (a fragment that
    includes itself), so every function takes a `fuel` budget and answers
    `None` when it runs out. */
module Evaluation {
  import opened Wrappers
  import opened Text
  import opened CoreValue
  import opened Parser
  import opened Fragments

  /** What a script prologue leaves behind: the fragment's new local
      metadata, the new contents of its shared table, its builder table,
      the template it selected (by name) and the error it raised, if any. */
  datatype ScriptEffect = ScriptEffect(
    local: Entries,
    shared: Entries,
    builders: Entries,
    template: Option<string>,
    error: Option<string>)

  /** Everything evaluation needs from outside: running a script against a
      fragment (which sees its record and shared table), calling a builder,
      reading a fragment file by name, printing a number, and the metadata
      lookup order of the code version being modelled. */
  datatype Host = Host(
    script: (Fragment, Entries, string) -> ScriptEffect,
    builder: (Value, seq<string>) -> Result<Value, string>,
    load: string -> string,
    number: real -> string,
    order: LookupOrder)

  function SetState(w: World, id: FragId, s: EvalState): (r: World)
    requires Valid(w) && id in w.frags
    ensures r.frags == w.frags[id := w.frags[id].(state := s)]
    ensures r.tables == w.tables && r.cache == w.cache && r.log == w.log
    ensures Valid(r) && Keeps(w, r, id)
  {
    assert FragOk(w, id);
    UpdateFrag(w, id, w.frags[id].(state := s))
  }

  /** Running the prologue: the script's effect replaces the fragment's
      local metadata and builders and the contents of its shared table; a
      selected template is loaded as a new root (`setTemplate`); a script
      error is logged and evaluation goes on. An empty script is not run. */
  function RunScript(h: Host, w: World, id: FragId, script: string): (r: World)
    requires Valid(w) && id in w.frags
    ensures Valid(r) && Keeps(w, r, id) && r.cache == w.cache
    ensures r.frags[id].state == w.frags[id].state && r.frags[id].shared == w.frags[id].shared
    ensures script == "" ==> r == w
    // Only this fragment's metadata, builders and template change ...
    ensures r.frags[id] == w.frags[id].(local := r.frags[id].local, builders := r.frags[id].builders,
                                         template := r.frags[id].template)
    ensures forall x :: x in w.frags && x != id ==> r.frags[x] == w.frags[x]
    // ... the one new fragment is the template it selected ...
    ensures forall x :: x in r.frags && x !in w.frags ==> r.frags[id].template == Some(x)
    // ... and of the existing tables only its shared one is written.
    ensures forall t :: t in w.tables && t != w.frags[id].shared ==> r.tables[t] == w.tables[t]
  {
    if script == "" then w
    else
      var f := w.frags[id];
      assert FragOk(w, id);
      var e := h.script(f, w.tables[f.shared], script);
      var w2 := InstallEffect(w, id, e);
      var w3 := SelectTemplate(h, w2, id, e.template);
      KeepsTrans(w, w2, w3, id, id, id);
      ScriptFrame(w, w2, w3, id);
      var r := LogScriptError(w3, f.name, e.error, id);
      KeepsTrans(w, w3, r, id, id, id);
      r
  }

  /** `setTemplate`, when the script called it. */
  function SelectTemplate(h: Host, w: World, id: FragId, template: Option<string>): (r: World)
    requires Valid(w) && id in w.frags
    ensures Valid(r) && Keeps(w, r, id) && r.cache == w.cache && r.log == w.log
    ensures template.None? ==> r == w
    ensures template.Some? ==>
              && r.frags[id] == w.frags[id].(template := r.frags[id].template)
              && r.frags[id].template.Some?
              && r.frags.Keys == w.frags.Keys + {r.frags[id].template.value}
              && (forall x :: x in w.frags && x != id ==> r.frags[x] == w.frags[x])
              && (forall t :: t in w.tables ==> t in r.tables && r.tables[t] == w.tables[t])
  {
    if template.None? then
      KeepsRefl(w, id);
      w
    else SetTemplate(h, w, id, template.value)
  }

  /** A script error, if any, is logged against the fragment's name. */
  function LogScriptError(w: World, name: string, error: Option<string>, bound: nat): (r: World)
    requires Valid(w)
    ensures Valid(r) && Keeps(w, r, bound)
    ensures r.frags == w.frags && r.tables == w.tables && r.cache == w.cache
    ensures r.log == w.log + (if error.None? then [] else [ScriptFailed(name, error.value)])
  {
    if error.None? then
      KeepsRefl(w, bound);
      assert w.log + [] == w.log;
      w
    else
      LogKeeps(w, ScriptFailed(name, error.value), bound);
      Log(w, ScriptFailed(name, error.value))
  }

  /** The script's effect written back: the fragment's local metadata and
      builders, and the contents of its shared table. */
  function InstallEffect(w: World, id: FragId, e: ScriptEffect): (r: World)
    requires Valid(w) && id in w.frags
    ensures Valid(r) && Keeps(w, r, id) && r.cache == w.cache && r.log == w.log
    ensures r.frags == w.frags[id := w.frags[id].(local := e.local, builders := e.builders)]
    ensures r.tables == w.tables[w.frags[id].shared := e.shared]
  {
    var f := w.frags[id];
    assert FragOk(w, id);
    var w1 := UpdateTable(w, f.shared, e.shared);
    var w2 := UpdateFrag(w1, id, f.(local := e.local, builders := e.builders));
    KeepsTrans(w, w1, w2, w1.nextFrag, id, id);
    w2
  }

  /** The frame of `RunScript`, from the frames of its two steps. */
  lemma ScriptFrame(w: World, w2: World, w3: World, id: FragId)
    requires id in w.frags && id in w2.frags && id in w3.frags && w.frags[id].shared in w2.tables
    requires w2.frags == w.frags[id := w2.frags[id]]
    requires w2.frags[id] == w.frags[id].(local := w2.frags[id].local, builders := w2.frags[id].builders)
    requires w2.tables == w.tables[w.frags[id].shared := w2.tables[w.frags[id].shared]]
    requires w3 == w2 || (&& w3.frags[id] == w2.frags[id].(template := w3.frags[id].template)
                          && w3.frags[id].template.Some?
                          && w3.frags.Keys == w2.frags.Keys + {w3.frags[id].template.value}
                          && (forall x :: x in w2.frags && x != id ==> w3.frags[x] == w2.frags[x])
                          && (forall t :: t in w2.tables ==> t in w3.tables && w3.tables[t] == w2.tables[t]))
    ensures w3.frags[id] == w.frags[id].(local := w3.frags[id].local, builders := w3.frags[id].builders,
                                          template := w3.frags[id].template)
    ensures forall x :: x in w.frags && x != id ==> w3.frags[x] == w.frags[x]
    ensures forall x :: x in w3.frags && x !in w.frags ==> w3.frags[id].template == Some(x)
    ensures forall t :: t in w.tables && t != w.frags[id].shared ==> w3.tables[t] == w.tables[t]
  {
  }

  /** `setTemplate`: load the named template as a new root fragment and
      link it as this fragment's template. */
  function SetTemplate(h: Host, w: World, id: FragId, name: string): (r: World)
    requires Valid(w) && id in w.frags
    ensures Valid(r) && Keeps(w, r, id) && r.cache == w.cache && r.log == w.log
    ensures r.frags[id] == w.frags[id].(template := r.frags[id].template)
    ensures r.frags[id].template.Some?
    ensures var t := r.frags[id].template.value;
            && t !in w.frags && t in r.frags
            && r.frags[t] == Fragment(name, TemplateKind, h.load(name), 0, None, map[], r.frags[t].shared,
                                      Pending, map[], None)
            && r.frags.Keys == w.frags.Keys + {t}
    ensures forall x :: x in w.frags && x != id ==> r.frags[x] == w.frags[x]
    ensures forall t :: t in w.tables ==> t in r.tables && r.tables[t] == w.tables[t]
  {
    var (w1, t) := NewRoot(w, name, TemplateKind, h.load(name));
    assert FragOk(w, id);
    var w2 := UpdateFrag(w1, id, w1.frags[id].(template := Some(t)));
    KeepsTrans(w, w1, w2, w1.nextFrag, id, id);
    assert w.nextTable !in w.tables;
    ExtendKeeps(w.tables, w.nextTable, map[]);
    assert w2.frags == w.frags[t := w1.frags[t]][id := w.frags[id].(template := Some(t))];
    UpdateTwoKeeps(w.frags, t, w1.frags[t], id, w.frags[id].(template := Some(t)));
    w2
  }

  lemma ExtendKeeps<K, V>(m: map<K, V>, k: K, v: V)
    requires k !in m
    ensures forall x :: x in m ==> x in m[k := v] && m[k := v][x] == m[x]
  {
  }

  lemma UpdateTwoKeeps<K, V>(m: map<K, V>, a: K, u: V, b: K, v: V)
    requires b in m
    ensures m[a := u][b := v].Keys == m.Keys + {a}
    ensures forall x :: x in m && x != a && x != b ==> m[a := u][b := v][x] == m[x]
  {
  }

  /** The template of a root fragment takes over its shared table and gets
      the fragment's output as `CONTENT`. */
  function HandToTemplate(w: World, id: FragId, t: FragId, output: string): (r: World)
    requires Valid(w) && id in w.frags && t in w.frags && id < t
    ensures Valid(r) && Keeps(w, r, t) && r.cache == w.cache && r.log == w.log
    ensures r.frags[t].shared == w.frags[id].shared
    ensures "CONTENT" in r.frags[t].local && r.frags[t].local["CONTENT"] == Str(output)
    ensures r.frags[t] == w.frags[t].(shared := r.frags[t].shared, local := r.frags[t].local)
  {
    var tf := w.frags[t];
    assert FragOk(w, id);
    assert FragOk(w, t);
    UpdateFrag(w, t, tf.(shared := w.frags[id].shared, local := tf.local["CONTENT" := Str(output)]))
  }

  /** The conditions `Evaluate` leaves behind for fragment `y`: it is
      evaluated, or it stopped at a parse error with empty output and the
      cache untouched; an evaluated fragment without a template is cached
      under its name; a root's template shares its table; a template below
      the root is logged as an error. */
  predicate Finished(w: World, w': World, y: FragId, out: string)
    requires y in w'.frags
  {
    var f := w'.frags[y];
    && (f.state == Evaluated || f.state == Evaluating)
    && (f.state == Evaluating ==> out == "" && w'.cache == w.cache)
    && (f.state == Evaluated && f.template.None? ==> f.name in w'.cache && w'.cache[f.name] == y)
    && (f.state == Evaluated && f.template.Some? && f.depth == 0 ==>
          && f.template.value in w'.frags && w'.frags[f.template.value].shared == f.shared
          && NotNewlyCached(w, w', y))
    && (f.state == Evaluated && f.template.Some? && f.depth > 0 ==>
          TemplateNotAtRoot in w'.log && f.name in w'.cache && w'.cache[f.name] == y)
  }

  /** `Finished` depends on the earlier world only through its cache. */
  lemma FinishedSameCache(w0: World, w: World, w': World, y: FragId, out: string)
    requires y in w'.frags && w.cache == w0.cache && Finished(w, w', y, out)
    ensures Finished(w0, w', y, out)
  {
  }

  /** An evaluated fragment stays finished relative to an earlier world
      whose cache already held every entry naming it. */
  lemma FinishedSince(w0: World, w: World, w': World, y: FragId, out: string)
    requires y in w'.frags && w'.frags[y].state == Evaluated
    requires Finished(w, w', y, out) && NotNewlyCached(w0, w, y)
    ensures Finished(w0, w', y, out)
  {
    var f := w'.frags[y];
    if f.template.Some? && f.depth == 0 {
      NotNewlyCachedTrans(w0, w, w', y);
    }
  }

  /** The first half of `Evaluate`: mark the fragment pending, then
      evaluating; split off and run the script; parse the trimmed body. */
  function Prepare(h: Host, w: World, y: FragId): (r: (World, Result<seq<Node>, ParseError>))
    requires Valid(w) && y in w.frags
    ensures Valid(r.0) && Keeps(w, r.0, y) && r.0.cache == w.cache
    ensures r.0.frags[y].state == Evaluating && r.0.frags[y].shared == w.frags[y].shared
    ensures r.1 == ParseCode(TrimSpace(SplitCode(w.frags[y].code).1))
  {
    var (script, body) := SplitCode(w.frags[y].code);
    var w0 := SetState(w, y, Pending);
    var w1 := SetState(w0, y, Evaluating);
    var w2 := RunScript(h, w1, y, script);
    KeepsTrans(w, w0, w1, y, y, y);
    KeepsTrans(w, w1, w2, y, y, y);
    (w2, ParseCode(TrimSpace(body)))
  }

  /** `Fragment.Evaluate`. */
  function EvalFragment(h: Host, w: World, y: FragId, fuel: nat): (r: Option<(World, string)>)
    requires Valid(w) && y in w.frags
    ensures r.Some? ==> && Valid(r.value.0) && Keeps(w, r.value.0, y)
                        && r.value.0.frags[y].shared == w.frags[y].shared
                        && Finished(w, r.value.0, y, r.value.1)
    decreases fuel, 4
  {
    if fuel == 0 then None
    else
      var (w2, parsed) := Prepare(h, w, y);
      if parsed.Failure? then
        var w3 := Log(w2, ParseFailed(parsed.error));
        LogKeeps(w2, ParseFailed(parsed.error), y);
        KeepsTrans(w, w2, w3, y, y, y);
        Some((w3, ""))
      else
        var b := EvalBody(h, w2, y, parsed.value, fuel);
        if b.None? then None
        else
          KeepsTrans(w, w2, b.value.0, y, y + 1, y);
          KeepsAboveNotNewlyCached(w2, b.value.0, y);
          var res := Conclude(h, b.value.0, y, b.value.1, fuel);
          if res.None? then None
          else
            KeepsTrans(w, b.value.0, res.value.0, y, y, y);
            FinishedSince(w, b.value.0, res.value.0, y, res.value.1);
            res
  }

  /** The second half of `Evaluate`, after the body's output is known: mark
      the fragment evaluated; a root with a template hands over to it, any
      other fragment is cached. */
  function Conclude(h: Host, w: World, y: FragId, out: string, fuel: nat): (r: Option<(World, string)>)
    requires Valid(w) && y in w.frags
    ensures r.Some? ==> && Valid(r.value.0) && Keeps(w, r.value.0, y)
                        && r.value.0.frags[y].shared == w.frags[y].shared
                        && r.value.0.frags[y].state == Evaluated
                        && Finished(w, r.value.0, y, r.value.1)
    decreases fuel, 3
  {
    var w4 := SetState(w, y, Evaluated);
    if w4.frags[y].template.Some? && w4.frags[y].depth == 0 then
      var res := ToTemplate(h, w4, y, out, fuel);
      if res.None? then None
      else
        KeepsTrans(w, w4, res.value.0, y, y, y);
        FinishedSameCache(w, w4, res.value.0, y, res.value.1);
        res
    else
      var w6 := CacheOutput(w4, y);
      KeepsTrans(w, w4, w6, y, y, y);
      FinishedSameCache(w, w4, w6, y, out);
      Some((w6, out))
  }

  /** A root fragment with a template hands its shared table and its output
      (as `CONTENT`) to the template and returns the template's evaluation. */
  function ToTemplate(h: Host, w: World, y: FragId, out: string, fuel: nat): (r: Option<(World, string)>)
    requires Valid(w) && y in w.frags && w.frags[y].state == Evaluated
    requires w.frags[y].template.Some? && w.frags[y].depth == 0
    ensures r.Some? ==> && Valid(r.value.0) && Keeps(w, r.value.0, y + 1)
                        && r.value.0.frags[y] == w.frags[y]
                        && Finished(w, r.value.0, y, r.value.1)
    decreases fuel, 2
  {
    var f := w.frags[y];
    assert FragOk(w, y);
    var t := f.template.value;
    var w5 := HandToTemplate(w, y, t, out);
    if fuel == 0 then None
    else
      var res := EvalFragment(h, w5, t, fuel - 1);
      if res.None? then None
      else
        KeepsTrans(w, w5, res.value.0, y + 1, t, y + 1);
        KeepsAboveNotNewlyCached(w, res.value.0, y);
        res
  }

  /** Any other evaluated fragment logs a template it cannot use (one below
      the root) and is cached under its name. */
  function CacheOutput(w: World, y: FragId): (r: World)
    requires Valid(w) && y in w.frags && w.frags[y].state == Evaluated
    requires !(w.frags[y].template.Some? && w.frags[y].depth == 0)
    ensures Valid(r) && Keeps(w, r, y) && r.frags == w.frags
    ensures forall out :: Finished(w, r, y, out)
  {
    var f := w.frags[y];
    var w5 := if f.template.Some? then Log(w, TemplateNotAtRoot) else w;
    var w6 := w5.(cache := w5.cache[f.name := y]);
    ValidFrame(w, w6);
    assert Keeps(w, w6, y);
    w6
  }

  /** The node loop of `Evaluate`: a failing node is logged and contributes
      nothing; the outputs of the others are concatenated in order. */
  function EvalBody(h: Host, w: World, y: FragId, nodes: seq<Node>, fuel: nat): (r: Option<(World, string)>)
    requires Valid(w) && y in w.frags
    ensures r.Some? ==> Valid(r.value.0) && Keeps(w, r.value.0, y + 1)
    decreases fuel, 3, |nodes|
  {
    if |nodes| == 0 then
      KeepsRefl(w, y + 1);
      Some((w, ""))
    else
      var e := EvalNode(h, w, y, nodes[0], fuel);
      if e.None? then None
      else
        var (w1, v) := e.value;
        var w2 := if v.Failure? then Log(w1, NodeFailed(v.error)) else w1;
        ValidFrame(w1, w2);
        assert Keeps(w1, w2, y + 1);
        KeepsTrans(w, w1, w2, y + 1, y + 1, y + 1);
        var rest := EvalBody(h, w2, y, nodes[1..], fuel);
        if rest.None? then None
        else
          KeepsTrans(w, w2, rest.value.0, y + 1, y + 1, y + 1);
          Some((rest.value.0, (if v.Success? then v.value else "") + rest.value.1))
  }

  /** The loop over the nodes of a reference's `[[...]]` content: the
      first failing node ends it with an error at that node's position
      that names the reference and quotes the node's error. */
  function EvalContent(h: Host, w: World, y: FragId, nodes: seq<Node>, what: string, name: string, fuel: nat)
    : (r: Option<(World, Result<string, EvalError>)>)
    requires Valid(w) && y in w.frags
    ensures r.Some? ==> Valid(r.value.0) && Keeps(w, r.value.0, y + 1)
    ensures r.Some? && r.value.1.Failure? ==> AtContentNode(r.value.1.error, nodes, what, name)
    decreases fuel, 3, |nodes|
  {
    if |nodes| == 0 then
      KeepsRefl(w, y + 1);
      Some((w, Success("")))
    else
      var e := EvalNode(h, w, y, nodes[0], fuel);
      if e.None? then None
      else
        var (w1, v) := e.value;
        if v.Failure? then
          Some((w1, Failure(ContentNodeError(nodes[0], what, name, v.error))))
        else
          var rest := EvalContent(h, w1, y, nodes[1..], what, name, fuel);
          if rest.None? then None
          else
            KeepsTrans(w, w1, rest.value.0, y + 1, y + 1, y + 1);
            ContentErrorInTail(nodes, what, name, rest.value.1);
            Some((rest.value.0, if rest.value.1.Failure? then rest.value.1 else Success(v.value + rest.value.1.value)))
  }

  /** `err` is the error of one of the content nodes. */
  ghost predicate AtContentNode(err: EvalError, nodes: seq<Node>, what: string, name: string) {
    exists k, e :: 0 <= k < |nodes| && err == ContentNodeError(nodes[k], what, name, e)
  }

  /** An error at a node of the tail is an error at a node of the list. */
  lemma ContentErrorInTail(nodes: seq<Node>, what: string, name: string, v: Result<string, EvalError>)
    requires |nodes| > 0
    requires v.Failure? ==> AtContentNode(v.error, nodes[1..], what, name)
    ensures v.Failure? ==> AtContentNode(v.error, nodes, what, name)
  {
    if v.Failure? {
      var k, e :| 0 <= k < |nodes[1..]| && v.error == ContentNodeError(nodes[1..][k], what, name, e);
      assert nodes[1..][k] == nodes[k + 1];
    }
  }

  /** The error of a failing content node: at that node, naming the
      reference and quoting the node's own error. */
  function ContentNodeError(n: Node, what: string, name: string, e: EvalError): EvalError {
    EvalError(n.line, n.column, "Error evaluating content node in " + what + " " + name + ": " + EvalErrorText(e))
  }

  /** The inline content of a builder or fragment reference, parsed and
      evaluated; empty content is not parsed at all. A parse error is an
      error at the reference. */
  function Content(h: Host, w: World, y: FragId, content: string, what: string, name: string,
                   line: int, column: int, fuel: nat)
    : (r: Option<(World, Result<string, EvalError>)>)
    requires Valid(w) && y in w.frags
    ensures r.Some? ==> Valid(r.value.0) && Keeps(w, r.value.0, y + 1)
    ensures content == "" ==> r == Some((w, Success("")))
    ensures ParseCode(content).Failure? ==>
              r == Some((w, Failure(EvalError(line, column, "Error parsing content in " + what + " " + name + ": "
                                                            + ParseErrorText(ParseCode(content).error)))))
    decreases fuel, 4
  {
    if content == "" then
      KeepsRefl(w, y + 1);
      Some((w, Success("")))
    else
      var parsed := ParseCode(content);
      if parsed.Failure? then
        KeepsRefl(w, y + 1);
        Some((w, Failure(EvalError(line, column, "Error parsing content in " + what + " " + name + ": "
                                                 + ParseErrorText(parsed.error)))))
      else
        EvalContent(h, w, y, parsed.value, what, name, fuel)
  }

  /** The `Evaluate` method of one node of fragment `y`. */
  function EvalNode(h: Host, w: World, y: FragId, n: Node, fuel: nat): (r: Option<(World, Result<string, EvalError>)>)
    requires Valid(w) && y in w.frags
    ensures r.Some? ==> Valid(r.value.0) && Keeps(w, r.value.0, y + 1)
    decreases fuel, 2
  {
    if fuel == 0 then None
    else
      var f := w.frags[y];
      assert FragOk(w, y);
      match n
      case TextNode(text, _, _) =>
        KeepsRefl(w, y + 1);
        Some((w, Success(text)))
      case MetaRefNode(key, line, column) =>
        KeepsRefl(w, y + 1);
        var v := LookupMeta(h.order, f.local, w.tables[f.shared], key);
        Some((w, if v.None? then Failure(EvalError(line, column, MissingKey(key)))
                 else Success(Display(v.value, h.number))))
      case BuilderRefNode(name, content, line, column) =>
        EvalBuilderRef(h, w, y, name, content, line, column, fuel)
      case FragmentRefNode(name, content, line, column) =>
        EvalFragmentRef(h, w, y, name, content, line, column, fuel)
  }

  /** A builder reference: the builder must be among the fragment's
      builders; its content is evaluated and handed to it. */
  function EvalBuilderRef(h: Host, w: World, y: FragId, name: string, content: string, line: int, column: int,
                          fuel: nat): (r: Option<(World, Result<string, EvalError>)>)
    requires Valid(w) && y in w.frags && fuel > 0
    ensures r.Some? ==> Valid(r.value.0) && Keeps(w, r.value.0, y + 1)
    decreases fuel, 1
  {
    var f := w.frags[y];
    if name !in f.builders then
      KeepsRefl(w, y + 1);
      Some((w, Failure(EvalError(line, column, BuilderNotFound(name)))))
    else
      var c := Content(h, w, y, content, "builder", name, line, column, fuel - 1);
      if c.None? then None
      else
        var (w1, cv) := c.value;
        if cv.Failure? then Some((w1, Failure(cv.error)))
        else
          var call := h.builder(f.builders[name], BuilderArgs(cv.value));
          Some((w1, if call.Failure?
                    then Failure(EvalError(line, column, "Error calling builder function " + name + ": " + call.error))
                    else Success(Display(call.value, h.number))))
  }

  /** A fragment reference: a child is made and, with the content (if any)
      as its `content` metadata, evaluated. */
  function EvalFragmentRef(h: Host, w: World, y: FragId, name: string, content: string, line: int, column: int,
                           fuel: nat): (r: Option<(World, Result<string, EvalError>)>)
    requires Valid(w) && y in w.frags && fuel > 0
    ensures r.Some? ==> Valid(r.value.0) && Keeps(w, r.value.0, y + 1)
    decreases fuel, 1
  {
    var (w1, child) := MakeChild(w, y, name, h.load(name));
    if content == "" then
      var res := EvalFragment(h, w1, child, fuel - 1);
      if res.None? then None
      else
        KeepsTrans(w, w1, res.value.0, y + 1, child, y + 1);
        Some((res.value.0, Success(res.value.1)))
    else
      EvalChildWithContent(h, w, w1, y, child, name, content, line, column, fuel)
  }

  function EvalChildWithContent(h: Host, w: World, w1: World, y: FragId, child: FragId, name: string, content: string,
                                line: int, column: int, fuel: nat): (r: Option<(World, Result<string, EvalError>)>)
    requires Valid(w) && y in w.frags && fuel > 0
    requires Valid(w1) && Keeps(w, w1, y + 1) && child in w1.frags && child > y && y in w1.frags
    ensures r.Some? ==> Valid(r.value.0) && Keeps(w, r.value.0, y + 1)
    decreases fuel, 0
  {
    var c := Content(h, w1, y, content, "fragment", name, line, column, fuel - 1);
    if c.None? then None
    else
      var (w2, cv) := c.value;
      KeepsTrans(w, w1, w2, y + 1, y + 1, y + 1);
      if cv.Failure? then Some((w2, Failure(cv.error)))
      else
        assert child in w2.frags;
        WithContentKeepsValid(w2, child, cv.value);
        var w3 := WithContent(w2, child, cv.value);
        KeepsTrans(w, w2, w3, y + 1, child, y + 1);
        var res := EvalFragment(h, w3, child, fuel - 1);
        if res.None? then None
        else
          KeepsTrans(w, w3, res.value.0, y + 1, child, y + 1);
          Some((res.value.0, Success(res.value.1)))
  }
}
