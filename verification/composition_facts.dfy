/** How fragments compose: what a script leaves behind, how a fragment
    reference evaluates its child, and how a root hands its output to its
    template, down to a page whose script selects a plain template. */
module CompositionFacts {
  import opened Wrappers
  import opened Text
  import opened CoreValue
  import opened Lexer
  import opened Parser
  import opened Fragments
  import opened Evaluation
  import opened EvaluationFacts

  // ----- The script prologue -----

  /** A non-empty script's effect is installed as it says: the fragment's
      local metadata, builders and shared table are what the script left;
      a selected template becomes a new root read from the named file; a
      script error is the one thing logged. */
  lemma RunScriptEffect(h: Host, w: World, id: FragId, script: string)
    requires Valid(w) && id in w.frags && w.frags[id].shared in w.tables && script != ""
    ensures var f := w.frags[id];
            var e := h.script(f, w.tables[f.shared], script);
            var r := RunScript(h, w, id, script);
            && r.frags[id].local == e.local && r.frags[id].builders == e.builders
            && r.tables[f.shared] == e.shared
            && (e.template.None? ==> r.frags[id].template == f.template)
            && (e.template.Some? ==>
                  && r.frags[id].template.Some?
                  && var t := r.frags[id].template.value;
                     && t !in w.frags && t in r.frags
                     && r.frags[t] == Fragment(e.template.value, TemplateKind, h.load(e.template.value), 0, None,
                                               map[], r.frags[t].shared, Pending, map[], None))
            && r.log == w.log + (if e.error.None? then [] else [ScriptFailed(f.name, e.error.value)])
  {
  }

  /** Preparing a fragment marks it evaluating and runs its script on
      that record. */
  lemma PrepareRuns(h: Host, w: World, y: FragId)
    requires Valid(w) && y in w.frags
    ensures var w1 := w.(frags := w.frags[y := w.frags[y].(state := Evaluating)]);
            && Valid(w1) && y in w1.frags
            && Prepare(h, w, y).0 == RunScript(h, w1, y, SplitCode(w.frags[y].code).0)
  {
    var w0 := SetState(w, y, Pending);
    var w1 := SetState(w0, y, Evaluating);
    var g := w.frags[y].(state := Evaluating);
    assert w0.frags[y].(state := Evaluating) == g;
    assert w1.frags == w.frags[y := g] by {
      MapOverwrite(w.frags, y, w.frags[y].(state := Pending), g);
    }
    assert w1 == w.(frags := w.frags[y := g]);
  }

  // ----- Fragment references -----

  /** The child a fragment reference makes: a new fragment one level down,
      sharing the referring fragment's table, with no metadata of its own. */
  lemma ReferencedChild(h: Host, w: World, y: FragId, name: string)
    requires Valid(w) && y in w.frags
    ensures var (w1, c) := MakeChild(w, y, name, h.load(name));
            && c !in w.frags && c in w1.frags && y < c
            && w1.frags[c].parent == Some(y) && w1.frags[c].depth == w.frags[y].depth + 1
            && w1.frags[c].shared == w.frags[y].shared && w1.frags[c].local == map[]
            && w1.frags[c].code == h.load(name) && w1.frags[c].state == Pending
  {
  }

  /** A fragment reference without content evaluates the new child and
      shows the child's output. */
  lemma FragmentRefWithoutContent(h: Host, w: World, y: FragId, name: string, line: int, column: int, fuel: nat)
    requires Valid(w) && y in w.frags && fuel > 0
    ensures var (w1, c) := MakeChild(w, y, name, h.load(name));
            EvalFragmentRef(h, w, y, name, "", line, column, fuel)
            == var res := EvalFragment(h, w1, c, fuel - 1);
               if res.None? then None else Some((res.value.0, Success(res.value.1)))
  {
  }

  /** With content, the content is evaluated in the referring fragment
      first; its error (a parse error included) is the reference's error,
      and otherwise the child is evaluated with the content as its
      `CONTENT` and its output is shown. */
  lemma FragmentRefWithContent(h: Host, w: World, y: FragId, name: string, content: string,
                               line: int, column: int, fuel: nat)
    requires Valid(w) && y in w.frags && fuel > 0 && content != ""
    ensures var (w1, c) := MakeChild(w, y, name, h.load(name));
            var cv := Content(h, w1, y, content, "fragment", name, line, column, fuel - 1);
            && (cv.Some? && cv.value.1.Failure? ==>
                  EvalFragmentRef(h, w, y, name, content, line, column, fuel) == Some((cv.value.0, cv.value.1)))
            && (cv.Some? && cv.value.1.Success? ==>
                  && c in cv.value.0.frags
                  && var w3 := WithContent(cv.value.0, c, cv.value.1.value);
                     && Valid(w3) && w3.frags[c].local["CONTENT"] == Str(cv.value.1.value)
                     && EvalFragmentRef(h, w, y, name, content, line, column, fuel)
                        == var res := EvalFragment(h, w3, c, fuel - 1);
                           if res.None? then None else Some((res.value.0, Success(res.value.1))))
  {
    var (w1, c) := MakeChild(w, y, name, h.load(name));
    var cv := Content(h, w1, y, content, "fragment", name, line, column, fuel - 1);
    if cv.Some? && cv.value.1.Failure? {
      ChildContentFails(h, w, w1, y, c, name, content, line, column, fuel);
    } else if cv.Some? {
      ChildContentSucceeds(h, w, w1, y, c, name, content, line, column, fuel);
    }
  }

  lemma ChildContentFails(h: Host, w: World, w1: World, y: FragId, c: FragId, name: string, content: string,
                          line: int, column: int, fuel: nat)
    requires Valid(w) && y in w.frags && fuel > 0
    requires Valid(w1) && Keeps(w, w1, y + 1) && c in w1.frags && c > y && y in w1.frags
    requires var cv := Content(h, w1, y, content, "fragment", name, line, column, fuel - 1);
             cv.Some? && cv.value.1.Failure?
    ensures EvalChildWithContent(h, w, w1, y, c, name, content, line, column, fuel)
            == Content(h, w1, y, content, "fragment", name, line, column, fuel - 1)
  {
  }

  lemma ChildContentSucceeds(h: Host, w: World, w1: World, y: FragId, c: FragId, name: string, content: string,
                             line: int, column: int, fuel: nat)
    requires Valid(w) && y in w.frags && fuel > 0
    requires Valid(w1) && Keeps(w, w1, y + 1) && c in w1.frags && c > y && y in w1.frags
    requires var cv := Content(h, w1, y, content, "fragment", name, line, column, fuel - 1);
             cv.Some? && cv.value.1.Success?
    ensures var cv := Content(h, w1, y, content, "fragment", name, line, column, fuel - 1);
            && c in cv.value.0.frags
            && var w3 := WithContent(cv.value.0, c, cv.value.1.value);
               && Valid(w3) && w3.frags[c].local["CONTENT"] == Str(cv.value.1.value)
               && EvalChildWithContent(h, w, w1, y, c, name, content, line, column, fuel)
                  == var res := EvalFragment(h, w3, c, fuel - 1);
                     if res.None? then None else Some((res.value.0, Success(res.value.1)))
  {
    var (w2, v) := Content(h, w1, y, content, "fragment", name, line, column, fuel - 1).value;
    KeepsTrans(w, w1, w2, y + 1, y + 1, y + 1);
    WithContentKeepsValid(w2, c, v.value);
    var w3 := WithContent(w2, c, v.value);
    KeepsTrans(w, w2, w3, y + 1, c, y + 1);
    var res := EvalFragment(h, w3, c, fuel - 1);
    if res.Some? {
      KeepsTrans(w, w3, res.value.0, y + 1, c, y + 1);
    }
  }

  /** So a reference whose content does not parse is an error at the
      reference, and the child is never evaluated. */
  lemma FragmentRefUnparsableContent(h: Host, w: World, y: FragId, name: string, content: string,
                                     line: int, column: int, fuel: nat)
    requires Valid(w) && y in w.frags && fuel > 0
    requires content != "" && ParseCode(content).Failure?
    ensures EvalFragmentRef(h, w, y, name, content, line, column, fuel)
            == Some((MakeChild(w, y, name, h.load(name)).0,
                     Failure(EvalError(line, column, "Error parsing content in fragment " + name + ": "
                                                     + ParseErrorText(ParseCode(content).error)))))
  {
    var (w1, c) := MakeChild(w, y, name, h.load(name));
    var cv := Content(h, w1, y, content, "fragment", name, line, column, fuel - 1);
    FragmentParseErrorText(name);
    FragmentRefWithContent(h, w, y, name, content, line, column, fuel);
  }

  lemma FragmentParseErrorText(name: string)
    ensures "Error parsing content in " + "fragment" + " " + name == "Error parsing content in fragment " + name
  {
    assert "Error parsing content in " + "fragment" + " " == "Error parsing content in fragment ";
  }

  // ----- Templates -----

  /** A root with a template: concluding hands the root's table and its
      output (as `CONTENT`) to the template, and the result is the
      template's evaluation; the root itself is not cached. */
  lemma ConcludeWithTemplate(h: Host, w: World, y: FragId, out: string, fuel: nat)
    requires Valid(w) && y in w.frags && w.frags[y].template.Some? && w.frags[y].depth == 0
    ensures var w4 := SetState(w, y, Evaluated);
            var t := w.frags[y].template.value;
            && t in w4.frags && y < t
            && var w5 := HandToTemplate(w4, y, t, out);
               && w5.frags[t].shared == w.frags[y].shared
               && w5.frags[t].local["CONTENT"] == Str(out)
               && Conclude(h, w, y, out, fuel) == (if fuel == 0 then None else EvalFragment(h, w5, t, fuel - 1))
    ensures var r := Conclude(h, w, y, out, fuel);
            r.Some? ==> NotNewlyCached(w, r.value.0, y)
  {
    assert FragOk(w, y);
  }

  /** Code that is plain text: no separator, no special character, and
      something left once trimmed. */
  predicate PlainCode(code: string) {
    && !Contains(code, Separator)
    && (forall i :: 0 <= i < |code| ==> !IsSpecial(code[i]))
    && TrimSpace(code) != ""
  }

  /** The tail of a page: a root with a plain-text template concludes with
      the template's trimmed text; the template is cached under its name,
      the root is not, and nothing is logged. */
  lemma PlainTemplateConcludes(h: Host, w: World, y: FragId, out: string, fuel: nat)
    requires Valid(w) && y in w.frags && w.frags[y].template.Some? && w.frags[y].depth == 0 && fuel > 1
    requires var t := w.frags[y].template.value;
             && t in w.frags && t != y
             && w.frags[t].template.None? && PlainCode(w.frags[t].code)
    ensures var t := w.frags[y].template.value;
            var r := Conclude(h, w, y, out, fuel);
            && r.Some? && r.value.1 == TrimSpace(w.frags[t].code)
            && r.value.0.frags[y].state == Evaluated && r.value.0.frags[y].template == Some(t)
            && NotNewlyCached(w, r.value.0, y)
            && w.frags[t].name in r.value.0.cache && r.value.0.cache[w.frags[t].name] == t
            && r.value.0.log == w.log
  {
    var t := w.frags[y].template.value;
    ConcludeWithTemplate(h, w, y, out, fuel);
    HandOffKeepsTemplate(w, y, out);
    PlainTextFragment(h, HandToTemplate(SetState(w, y, Evaluated), y, t, out), t, fuel - 1);
  }

  /** Handing over changes only the template's table and `CONTENT`: its
      name, code and (absent) template of its own stay. */
  lemma HandOffKeepsTemplate(w: World, y: FragId, out: string)
    requires Valid(w) && y in w.frags && w.frags[y].template.Some?
    requires var t := w.frags[y].template.value; t in w.frags && y < t
    ensures var t := w.frags[y].template.value;
            var w5 := HandToTemplate(SetState(w, y, Evaluated), y, t, out);
            && w5.frags[t].name == w.frags[t].name && w5.frags[t].code == w.frags[t].code
            && w5.frags[t].template == w.frags[t].template
            && w5.log == w.log
  {
  }

  /** The conditions of a page: a root whose script (run without error)
      selects a template, whose body is plain text, and whose template is
      plain text too. */
  predicate PlainPage(h: Host, w: World, y: FragId, name: string)
    requires y in w.frags && w.frags[y].shared in w.tables
  {
    var f := w.frags[y];
    var (script, body) := SplitCode(f.code);
    && f.depth == 0
    && script != ""
    && (forall i :: 0 <= i < |body| ==> !IsSpecial(body[i])) && TrimSpace(body) != ""
    && PlainCode(h.load(name))
    && h.script(f.(state := Evaluating), w.tables[f.shared], script).template == Some(name)
    && h.script(f.(state := Evaluating), w.tables[f.shared], script).error.None?
  }

  /** Preparing such a page runs its script, which makes and links the
      template, and parses the body to one text node. */
  lemma PlainPagePrepares(h: Host, w: World, y: FragId, name: string)
    requires Valid(w) && y in w.frags && w.frags[y].shared in w.tables && PlainPage(h, w, y, name)
    ensures var (w2, parsed) := Prepare(h, w, y);
            && parsed == Success([TextNode(TrimSpace(SplitCode(w.frags[y].code).1), 1, 1)])
            && w2.frags[y].depth == 0 && w2.frags[y].template.Some?
            && var t := w2.frags[y].template.value;
               && t !in w.frags && t in w2.frags && t != y
               && w2.frags[t].template.None? && w2.frags[t].name == name && w2.frags[t].code == h.load(name)
               && w2.log == w.log
  {
    var f := w.frags[y];
    var (script, body) := SplitCode(f.code);
    PrepareRuns(h, w, y);
    var w1 := w.(frags := w.frags[y := f.(state := Evaluating)]);
    assert FragOk(w1, y);
    RunScriptEffect(h, w1, y, script);
    SplitCodeMeaning(f.code);
    PlainCodeParses(body);
  }

  /** A whole page evaluates to its template's trimmed text. The template
      is made, linked and cached under its name; the root is not cached;
      nothing is logged. */
  lemma TemplatePage(h: Host, w: World, y: FragId, name: string, fuel: nat)
    requires Valid(w) && y in w.frags && w.frags[y].shared in w.tables && fuel > 1
    requires PlainPage(h, w, y, name)
    ensures var r := EvalFragment(h, w, y, fuel);
            && r.Some? && r.value.1 == TrimSpace(h.load(name))
            && var f' := r.value.0.frags[y];
               && f'.state == Evaluated && f'.template.Some?
               && f'.template.value !in w.frags
               && name in r.value.0.cache && r.value.0.cache[name] == f'.template.value
               && NotNewlyCached(w, r.value.0, y)
               && r.value.0.log == w.log
  {
    PlainPagePrepares(h, w, y, name);
    var (w2, parsed) := Prepare(h, w, y);
    var s := TrimSpace(SplitCode(w.frags[y].code).1);
    assert FragOk(w2, y);
    SingleTextBody(h, w2, y, s, fuel);
    ParsedBodyConcludes(h, w, y, s, fuel);
    PlainTemplateConcludes(h, w2, y, s, fuel);
    var r := Conclude(h, w2, y, s, fuel).value.0;
    assert NotNewlyCached(w, w2, y);
    NotNewlyCachedTrans(w, w2, r, y);
  }

  /** A fragment whose body parses, and whose node loop leaves the world
      as it was, concludes with the loop's output. */
  lemma ParsedBodyConcludes(h: Host, w: World, y: FragId, s: string, fuel: nat)
    requires Valid(w) && y in w.frags && fuel > 0
    requires var (w2, parsed) := Prepare(h, w, y);
             parsed.Success? && EvalBody(h, w2, y, parsed.value, fuel) == Some((w2, s))
    ensures EvalFragment(h, w, y, fuel) == Conclude(h, Prepare(h, w, y).0, y, s, fuel)
  {
    EvalFragmentParsed(h, w, y, fuel);
  }
}
