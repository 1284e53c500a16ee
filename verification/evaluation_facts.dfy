/** What evaluation promises, stated against reference definitions that do
    not go through the evaluator: the outcome of the nodes that need no
    host call, the error order of builder references, the handling of an
    unparsable body, and a fragment of plain text end to end. */
module EvaluationFacts {
  import opened Wrappers
  import opened Text
  import opened CoreValue
  import opened Lexer
  import opened Parser
  import opened Fragments
  import opened Evaluation

  /** Nodes whose evaluation needs neither a builder nor another fragment. */
  predicate Plain(n: Node) {
    n.TextNode? || n.MetaRefNode?
  }

  /** What a plain node yields, read straight off the fragment's two
      metadata tables: text is itself; a key is shown from the shared table
      when that is consulted and holds it, else from the local table, else
      it is a missing-key error at the reference. */
  function PlainValue(h: Host, local: Entries, shared: Entries, n: Node): Result<string, EvalError>
    requires Plain(n)
  {
    match n
    case TextNode(text, _, _) => Success(text)
    case MetaRefNode(key, line, column) =>
      if h.order.SharedThenLocal? && key in shared then Success(Display(shared[key], h.number))
      else if key in local then Success(Display(local[key], h.number))
      else Failure(EvalError(line, column, MissingKey(key)))
  }

  /** The outcomes of a sequence of plain nodes. */
  function PlainValues(h: Host, local: Entries, shared: Entries, nodes: seq<Node>): (vs: seq<Result<string, EvalError>>)
    requires forall i :: 0 <= i < |nodes| ==> Plain(nodes[i])
    ensures |vs| == |nodes|
    ensures forall i :: 0 <= i < |nodes| ==> vs[i] == PlainValue(h, local, shared, nodes[i])
  {
    if |nodes| == 0 then [] else [PlainValue(h, local, shared, nodes[0])] + PlainValues(h, local, shared, nodes[1..])
  }

  /** The successful outputs, concatenated in order. */
  function Joined(vs: seq<Result<string, EvalError>>): string {
    if |vs| == 0 then "" else (if vs[0].Success? then vs[0].value else "") + Joined(vs[1..])
  }

  /** One log entry per failure, in order. */
  function Failures(vs: seq<Result<string, EvalError>>): seq<LogEntry> {
    if |vs| == 0 then [] else (if vs[0].Failure? then [NodeFailed(vs[0].error)] else []) + Failures(vs[1..])
  }

  /** A plain node is evaluated without touching the world, to its
      reference value. */
  lemma PlainNodeValue(h: Host, w: World, y: FragId, n: Node, fuel: nat)
    requires Valid(w) && y in w.frags && w.frags[y].shared in w.tables
    requires Plain(n) && fuel > 0
    ensures EvalNode(h, w, y, n, fuel)
            == Some((w, PlainValue(h, w.frags[y].local, w.tables[w.frags[y].shared], n)))
  {
  }

  /** The world after one node of the loop: a failure is logged. */
  function AfterNode(w: World, v: Result<string, EvalError>): World {
    if v.Failure? then Log(w, NodeFailed(v.error)) else w
  }

  /** What one node adds to the loop's output: a failure adds nothing. */
  function NodeOutput(v: Result<string, EvalError>): string {
    if v.Success? then v.value else ""
  }

  /** One step of the node loop, for any node: the rest of the body runs
      in the world the node left, with its failure logged. */
  lemma EvalBodyStep(h: Host, w: World, y: FragId, nodes: seq<Node>, fuel: nat, w1: World, v: Result<string, EvalError>)
    requires Valid(w) && y in w.frags && |nodes| > 0
    requires EvalNode(h, w, y, nodes[0], fuel) == Some((w1, v))
    ensures Valid(AfterNode(w1, v)) && y in AfterNode(w1, v).frags
    ensures EvalBody(h, w, y, nodes, fuel)
            == var rest := EvalBody(h, AfterNode(w1, v), y, nodes[1..], fuel);
               if rest.None? then None
               else Some((rest.value.0, NodeOutput(v) + rest.value.1))
  {
    ValidFrame(w1, AfterNode(w1, v));
  }

  /** Logging the first outcome's failure, then the rest's, logs them all. */
  lemma FailuresCons(w: World, vs: seq<Result<string, EvalError>>)
    requires |vs| > 0
    ensures var w2 := if vs[0].Failure? then Log(w, NodeFailed(vs[0].error)) else w;
            && w2.(log := w2.log + Failures(vs[1..])) == w.(log := w.log + Failures(vs))
            && (if vs[0].Success? then vs[0].value else "") + Joined(vs[1..]) == Joined(vs)
  {
    var rest := Failures(vs[1..]);
    if vs[0].Failure? {
      assert Failures(vs) == [NodeFailed(vs[0].error)] + rest;
      AppendAssoc(w.log, [NodeFailed(vs[0].error)], rest);
    } else {
      assert Failures(vs) == [] + rest == rest;
    }
  }

  /** The node loop over plain nodes: the output is the concatenation of
      the successes, every failure is logged in order, and nothing else in
      the world changes. */
  lemma {:induction false} EvalBodyPlain(h: Host, w: World, y: FragId, nodes: seq<Node>, fuel: nat)
    requires Valid(w) && y in w.frags && w.frags[y].shared in w.tables
    requires fuel > 0 && forall i :: 0 <= i < |nodes| ==> Plain(nodes[i])
    ensures var vs := PlainValues(h, w.frags[y].local, w.tables[w.frags[y].shared], nodes);
            EvalBody(h, w, y, nodes, fuel) == Some((w.(log := w.log + Failures(vs)), Joined(vs)))
    decreases |nodes|
  {
    var local, shared := w.frags[y].local, w.tables[w.frags[y].shared];
    var vs := PlainValues(h, local, shared, nodes);
    if |nodes| == 0 {
      assert w.(log := w.log + []) == w;
    } else {
      var v := vs[0];
      var w2 := if v.Failure? then Log(w, NodeFailed(v.error)) else w;
      assert Valid(w2) && EvalBody(h, w, y, nodes, fuel)
               == var rest := EvalBody(h, w2, y, nodes[1..], fuel);
                  if rest.None? then None
                  else Some((rest.value.0, (if v.Success? then v.value else "") + rest.value.1)) by {
        PlainNodeValue(h, w, y, nodes[0], fuel);
        EvalBodyStep(h, w, y, nodes, fuel, w, v);
      }
      assert w2.frags == w.frags && w2.tables == w.tables;
      EvalBodyPlain(h, w2, y, nodes[1..], fuel);
      assert vs[1..] == PlainValues(h, local, shared, nodes[1..]);
      FailuresCons(w, vs);
    }
  }

  /** The node loop, whatever its nodes (fragment and builder references
      included): once the nodes before `k` have run, node `k` runs in the
      world they left; a failure is logged after theirs and adds nothing,
      a success appends its output to theirs. */
  lemma {:induction false} BodyPrefixStep(h: Host, w: World, y: FragId, nodes: seq<Node>, fuel: nat, k: nat,
                                          wk: World, s: string, w1: World, v: Result<string, EvalError>)
    requires Valid(w) && y in w.frags && k < |nodes|
    requires EvalBody(h, w, y, nodes[..k], fuel) == Some((wk, s))
    requires EvalNode(h, wk, y, nodes[k], fuel) == Some((w1, v))
    ensures EvalBody(h, w, y, nodes[..k + 1], fuel) == Some((AfterNode(w1, v), s + NodeOutput(v)))
    decreases k
  {
    var pre := nodes[..k + 1];
    PrefixTail(nodes, k + 1);
    if k == 0 {
      BodyFirstNode(h, w, y, nodes, fuel, wk, s, w1, v);
    } else {
      var u1, v0, s1 := BodyPrefixHead(h, w, y, nodes, fuel, k, wk, s);
      assert nodes[1..][k - 1] == nodes[k];
      BodyPrefixStep(h, AfterNode(u1, v0), y, nodes[1..], fuel, k - 1, wk, s1, w1, v);
      BodyConsStep(h, w, y, pre, fuel, u1, v0, AfterNode(w1, v), s1 + NodeOutput(v));
      AppendAssoc(NodeOutput(v0), s1, NodeOutput(v));
    }
  }

  lemma BodyFirstNode(h: Host, w: World, y: FragId, nodes: seq<Node>, fuel: nat,
                      wk: World, s: string, w1: World, v: Result<string, EvalError>)
    requires Valid(w) && y in w.frags && 0 < |nodes|
    requires EvalBody(h, w, y, nodes[..0], fuel) == Some((wk, s))
    requires EvalNode(h, wk, y, nodes[0], fuel) == Some((w1, v))
    ensures EvalBody(h, w, y, nodes[..1], fuel) == Some((AfterNode(w1, v), s + NodeOutput(v)))
  {
    assert nodes[..0] == [];
    assert wk == w && s == "";
    BodyOneNode(h, w, y, nodes[..1], fuel, w1, v);
    assert s + NodeOutput(v) == NodeOutput(v);
  }

  /** A node loop over a non-empty prefix began with its first node, and
      went on in the world that node left. */
  lemma BodyPrefixHead(h: Host, w: World, y: FragId, nodes: seq<Node>, fuel: nat, k: nat, wk: World, s: string)
    returns (w1: World, v0: Result<string, EvalError>, s1: string)
    requires Valid(w) && y in w.frags && 0 < k <= |nodes|
    requires EvalBody(h, w, y, nodes[..k], fuel) == Some((wk, s))
    ensures EvalNode(h, w, y, nodes[0], fuel) == Some((w1, v0))
    ensures Valid(AfterNode(w1, v0)) && y in AfterNode(w1, v0).frags
    ensures EvalBody(h, AfterNode(w1, v0), y, nodes[1..][..k - 1], fuel) == Some((wk, s1))
    ensures s == NodeOutput(v0) + s1
  {
    var e := EvalNode(h, w, y, nodes[0], fuel);
    PrefixTail(nodes, k);
    w1 := e.value.0;
    v0 := e.value.1;
    EvalBodyStep(h, w, y, nodes[..k], fuel, w1, v0);
    s1 := EvalBody(h, AfterNode(w1, v0), y, nodes[1..][..k - 1], fuel).value.1;
  }

  lemma BodyConsStep(h: Host, w: World, y: FragId, nodes: seq<Node>, fuel: nat,
                     w1: World, v: Result<string, EvalError>, w2: World, t: string)
    requires Valid(w) && y in w.frags && |nodes| > 0
    requires EvalNode(h, w, y, nodes[0], fuel) == Some((w1, v))
    requires Valid(AfterNode(w1, v)) && y in AfterNode(w1, v).frags
    requires EvalBody(h, AfterNode(w1, v), y, nodes[1..], fuel) == Some((w2, t))
    ensures EvalBody(h, w, y, nodes, fuel) == Some((w2, NodeOutput(v) + t))
  {
    EvalBodyStep(h, w, y, nodes, fuel, w1, v);
  }

  lemma BodyOneNode(h: Host, w: World, y: FragId, nodes: seq<Node>, fuel: nat, w1: World, v: Result<string, EvalError>)
    requires Valid(w) && y in w.frags && |nodes| == 1
    requires EvalNode(h, w, y, nodes[0], fuel) == Some((w1, v))
    ensures EvalBody(h, w, y, nodes, fuel) == Some((AfterNode(w1, v), NodeOutput(v)))
  {
    EvalBodyStep(h, w, y, nodes, fuel, w1, v);
    assert nodes[1..] == [];
    assert EvalBody(h, AfterNode(w1, v), y, [], fuel) == Some((AfterNode(w1, v), ""));
    assert NodeOutput(v) + "" == NodeOutput(v);
  }

  /** Outcomes without a failure log nothing. */
  lemma {:induction false} NoFailures(vs: seq<Result<string, EvalError>>)
    requires forall i :: 0 <= i < |vs| ==> vs[i].Success?
    ensures Failures(vs) == []
  {
    if |vs| > 0 {
      NoFailures(vs[1..]);
    }
  }

  /** A body of plain nodes none of which fails leaves the world exactly as
      it was and outputs the nodes' outputs in order. */
  lemma CleanPlainBody(h: Host, w: World, y: FragId, nodes: seq<Node>, fuel: nat)
    requires Valid(w) && y in w.frags && w.frags[y].shared in w.tables && fuel > 0
    requires forall i :: 0 <= i < |nodes| ==>
               Plain(nodes[i]) && PlainValue(h, w.frags[y].local, w.tables[w.frags[y].shared], nodes[i]).Success?
    ensures EvalBody(h, w, y, nodes, fuel)
            == Some((w, Joined(PlainValues(h, w.frags[y].local, w.tables[w.frags[y].shared], nodes))))
  {
    var vs := PlainValues(h, w.frags[y].local, w.tables[w.frags[y].shared], nodes);
    EvalBodyPlain(h, w, y, nodes, fuel);
    NoFailures(vs);
    assert w.(log := w.log + []) == w;
  }

  /** One step of the content loop, for a node that leaves the world alone. */
  lemma EvalContentStep(h: Host, w: World, y: FragId, nodes: seq<Node>, what: string, name: string, fuel: nat,
                        v: Result<string, EvalError>)
    requires Valid(w) && y in w.frags && |nodes| > 0
    requires EvalNode(h, w, y, nodes[0], fuel) == Some((w, v))
    ensures v.Failure? ==>
              EvalContent(h, w, y, nodes, what, name, fuel)
              == Some((w, Failure(ContentNodeError(nodes[0], what, name, v.error))))
    ensures v.Success? ==>
              EvalContent(h, w, y, nodes, what, name, fuel)
              == var rest := EvalContent(h, w, y, nodes[1..], what, name, fuel);
                 if rest.None? then None
                 else Some((rest.value.0, if rest.value.1.Failure? then rest.value.1
                                          else Success(v.value + rest.value.1.value)))
  {
  }

  /** One step of the content loop, for any node. */
  lemma EvalContentCons(h: Host, w: World, y: FragId, nodes: seq<Node>, what: string, name: string, fuel: nat,
                        w1: World, v: Result<string, EvalError>)
    requires Valid(w) && y in w.frags && |nodes| > 0
    requires EvalNode(h, w, y, nodes[0], fuel) == Some((w1, v))
    ensures Valid(w1) && y in w1.frags
    ensures v.Failure? ==>
              EvalContent(h, w, y, nodes, what, name, fuel)
              == Some((w1, Failure(ContentNodeError(nodes[0], what, name, v.error))))
    ensures v.Success? ==>
              EvalContent(h, w, y, nodes, what, name, fuel)
              == var rest := EvalContent(h, w1, y, nodes[1..], what, name, fuel);
                 if rest.None? then None
                 else Some((rest.value.0, if rest.value.1.Failure? then rest.value.1
                                          else Success(v.value + rest.value.1.value)))
  {
  }

  /** A content loop over a non-empty prefix that succeeded began with a
      success of the first node, followed by a success over the rest. */
  lemma ContentPrefixHead(h: Host, w: World, y: FragId, nodes: seq<Node>, what: string, name: string, fuel: nat,
                          k: nat, wk: World, s: string)
    returns (w1: World, s0: string, s1: string)
    requires Valid(w) && y in w.frags && 0 < k <= |nodes|
    requires EvalContent(h, w, y, nodes[..k], what, name, fuel) == Some((wk, Success(s)))
    ensures EvalNode(h, w, y, nodes[0], fuel) == Some((w1, Success(s0)))
    ensures Valid(w1) && y in w1.frags
    ensures EvalContent(h, w1, y, nodes[1..][..k - 1], what, name, fuel) == Some((wk, Success(s1)))
    ensures s == s0 + s1
  {
    var e := EvalNode(h, w, y, nodes[0], fuel);
    PrefixTail(nodes, k);
    w1 := e.value.0;
    s0 := e.value.1.value;
    s1 := EvalContent(h, w1, y, nodes[1..][..k - 1], what, name, fuel).value.1.value;
  }

  /** The content loop, whatever its nodes: once the nodes before `k` have
      all succeeded, a failure of node `k`, evaluated in the world they
      left, is the loop's error, placed at that node. */
  lemma {:induction false} ContentFirstFailure(h: Host, w: World, y: FragId, nodes: seq<Node>, what: string,
                                               name: string, fuel: nat, k: nat, wk: World, s: string,
                                               w2: World, err: EvalError)
    requires Valid(w) && y in w.frags && k < |nodes|
    requires EvalContent(h, w, y, nodes[..k], what, name, fuel) == Some((wk, Success(s)))
    requires EvalNode(h, wk, y, nodes[k], fuel) == Some((w2, Failure(err)))
    ensures EvalContent(h, w, y, nodes, what, name, fuel)
            == Some((w2, Failure(ContentNodeError(nodes[k], what, name, err))))
    decreases k
  {
    if k == 0 {
      assert nodes[..k] == [];
      assert wk == w;
      EvalContentCons(h, w, y, nodes, what, name, fuel, w2, Failure(err));
    } else {
      var w1, s0, s1 := ContentPrefixHead(h, w, y, nodes, what, name, fuel, k, wk, s);
      assert nodes[1..][k - 1] == nodes[k];
      ContentFirstFailure(h, w1, y, nodes[1..], what, name, fuel, k - 1, wk, s1, w2, err);
      EvalContentCons(h, w, y, nodes, what, name, fuel, w1, Success(s0));
    }
  }

  /** Likewise a success of node `k` extends the loop's output in order:
      the content is the nodes' outputs concatenated. */
  lemma {:induction false} ContentPrefixOutput(h: Host, w: World, y: FragId, nodes: seq<Node>, what: string,
                                               name: string, fuel: nat, k: nat, wk: World, s: string,
                                               w2: World, out: string)
    requires Valid(w) && y in w.frags && k < |nodes|
    requires EvalContent(h, w, y, nodes[..k], what, name, fuel) == Some((wk, Success(s)))
    requires EvalNode(h, wk, y, nodes[k], fuel) == Some((w2, Success(out)))
    ensures EvalContent(h, w, y, nodes[..k + 1], what, name, fuel) == Some((w2, Success(s + out)))
    decreases k
  {
    var pre := nodes[..k + 1];
    PrefixTail(nodes, k + 1);
    if k == 0 {
      assert nodes[..k] == [];
      assert wk == w && s == "";
      ContentOneNode(h, w, y, pre, what, name, fuel, w2, out);
      assert s + out == out;
    } else {
      var w1, s0, s1 := ContentPrefixHead(h, w, y, nodes, what, name, fuel, k, wk, s);
      assert nodes[1..][k - 1] == nodes[k];
      ContentPrefixOutput(h, w1, y, nodes[1..], what, name, fuel, k - 1, wk, s1, w2, out);
      ContentConsSuccess(h, w, y, pre, what, name, fuel, w1, s0, w2, s1 + out);
      AppendAssoc(s0, s1, out);
    }
  }

  lemma AppendAssoc<T>(a: seq<T>, b: seq<T>, c: seq<T>)
    ensures a + (b + c) == (a + b) + c
  {
  }

  lemma PrefixTail<T>(s: seq<T>, k: nat)
    requires 0 < k <= |s|
    ensures s[..k][0] == s[0] && s[..k][1..] == s[1..][..k - 1]
  {
  }

  lemma ContentConsSuccess(h: Host, w: World, y: FragId, nodes: seq<Node>, what: string, name: string, fuel: nat,
                           w1: World, s0: string, w2: World, t: string)
    requires Valid(w) && y in w.frags && |nodes| > 0
    requires EvalNode(h, w, y, nodes[0], fuel) == Some((w1, Success(s0)))
    requires Valid(w1) && y in w1.frags
    requires EvalContent(h, w1, y, nodes[1..], what, name, fuel) == Some((w2, Success(t)))
    ensures EvalContent(h, w, y, nodes, what, name, fuel) == Some((w2, Success(s0 + t)))
  {
    EvalContentCons(h, w, y, nodes, what, name, fuel, w1, Success(s0));
  }

  lemma ContentOneNode(h: Host, w: World, y: FragId, nodes: seq<Node>, what: string, name: string, fuel: nat,
                       w2: World, out: string)
    requires Valid(w) && y in w.frags && |nodes| == 1
    requires EvalNode(h, w, y, nodes[0], fuel) == Some((w2, Success(out)))
    ensures EvalContent(h, w, y, nodes, what, name, fuel) == Some((w2, Success(out)))
  {
    EvalContentCons(h, w, y, nodes, what, name, fuel, w2, Success(out));
    assert nodes[1..] == [];
    assert out + "" == out;
  }

  /** A reference reading of the content loop over known outcomes: the
      first failure ends it with an error at its node, otherwise the
      outputs are concatenated. */
  function ContentOutcome(vs: seq<Result<string, EvalError>>, nodes: seq<Node>, what: string, name: string)
    : Result<string, EvalError>
    requires |vs| == |nodes|
  {
    if |vs| == 0 then Success("")
    else if vs[0].Failure? then Failure(ContentNodeError(nodes[0], what, name, vs[0].error))
    else
      var rest := ContentOutcome(vs[1..], nodes[1..], what, name);
      if rest.Failure? then rest else Success(vs[0].value + rest.value)
  }

  /** Without a failure the content is the outputs in order. */
  lemma {:induction false} ContentOutcomeSucceeds(vs: seq<Result<string, EvalError>>, nodes: seq<Node>,
                                                  what: string, name: string)
    requires |vs| == |nodes| && forall i :: 0 <= i < |vs| ==> vs[i].Success?
    ensures ContentOutcome(vs, nodes, what, name) == Success(Joined(vs))
  {
    if |vs| > 0 {
      ContentOutcomeSucceeds(vs[1..], nodes[1..], what, name);
    }
  }

  /** Outcome `k` is the first failure. */
  predicate FirstFailure(vs: seq<Result<string, EvalError>>, k: nat) {
    k < |vs| && (forall i :: 0 <= i < k ==> vs[i].Success?) && vs[k].Failure?
  }

  /** The first failure decides the content's error. */
  lemma {:induction false} ContentOutcomeFails(vs: seq<Result<string, EvalError>>, nodes: seq<Node>,
                                               what: string, name: string, k: nat)
    requires |vs| == |nodes| && FirstFailure(vs, k)
    ensures ContentOutcome(vs, nodes, what, name) == Failure(ContentNodeError(nodes[k], what, name, vs[k].error))
    decreases k
  {
    if k > 0 {
      assert FirstFailure(vs[1..], k - 1) by {
        assert forall i :: 0 <= i < k - 1 ==> vs[1..][i] == vs[i + 1];
      }
      assert nodes[1..][k - 1] == nodes[k] && vs[1..][k - 1] == vs[k];
      ContentOutcomeFails(vs[1..], nodes[1..], what, name, k - 1);
    }
  }

  /** The content loop over plain nodes leaves the world alone and ends as
      the reference reading says. */
  lemma {:induction false} PlainContent(h: Host, w: World, y: FragId, nodes: seq<Node>,
                                        what: string, name: string, fuel: nat)
    requires Valid(w) && y in w.frags && w.frags[y].shared in w.tables && fuel > 0
    requires forall i :: 0 <= i < |nodes| ==> Plain(nodes[i])
    ensures EvalContent(h, w, y, nodes, what, name, fuel)
            == Some((w, ContentOutcome(PlainValues(h, w.frags[y].local, w.tables[w.frags[y].shared], nodes),
                                       nodes, what, name)))
    decreases |nodes|
  {
    var local, shared := w.frags[y].local, w.tables[w.frags[y].shared];
    if |nodes| > 0 {
      var vs := PlainValues(h, local, shared, nodes);
      PlainNodeValue(h, w, y, nodes[0], fuel);
      EvalContentStep(h, w, y, nodes, what, name, fuel, vs[0]);
      if vs[0].Success? {
        PlainContent(h, w, y, nodes[1..], what, name, fuel);
        assert vs[1..] == PlainValues(h, local, shared, nodes[1..]);
      }
    }
  }

  /** The content loop over plain nodes that all succeed: the world is left
      alone and the content is their outputs in order. */
  lemma PlainContentSucceeds(h: Host, w: World, y: FragId, nodes: seq<Node>, what: string, name: string, fuel: nat)
    requires Valid(w) && y in w.frags && w.frags[y].shared in w.tables && fuel > 0
    requires forall i :: 0 <= i < |nodes| ==>
               Plain(nodes[i]) && PlainValue(h, w.frags[y].local, w.tables[w.frags[y].shared], nodes[i]).Success?
    ensures EvalContent(h, w, y, nodes, what, name, fuel)
            == Some((w, Success(Joined(PlainValues(h, w.frags[y].local, w.tables[w.frags[y].shared], nodes)))))
  {
    PlainContent(h, w, y, nodes, what, name, fuel);
    ContentOutcomeSucceeds(PlainValues(h, w.frags[y].local, w.tables[w.frags[y].shared], nodes), nodes, what, name);
  }

  /** The content loop over plain nodes stops at the first one that fails:
      the world is left alone and the error sits at that node's position,
      with the node's own error as the reason. */
  lemma PlainContentFails(h: Host, w: World, y: FragId, nodes: seq<Node>, what: string, name: string,
                          fuel: nat, k: nat)
    requires Valid(w) && y in w.frags && w.frags[y].shared in w.tables && fuel > 0
    requires forall i :: 0 <= i < |nodes| ==> Plain(nodes[i])
    requires FirstFailure(PlainValues(h, w.frags[y].local, w.tables[w.frags[y].shared], nodes), k)
    ensures EvalContent(h, w, y, nodes, what, name, fuel)
            == Some((w, Failure(ContentNodeError(nodes[k], what, name,
                                                 PlainValue(h, w.frags[y].local, w.tables[w.frags[y].shared],
                                                            nodes[k]).error))))
  {
    var vs := PlainValues(h, w.frags[y].local, w.tables[w.frags[y].shared], nodes);
    PlainContent(h, w, y, nodes, what, name, fuel);
    ContentOutcomeFails(vs, nodes, what, name, k);
  }

  /** `Builders` is consulted before anything else: a missing builder is
      an error at the reference even when its content would not parse, and
      nothing is evaluated. */
  lemma MissingBuilderFirst(h: Host, w: World, y: FragId, name: string, content: string,
                            line: int, column: int, fuel: nat)
    requires Valid(w) && y in w.frags && fuel > 0
    requires name !in w.frags[y].builders
    ensures EvalNode(h, w, y, BuilderRefNode(name, content, line, column), fuel)
            == Some((w, Failure(EvalError(line, column, BuilderNotFound(name)))))
  {
  }

  /** A builder referenced without content is called with no arguments,
      and what it returns is shown as the node's output. */
  lemma BuilderWithoutContent(h: Host, w: World, y: FragId, name: string, line: int, column: int, fuel: nat)
    requires Valid(w) && y in w.frags && fuel > 1
    requires name in w.frags[y].builders
    ensures var call := h.builder(w.frags[y].builders[name], []);
            EvalNode(h, w, y, BuilderRefNode(name, "", line, column), fuel)
            == Some((w, if call.Success? then Success(Display(call.value, h.number))
                        else Failure(EvalError(line, column, "Error calling builder function " + name + ": " + call.error))))
  {
  }

  /** A builder referenced with content: the content is parsed and
      evaluated in the referring fragment first, and its error is the
      node's error. Otherwise the builder is called with the evaluated
      content as its one argument (none if it came out empty), and what it
      returns is shown, or its error is reported at the reference. */
  lemma BuilderWithContent(h: Host, w: World, y: FragId, name: string, content: string,
                           line: int, column: int, fuel: nat)
    requires Valid(w) && y in w.frags && fuel > 1 && content != ""
    requires name in w.frags[y].builders
    ensures var cv := Content(h, w, y, content, "builder", name, line, column, fuel - 1);
            var r := EvalNode(h, w, y, BuilderRefNode(name, content, line, column), fuel);
            && (cv.None? ==> r.None?)
            && (cv.Some? && cv.value.1.Failure? ==> r == Some((cv.value.0, Failure(cv.value.1.error))))
            && (cv.Some? && cv.value.1.Success? ==>
                  var v := cv.value.1.value;
                  var call := h.builder(w.frags[y].builders[name], if v == "" then [] else [v]);
                  r == Some((cv.value.0, if call.Success? then Success(Display(call.value, h.number))
                                         else Failure(EvalError(line, column, "Error calling builder function "
                                                                              + name + ": " + call.error)))))
  {
    BuilderNode(h, w, y, name, content, line, column, fuel);
  }

  lemma BuilderNode(h: Host, w: World, y: FragId, name: string, content: string, line: int, column: int, fuel: nat)
    requires Valid(w) && y in w.frags && fuel > 0
    ensures EvalNode(h, w, y, BuilderRefNode(name, content, line, column), fuel)
            == EvalBuilderRef(h, w, y, name, content, line, column, fuel)
  {
  }

  /** Content that does not parse is an error at the builder reference,
      naming the builder and quoting the parse error; the builder is not
      called. */
  lemma BuilderUnparsableContent(h: Host, w: World, y: FragId, name: string, content: string,
                                 line: int, column: int, fuel: nat)
    requires Valid(w) && y in w.frags && fuel > 1
    requires name in w.frags[y].builders && ParseCode(content).Failure?
    ensures EvalNode(h, w, y, BuilderRefNode(name, content, line, column), fuel)
            == Some((w, Failure(EvalError(line, column, "Error parsing content in builder " + name + ": "
                                                        + ParseErrorText(ParseCode(content).error)))))
  {
    BuilderNode(h, w, y, name, content, line, column, fuel);
    BuilderParseErrorText(name, ParseErrorText(ParseCode(content).error));
  }

  lemma BuilderParseErrorText(name: string, e: string)
    ensures "Error parsing content in " + "builder" + " " + name + ": " + e
            == "Error parsing content in builder " + name + ": " + e
  {
    assert "Error parsing content in " + "builder" + " " == "Error parsing content in builder ";
  }

  /** A body that does not parse: the fragment yields the empty string,
      stays `Evaluating`, is not cached, and the parse error is the last
      thing logged. */
  lemma UnparsableBody(h: Host, w: World, y: FragId, fuel: nat)
    requires Valid(w) && y in w.frags && fuel > 0
    requires ParseCode(TrimSpace(SplitCode(w.frags[y].code).1)).Failure?
    ensures var r := EvalFragment(h, w, y, fuel);
            && r.Some? && r.value.1 == ""
            && r.value.0.frags[y].state == Evaluating
            && r.value.0.cache == w.cache
            && |r.value.0.log| > 0
            && r.value.0.log[|r.value.0.log| - 1]
               == ParseFailed(ParseCode(TrimSpace(SplitCode(w.frags[y].code).1)).error)
  {
  }

  lemma MapOverwrite<K, V>(m: map<K, V>, k: K, a: V, b: V)
    ensures m[k := a][k := b] == m[k := b]
  {
  }

  /** Without a script, preparing only marks the fragment evaluating. */
  lemma PrepareWithoutScript(h: Host, w: World, y: FragId)
    requires Valid(w) && y in w.frags && SplitCode(w.frags[y].code).0 == ""
    ensures Prepare(h, w, y).0 == w.(frags := w.frags[y := w.frags[y].(state := Evaluating)])
  {
    var w0 := SetState(w, y, Pending);
    var w1 := SetState(w0, y, Evaluating);
    var g := w.frags[y].(state := Evaluating);
    assert w0.frags[y].(state := Evaluating) == g;
    assert w1.frags == w.frags[y := g] by {
      MapOverwrite(w.frags, y, w.frags[y].(state := Pending), g);
    }
    assert Prepare(h, w, y).0 == w1;
  }

  /** Without a template, concluding marks the fragment evaluated, caches
      it under its name and returns the body's output. */
  lemma ConcludeWithoutTemplate(h: Host, w: World, y: FragId, out: string, fuel: nat)
    requires Valid(w) && y in w.frags && w.frags[y].template.None?
    ensures Conclude(h, w, y, out, fuel)
            == Some((w.(frags := w.frags[y := w.frags[y].(state := Evaluated)],
                        cache := w.cache[w.frags[y].name := y]), out))
  {
  }

  /** A body that parses is run through the node loop and concluded. */
  lemma EvalFragmentParsed(h: Host, w: World, y: FragId, fuel: nat)
    requires Valid(w) && y in w.frags && fuel > 0
    requires Prepare(h, w, y).1.Success?
    ensures var p := Prepare(h, w, y);
            EvalFragment(h, w, y, fuel)
            == var b := EvalBody(h, p.0, y, p.1.value, fuel);
               if b.None? then None
               else var c := Conclude(h, b.value.0, y, b.value.1, fuel);
                    if c.None? then None else c
  {
  }

  /** Code without a separator or a special character is all body, and
      its trimmed form parses to one text node. */
  lemma PlainCodeParses(code: string)
    requires !Contains(code, Separator)
    requires forall i :: 0 <= i < |code| ==> !IsSpecial(code[i])
    requires TrimSpace(code) != ""
    ensures SplitCode(code) == ("", code)
    ensures ParseCode(TrimSpace(code)) == Success([TextNode(TrimSpace(code), 1, 1)])
  {
    SplitCodeMeaning(code);
    var s := TrimSpace(code);
    assert forall i :: 0 <= i < |s| ==> !IsSpecial(s[i]) by {
      TrimSpaceChars(code);
      forall i | 0 <= i < |s| ensures !IsSpecial(s[i]) {
        var j :| 0 <= j < |code| && code[j] == s[i];
      }
    }
    PlainTextIsOneNode(s);
  }

  /** A body of one text node outputs its text and logs nothing. */
  lemma SingleTextBody(h: Host, w: World, y: FragId, s: string, fuel: nat)
    requires Valid(w) && y in w.frags && w.frags[y].shared in w.tables && fuel > 0
    ensures EvalBody(h, w, y, [TextNode(s, 1, 1)], fuel) == Some((w, s))
  {
    var nodes := [TextNode(s, 1, 1)];
    EvalBodyPlain(h, w, y, nodes, fuel);
    var vs := PlainValues(h, w.frags[y].local, w.tables[w.frags[y].shared], nodes);
    assert vs == [Success(s)];
    assert Failures(vs) == [] && Joined(vs) == s;
    assert w.(log := w.log + []) == w;
  }

  /** A fragment whose code is plain text, with no script and no template,
      outputs its trimmed code and is cached under its name. */
  lemma PlainTextFragment(h: Host, w: World, y: FragId, fuel: nat)
    requires Valid(w) && y in w.frags && fuel > 0
    requires w.frags[y].template.None?
    requires var code := w.frags[y].code;
             && !Contains(code, Separator)
             && (forall i :: 0 <= i < |code| ==> !IsSpecial(code[i]))
             && TrimSpace(code) != ""
    ensures var r := EvalFragment(h, w, y, fuel);
            && r.Some? && r.value.1 == TrimSpace(w.frags[y].code)
            && r.value.0.frags[y].state == Evaluated
            && w.frags[y].name in r.value.0.cache && r.value.0.cache[w.frags[y].name] == y
            && r.value.0.log == w.log
  {
    var f := w.frags[y];
    var s := TrimSpace(f.code);
    PlainCodeParses(f.code);
    var w2 := w.(frags := w.frags[y := f.(state := Evaluating)]);
    PrepareWithoutScript(h, w, y);
    assert Prepare(h, w, y) == (w2, Success([TextNode(s, 1, 1)]));
    EvalFragmentParsed(h, w, y, fuel);
    assert FragOk(w, y);
    SingleTextBody(h, w2, y, s, fuel);
    ConcludeWithoutTemplate(h, w2, y, s, fuel);
  }
}
