/** The recursive-descent parser: from the token stream to a list of nodes.
    The Go parser pulls tokens from the lexer on demand; since lexing never
    depends on the parser, it is modelled here over the whole stream, which
    always ends with the EOF token the Go loops stop at. */
module Parser {
  import opened Wrappers
  import opened Text
  import opened Lexer

  datatype Node =
    | TextNode(text: string, line: int, column: int)
    | MetaRefNode(key: string, line: int, column: int)
    | BuilderRefNode(name: string, content: string, line: int, column: int)
    | FragmentRefNode(name: string, content: string, line: int, column: int)

  /** A positioned parse error; `code` is the source being parsed. */
  datatype ParseError = ParseError(line: int, column: int, message: string, code: string)

  const EofInReference: string := "Unexpected EOF while parsing reference"
  const EofInContent: string := "Unexpected EOF while parsing content"

  /** A token stream as the lexer delivers it: it ends with EOF. */
  predicate Stream(ts: seq<Token>) {
    |ts| > 0 && ts[|ts| - 1].kind == EOF
  }

  /** A pair of distinct, non-EOF delimiter kinds. */
  predicate Delimiters(open: TokenKind, close: TokenKind) {
    open != close && open != EOF && close != EOF
  }

  function Delta(t: Token, open: TokenKind, close: TokenKind): int {
    if t.kind == open then 1 else if t.kind == close then -1 else 0
  }

  /** Openers minus closers among the tokens `i .. k-1`. */
  function Net(ts: seq<Token>, i: nat, k: nat, open: TokenKind, close: TokenKind): int
    requires i <= k <= |ts|
    decreases k - i
  {
    if i == k then 0 else Delta(ts[i], open, close) + Net(ts, i + 1, k, open, close)
  }

  /** The literals of the tokens `i .. k-1`, concatenated. */
  function Lits(ts: seq<Token>, i: nat, k: nat): string
    requires i <= k <= |ts|
    decreases k - i
  {
    if i == k then "" else ts[i].literal + Lits(ts, i + 1, k)
  }

  /** No token among `i .. k-1` has the given kind. */
  predicate NoKind(ts: seq<Token>, i: nat, k: nat, kind: TokenKind)
    requires k <= |ts|
  {
    forall m :: i <= m < k ==> ts[m].kind != kind
  }

  /** From index `i` (just after an opener, at nesting `depth`) up to `b`,
      no EOF occurs and no closer brings the nesting to zero. */
  predicate OpenThrough(ts: seq<Token>, i: nat, depth: int, b: nat, open: TokenKind, close: TokenKind)
    requires i <= b <= |ts|
  {
    forall k :: i <= k < b ==>
      ts[k].kind != EOF && (ts[k].kind == close ==> depth + Net(ts, i, k, open, close) > 1)
  }

  /** The token at `j - 1` is the closer that brings the nesting to zero. */
  predicate Closes(ts: seq<Token>, i: nat, depth: int, j: int, open: TokenKind, close: TokenKind)
  {
    && i < j <= |ts|
    && ts[j - 1].kind == close
    && depth + Net(ts, i, j - 1, open, close) == 1
    && OpenThrough(ts, i, depth, j - 1, open, close)
  }

  /** EOF at `e` arrives before any closer brings the nesting to zero. */
  predicate Unclosed(ts: seq<Token>, i: nat, depth: int, e: int, open: TokenKind, close: TokenKind)
  {
    && i <= e < |ts|
    && ts[e].kind == EOF
    && OpenThrough(ts, i, depth, e, open, close)
  }

  /** Shifting the start of `OpenThrough` past one token that keeps it open. */
  lemma OpenThroughStep(ts: seq<Token>, i: nat, depth: int, b: nat, open: TokenKind, close: TokenKind)
    requires i < b <= |ts| && ts[i].kind != EOF
    requires ts[i].kind == close ==> depth > 1
    requires OpenThrough(ts, i + 1, depth + Delta(ts[i], open, close), b, open, close)
    ensures OpenThrough(ts, i, depth, b, open, close)
  {
  }

  /** The converse: an open stretch stays open after its first token. */
  lemma OpenThroughShift(ts: seq<Token>, i: nat, depth: int, b: nat, open: TokenKind, close: TokenKind)
    requires i < b <= |ts| && OpenThrough(ts, i, depth, b, open, close)
    ensures ts[i].kind != EOF && (ts[i].kind == close ==> depth > 1)
    ensures OpenThrough(ts, i + 1, depth + Delta(ts[i], open, close), b, open, close)
  {
    assert Net(ts, i, i, open, close) == 0;
    var d := depth + Delta(ts[i], open, close);
    forall k | i + 1 <= k < b
      ensures ts[k].kind != EOF && (ts[k].kind == close ==> d + Net(ts, i + 1, k, open, close) > 1)
    {
      assert Net(ts, i, k, open, close) == Delta(ts[i], open, close) + Net(ts, i + 1, k, open, close);
    }
  }

  lemma ClosesHere(ts: seq<Token>, i: nat, open: TokenKind, close: TokenKind)
    requires i < |ts| && ts[i].kind == close
    ensures Closes(ts, i, 1, i + 1, open, close)
  {
    assert Net(ts, i, i, open, close) == 0;
  }

  lemma ClosesStep(ts: seq<Token>, i: nat, depth: int, j: int, open: TokenKind, close: TokenKind)
    requires i < |ts| && ts[i].kind != EOF
    requires ts[i].kind == close ==> depth > 1
    requires Closes(ts, i + 1, depth + Delta(ts[i], open, close), j, open, close)
    ensures Closes(ts, i, depth, j, open, close)
  {
    OpenThroughStep(ts, i, depth, j - 1, open, close);
  }

  lemma UnclosedStep(ts: seq<Token>, i: nat, depth: int, e: int, open: TokenKind, close: TokenKind)
    requires i < |ts| && ts[i].kind != EOF
    requires ts[i].kind == close ==> depth > 1
    requires Unclosed(ts, i + 1, depth + Delta(ts[i], open, close), e, open, close)
    ensures Unclosed(ts, i, depth, e, open, close)
  {
    OpenThroughStep(ts, i, depth, e, open, close);
  }

  /** The balanced scan shared by `parseReference` and `parseContent`:
      collect the literals up to the closer that balances the opener,
      keeping nested delimiter pairs in the text. `None` is the EOF case. */
  function ScanBalanced(ts: seq<Token>, i: nat, depth: nat, open: TokenKind, close: TokenKind)
    : (r: Option<(string, nat)>)
    requires Stream(ts) && i < |ts| && depth >= 1
    ensures r.Some? ==> i < r.value.1 < |ts|
    decreases |ts| - i
  {
    var t := ts[i];
    if t.kind == EOF then None
    else if t.kind == close && depth == 1 then Some(("", i + 1))
    else
      var rest := ScanBalanced(ts, i + 1, depth + Delta(t, open, close), open, close);
      if rest.None? then None else Some((t.literal + rest.value.0, rest.value.1))
  }

  /** What the scan finds: on success, the matching closer and the literals
      before it; on failure, an EOF that comes before any matching closer. */
  lemma ScanBalancedMeaning(ts: seq<Token>, i: nat, depth: nat, open: TokenKind, close: TokenKind)
    requires Stream(ts) && i < |ts| && depth >= 1
    ensures var r := ScanBalanced(ts, i, depth, open, close);
            && (r.Some? ==> Closes(ts, i, depth, r.value.1, open, close)
                            && r.value.0 == Lits(ts, i, r.value.1 - 1))
            && (r.None? ==> exists e :: Unclosed(ts, i, depth, e, open, close))
  {
    if ScanBalanced(ts, i, depth, open, close).Some? {
      ScanBalancedFound(ts, i, depth, open, close);
      ScanBalancedLits(ts, i, depth, open, close);
    } else {
      var e := ScanBalancedMissing(ts, i, depth, open, close);
    }
  }

  lemma {:induction false} ScanBalancedFound(ts: seq<Token>, i: nat, depth: nat, open: TokenKind, close: TokenKind)
    requires Stream(ts) && i < |ts| && depth >= 1
    requires ScanBalanced(ts, i, depth, open, close).Some?
    ensures Closes(ts, i, depth, ScanBalanced(ts, i, depth, open, close).value.1, open, close)
    decreases |ts| - i
  {
    if ts[i].kind == close && depth == 1 {
      ClosesHere(ts, i, open, close);
    } else {
      var depth' := depth + Delta(ts[i], open, close);
      ScanBalancedNext(ts, i, depth, open, close);
      ScanBalancedFound(ts, i + 1, depth', open, close);
      ClosesStep(ts, i, depth, ScanBalanced(ts, i + 1, depth', open, close).value.1, open, close);
    }
  }

  /** Past a token that does not close the nesting, the scan goes on from
      the next token and stops where that scan stops. */
  lemma ScanBalancedNext(ts: seq<Token>, i: nat, depth: nat, open: TokenKind, close: TokenKind)
    requires Stream(ts) && i < |ts| && depth >= 1
    requires ScanBalanced(ts, i, depth, open, close).Some? && !(ts[i].kind == close && depth == 1)
    ensures ts[i].kind != EOF && (ts[i].kind == close ==> depth > 1)
    ensures var depth' := depth + Delta(ts[i], open, close);
            && depth' >= 1 && i + 1 < |ts|
            && ScanBalanced(ts, i + 1, depth', open, close).Some?
            && ScanBalanced(ts, i, depth, open, close).value.1 == ScanBalanced(ts, i + 1, depth', open, close).value.1
  {
  }

  lemma {:induction false} ScanBalancedLits(ts: seq<Token>, i: nat, depth: nat, open: TokenKind, close: TokenKind)
    requires Stream(ts) && i < |ts| && depth >= 1
    requires ScanBalanced(ts, i, depth, open, close).Some?
    ensures var r := ScanBalanced(ts, i, depth, open, close).value;
            r.0 == Lits(ts, i, r.1 - 1)
    decreases |ts| - i
  {
    if ts[i].kind == close && depth == 1 {
    } else {
      var depth' := depth + Delta(ts[i], open, close);
      ScanBalancedLits(ts, i + 1, depth', open, close);
      var rest := ScanBalanced(ts, i + 1, depth', open, close).value;
      assert Lits(ts, i, rest.1 - 1) == ts[i].literal + Lits(ts, i + 1, rest.1 - 1);
    }
  }

  lemma {:induction false} ScanBalancedMissing(ts: seq<Token>, i: nat, depth: nat, open: TokenKind, close: TokenKind)
    returns (e: nat)
    requires Stream(ts) && i < |ts| && depth >= 1
    requires ScanBalanced(ts, i, depth, open, close).None?
    ensures Unclosed(ts, i, depth, e, open, close)
    decreases |ts| - i
  {
    if ts[i].kind == EOF {
      e := i;
    } else {
      var depth' := depth + Delta(ts[i], open, close);
      e := ScanBalancedMissing(ts, i + 1, depth', open, close);
      UnclosedStep(ts, i, depth, e, open, close);
    }
  }

  /** A stream cannot both close and run into EOF unclosed. */
  lemma ClosesExcludesUnclosed(ts: seq<Token>, i: nat, depth: int, j: nat, e: nat,
                               open: TokenKind, close: TokenKind)
    requires Delimiters(open, close)
    requires Closes(ts, i, depth, j, open, close)
    ensures !Unclosed(ts, i, depth, e, open, close)
  {
  }

  /** `parseReference`: the key of `${...}` is every literal up to the
      matching `}`, inner braces included; EOF first is an error at the
      opener. */
  function ParseReference(ts: seq<Token>, i: nat, start: Token, code: string)
    : (r: Result<(string, nat), ParseError>)
    requires Stream(ts) && i < |ts|
    ensures r.Success? ==> i < r.value.1 < |ts|
    ensures r.Failure? ==> r.error == ParseError(start.line, start.column, EofInReference, code)
  {
    var s := ScanBalanced(ts, i, 1, OpenBrace, CloseBrace);
    if s.None? then Failure(ParseError(start.line, start.column, EofInReference, code))
    else Success(s.value)
  }

  /** `parseContent`: the text of a `[[...]]` block up to the matching
      `]]`, nested pairs included; EOF first is an error at the `[[`. */
  function ParseContent(ts: seq<Token>, i: nat, start: Token, code: string)
    : (r: Result<(string, nat), ParseError>)
    requires Stream(ts) && i < |ts|
    ensures r.Success? ==> i < r.value.1 < |ts|
    ensures r.Failure? ==> r.error == ParseError(start.line, start.column, EofInContent, code)
  {
    var s := ScanBalanced(ts, i, 1, DoubleOpenBracket, DoubleCloseBracket);
    if s.None? then Failure(ParseError(start.line, start.column, EofInContent, code))
    else Success(s.value)
  }

  /** The key of a meta reference ends at the brace that balances `${`, and
      it is exactly the literals before that brace; the EOF error happens
      exactly when no such brace precedes EOF. */
  lemma ParseReferenceMeaning(ts: seq<Token>, i: nat, start: Token, code: string)
    requires Stream(ts) && i < |ts|
    ensures var r := ParseReference(ts, i, start, code);
            && (r.Success? ==> Closes(ts, i, 1, r.value.1, OpenBrace, CloseBrace)
                               && r.value.0 == Lits(ts, i, r.value.1 - 1))
            && (r.Failure? <==> exists e :: Unclosed(ts, i, 1, e, OpenBrace, CloseBrace))
  {
    ScanBalancedMeaning(ts, i, 1, OpenBrace, CloseBrace);
    var r := ParseReference(ts, i, start, code);
    if r.Success? {
      forall e | Unclosed(ts, i, 1, e, OpenBrace, CloseBrace) ensures false {
        ClosesExcludesUnclosed(ts, i, 1, r.value.1, e, OpenBrace, CloseBrace);
      }
    }
  }

  /** The same for a `[[...]]` content block. */
  lemma ParseContentMeaning(ts: seq<Token>, i: nat, start: Token, code: string)
    requires Stream(ts) && i < |ts|
    ensures var r := ParseContent(ts, i, start, code);
            && (r.Success? ==> Closes(ts, i, 1, r.value.1, DoubleOpenBracket, DoubleCloseBracket)
                               && r.value.0 == Lits(ts, i, r.value.1 - 1))
            && (r.Failure? <==> exists e :: Unclosed(ts, i, 1, e, DoubleOpenBracket, DoubleCloseBracket))
  {
    ScanBalancedMeaning(ts, i, 1, DoubleOpenBracket, DoubleCloseBracket);
    var r := ParseContent(ts, i, start, code);
    if r.Success? {
      forall e | Unclosed(ts, i, 1, e, DoubleOpenBracket, DoubleCloseBracket) ensures false {
        ClosesExcludesUnclosed(ts, i, 1, r.value.1, e, DoubleOpenBracket, DoubleCloseBracket);
      }
    }
  }

  /** Closing braces among the tokens `i .. k-1`. */
  function CloseCount(ts: seq<Token>, i: nat, k: nat): nat
    requires i <= k <= |ts|
    decreases k - i
  {
    if i == k then 0 else (if ts[i].kind == CloseBrace then 1 else 0) + CloseCount(ts, i + 1, k)
  }

  /** The literals of the tokens `i .. k-1` other than closing braces. */
  function LitsBesidesClose(ts: seq<Token>, i: nat, k: nat): string
    requires i <= k <= |ts|
    decreases k - i
  {
    if i == k then "" else (if ts[i].kind == CloseBrace then "" else ts[i].literal) + LitsBesidesClose(ts, i + 1, k)
  }

  /** The loop after a content block: every closing brace counts down (and is
      dropped), every other token is appended to the name, and an opening
      brace is appended without counting up. */
  function TailScan(ts: seq<Token>, i: nat, depth: nat): (r: Option<(string, nat)>)
    requires Stream(ts) && i < |ts| && depth >= 1
    ensures r.Some? ==> i < r.value.1 < |ts|
    decreases |ts| - i
  {
    var t := ts[i];
    if t.kind == CloseBrace && depth == 1 then Some(("", i + 1))
    else if t.kind == EOF then None
    else
      var rest := TailScan(ts, i + 1, if t.kind == CloseBrace then depth - 1 else depth);
      if rest.None? then None
      else Some(((if t.kind == CloseBrace then "" else t.literal) + rest.value.0, rest.value.1))
  }

  /** The tail loop stops at the `depth`-th closing brace, with no EOF before
      it, and keeps every other literal; it fails exactly when EOF comes
      before that many closing braces. */
  lemma TailScanMeaning(ts: seq<Token>, i: nat, depth: nat)
    requires Stream(ts) && i < |ts| && depth >= 1
    ensures var r := TailScan(ts, i, depth);
            && (r.Some? ==> var j := r.value.1;
                            && ts[j - 1].kind == CloseBrace
                            && CloseCount(ts, i, j) == depth
                            && CloseCount(ts, i, j - 1) == depth - 1
                            && NoKind(ts, i, j, EOF)
                            && r.value.0 == LitsBesidesClose(ts, i, j))
            && (r.None? ==> exists e :: i <= e < |ts| && ts[e].kind == EOF
                                        && NoKind(ts, i, e, EOF) && CloseCount(ts, i, e) < depth)
  {
    TailScanFound(ts, i, depth);
    TailScanMissing(ts, i, depth);
  }

  lemma {:induction false} TailScanFound(ts: seq<Token>, i: nat, depth: nat)
    requires Stream(ts) && i < |ts| && depth >= 1
    ensures var r := TailScan(ts, i, depth);
            r.Some? ==> var j := r.value.1;
                        && ts[j - 1].kind == CloseBrace
                        && CloseCount(ts, i, j) == depth
                        && CloseCount(ts, i, j - 1) == depth - 1
                        && NoKind(ts, i, j, EOF)
                        && r.value.0 == LitsBesidesClose(ts, i, j)
    decreases |ts| - i
  {
    var t := ts[i];
    if !(t.kind == CloseBrace && depth == 1) && t.kind != EOF {
      var depth' := if t.kind == CloseBrace then depth - 1 else depth;
      TailScanFound(ts, i + 1, depth');
      var rest := TailScan(ts, i + 1, depth');
      if rest.Some? {
        var j := rest.value.1;
        assert NoKind(ts, i, j, EOF);
      }
    }
  }

  lemma {:induction false} TailScanMissing(ts: seq<Token>, i: nat, depth: nat)
    requires Stream(ts) && i < |ts| && depth >= 1
    ensures TailScan(ts, i, depth).None? ==>
              exists e :: i <= e < |ts| && ts[e].kind == EOF && NoKind(ts, i, e, EOF) && CloseCount(ts, i, e) < depth
    decreases |ts| - i
  {
    var t := ts[i];
    if t.kind == EOF {
      assert CloseCount(ts, i, i) == 0;
    } else if !(t.kind == CloseBrace && depth == 1) {
      var depth' := if t.kind == CloseBrace then depth - 1 else depth;
      TailScanMissing(ts, i + 1, depth');
      if TailScan(ts, i + 1, depth').None? {
        var e: nat :| i + 1 <= e < |ts| && ts[e].kind == EOF
                      && NoKind(ts, i + 1, e, EOF) && CloseCount(ts, i + 1, e) < depth';
        assert NoKind(ts, i, e, EOF);
      }
    }
  }

  /** The name loop of `parseReferenceWithContent`, before trimming: it
      yields the raw name, the content of a `[[...]]` block ("" without
      one) and the index after the closing brace. */
  function NameScan(ts: seq<Token>, i: nat, depth: nat, start: Token, code: string)
    : (r: Result<(string, string, nat), ParseError>)
    requires Stream(ts) && i < |ts| && depth >= 1
    ensures r.Success? ==> i < r.value.2 < |ts|
    ensures r.Failure? ==> r.error.code == code
                           && (r.error.message == EofInReference || r.error.message == EofInContent)
    decreases |ts| - i
  {
    var t := ts[i];
    if t.kind == EOF then
      Failure(ParseError(start.line, start.column, EofInReference, code))
    else if t.kind == CloseBrace && depth == 1 then
      Success(("", "", i + 1))
    else if t.kind == DoubleOpenBracket then
      var pc := ParseContent(ts, i + 1, t, code);
      if pc.Failure? then Failure(pc.error)
      else
        var tail := TailScan(ts, pc.value.1, depth);
        if tail.None? then Failure(ParseError(start.line, start.column, EofInReference, code))
        else Success((tail.value.0, pc.value.0, tail.value.1))
    else
      var rest := NameScan(ts, i + 1, depth + Delta(t, OpenBrace, CloseBrace), start, code);
      if rest.Failure? then Failure(rest.error)
      else Success((t.literal + rest.value.0, rest.value.1, rest.value.2))
  }

  /** A name-loop error sits at the reference's opener or at a `[[` of the
      stream. */
  lemma {:induction false} NameScanErrorPosition(ts: seq<Token>, i: nat, depth: nat, start: Token, code: string)
    requires Stream(ts) && i < |ts| && depth >= 1
    ensures var r := NameScan(ts, i, depth, start, code);
            r.Failure? ==> (r.error.line == start.line && r.error.column == start.column)
                           || exists k :: i <= k < |ts| && ts[k].kind == DoubleOpenBracket
                                          && ts[k].line == r.error.line && ts[k].column == r.error.column
    decreases |ts| - i
  {
    var t := ts[i];
    if t.kind != EOF && !(t.kind == CloseBrace && depth == 1) && t.kind != DoubleOpenBracket {
      NameScanErrorPosition(ts, i + 1, depth + Delta(t, OpenBrace, CloseBrace), start, code);
    }
  }

  /** `parseReferenceWithContent`: the white-space-trimmed name and the
      content block of `*{...}` or `@{...}`. */
  function ParseReferenceWithContent(ts: seq<Token>, i: nat, start: Token, code: string)
    : (r: Result<(string, string, nat), ParseError>)
    requires Stream(ts) && i < |ts|
    ensures r.Success? ==> i < r.value.2 < |ts|
    ensures r.Success? && |r.value.0| > 0 ==>
              !IsSpace(r.value.0[0]) && !IsSpace(r.value.0[|r.value.0| - 1])
    ensures r.Failure? ==> r.error.code == code
  {
    var s := NameScan(ts, i, 1, start, code);
    if s.Failure? then Failure(s.error)
    else Success((TrimSpace(s.value.0), s.value.1, s.value.2))
  }

  /** A reference without a `[[` before its matching `}` has the same name
      loop as `parseReference`: the name is the literals up to the brace
      (trimmed by the caller) and the content is empty. */
  lemma {:induction false} NameWithoutContentBlock(ts: seq<Token>, i: nat, depth: nat, start: Token,
                                                   code: string, key: string, j: nat)
    requires Stream(ts) && i < |ts| && depth >= 1
    requires ScanBalanced(ts, i, depth, OpenBrace, CloseBrace) == Some((key, j))
    requires NoKind(ts, i, j, DoubleOpenBracket)
    ensures NameScan(ts, i, depth, start, code) == Success((key, "", j))
    decreases |ts| - i
  {
    var t := ts[i];
    if !(t.kind == CloseBrace && depth == 1) {
      var depth' := depth + Delta(t, OpenBrace, CloseBrace);
      var rest := ScanBalanced(ts, i + 1, depth', OpenBrace, CloseBrace);
      NameWithoutContentBlock(ts, i + 1, depth', start, code, rest.value.0, j);
    }
  }

  /** An ordinary token of the name loop is appended to the name. */
  lemma NameScanStep(ts: seq<Token>, i: nat, depth: nat, start: Token, code: string)
    requires Stream(ts) && i < |ts| && depth >= 1
    requires ts[i].kind != EOF && ts[i].kind != DoubleOpenBracket
    requires ts[i].kind == CloseBrace ==> depth > 1
    ensures depth + Delta(ts[i], OpenBrace, CloseBrace) >= 1
    ensures NameScan(ts, i, depth, start, code)
            == Prefixed(ts[i].literal, NameScan(ts, i + 1, depth + Delta(ts[i], OpenBrace, CloseBrace), start, code))
  {
  }

  /** With a `[[` at `b` before the reference closes, the content is what
      `parseContent` captures from there, and the name is the literals before
      the block followed by those the tail loop keeps. */
  lemma NameWithContentBlock(ts: seq<Token>, i: nat, depth: nat, start: Token, code: string, b: nat)
    requires Stream(ts) && i <= b < |ts| && depth >= 1
    requires ts[b].kind == DoubleOpenBracket && NoKind(ts, i, b, DoubleOpenBracket)
    requires OpenThrough(ts, i, depth, b, OpenBrace, CloseBrace)
    ensures var pc := ParseContent(ts, b + 1, ts[b], code);
            var d := depth + Net(ts, i, b, OpenBrace, CloseBrace);
            && d >= 1
            && (pc.Failure? ==> NameScan(ts, i, depth, start, code) == Failure(pc.error))
            && (pc.Success? ==>
                  var tail := TailScan(ts, pc.value.1, d);
                  NameScan(ts, i, depth, start, code) ==
                    if tail.None? then Failure(ParseError(start.line, start.column, EofInReference, code))
                    else Success((Lits(ts, i, b) + tail.value.0, pc.value.0, tail.value.1)))
  {
    NameScanPrefix(ts, i, depth, start, code, b);
    NameScanAtBlock(ts, b, depth + Net(ts, i, b, OpenBrace, CloseBrace), start, code);
  }

  /** A name-loop result with `p` put in front of the name. */
  function Prefixed(p: string, r: Result<(string, string, nat), ParseError>): Result<(string, string, nat), ParseError> {
    if r.Failure? then r else Success((p + r.value.0, r.value.1, r.value.2))
  }

  lemma PrefixedTwice(a: string, b: string, r: Result<(string, string, nat), ParseError>)
    ensures Prefixed(a, Prefixed(b, r)) == Prefixed(a + b, r)
  {
    if r.Success? {
      assert a + (b + r.value.0) == (a + b) + r.value.0;
    }
  }

  /** Up to the first `[[`, the name loop only gathers literals: its result
      is the one from the `[[` on, with those literals in front. */
  lemma {:induction false} NameScanPrefix(ts: seq<Token>, i: nat, depth: nat, start: Token, code: string, b: nat)
    requires Stream(ts) && i <= b < |ts| && depth >= 1
    requires NoKind(ts, i, b, DoubleOpenBracket)
    requires OpenThrough(ts, i, depth, b, OpenBrace, CloseBrace)
    ensures depth + Net(ts, i, b, OpenBrace, CloseBrace) >= 1
    ensures NameScan(ts, i, depth, start, code)
            == Prefixed(Lits(ts, i, b), NameScan(ts, b, depth + Net(ts, i, b, OpenBrace, CloseBrace), start, code))
    decreases b - i
  {
    if i < b {
      var depth' := depth + Delta(ts[i], OpenBrace, CloseBrace);
      OpenThroughShift(ts, i, depth, b, OpenBrace, CloseBrace);
      NameScanPrefix(ts, i + 1, depth', start, code, b);
      NameScanPrefixStep(ts, i, depth, start, code, b);
    } else {
      assert Lits(ts, i, b) == "" && Net(ts, i, b, OpenBrace, CloseBrace) == 0;
      PrefixedEmpty(NameScan(ts, b, depth, start, code));
    }
  }

  /** One step of `NameScanPrefix`: the token at `i` joins the prefix. */
  lemma NameScanPrefixStep(ts: seq<Token>, i: nat, depth: nat, start: Token, code: string, b: nat)
    requires Stream(ts) && i < b < |ts| && depth >= 1
    requires ts[i].kind != EOF && ts[i].kind != DoubleOpenBracket
    requires ts[i].kind == CloseBrace ==> depth > 1
    requires depth + Delta(ts[i], OpenBrace, CloseBrace) + Net(ts, i + 1, b, OpenBrace, CloseBrace) >= 1
    requires NameScan(ts, i + 1, depth + Delta(ts[i], OpenBrace, CloseBrace), start, code)
             == Prefixed(Lits(ts, i + 1, b),
                         NameScan(ts, b, depth + Delta(ts[i], OpenBrace, CloseBrace) + Net(ts, i + 1, b, OpenBrace, CloseBrace), start, code))
    ensures depth + Net(ts, i, b, OpenBrace, CloseBrace) >= 1
    ensures NameScan(ts, i, depth, start, code)
            == Prefixed(Lits(ts, i, b), NameScan(ts, b, depth + Net(ts, i, b, OpenBrace, CloseBrace), start, code))
  {
    var depth' := depth + Delta(ts[i], OpenBrace, CloseBrace);
    NameScanStep(ts, i, depth, start, code);
    assert depth + Net(ts, i, b, OpenBrace, CloseBrace) == depth' + Net(ts, i + 1, b, OpenBrace, CloseBrace);
    assert Lits(ts, i, b) == ts[i].literal + Lits(ts, i + 1, b);
    PrefixedChain(NameScan(ts, i, depth, start, code), NameScan(ts, i + 1, depth', start, code),
                  NameScan(ts, b, depth' + Net(ts, i + 1, b, OpenBrace, CloseBrace), start, code),
                  ts[i].literal, Lits(ts, i + 1, b));
  }

  lemma PrefixedChain(x: Result<(string, string, nat), ParseError>, y: Result<(string, string, nat), ParseError>,
                      z: Result<(string, string, nat), ParseError>, a: string, b: string)
    requires x == Prefixed(a, y) && y == Prefixed(b, z)
    ensures x == Prefixed(a + b, z)
  {
    PrefixedTwice(a, b, z);
  }

  lemma PrefixedEmpty(r: Result<(string, string, nat), ParseError>)
    ensures Prefixed("", r) == r
  {
    if r.Success? {
      assert "" + r.value.0 == r.value.0;
    }
  }

  /** At a `[[` the name loop parses the content block and hands over to
      the tail loop. */
  lemma NameScanAtBlock(ts: seq<Token>, b: nat, depth: nat, start: Token, code: string)
    requires Stream(ts) && b < |ts| && depth >= 1 && ts[b].kind == DoubleOpenBracket
    ensures var pc := ParseContent(ts, b + 1, ts[b], code);
            && (pc.Failure? ==> NameScan(ts, b, depth, start, code) == Failure(pc.error))
            && (pc.Success? ==>
                  var tail := TailScan(ts, pc.value.1, depth);
                  NameScan(ts, b, depth, start, code) ==
                    if tail.None? then Failure(ParseError(start.line, start.column, EofInReference, code))
                    else Success(("" + tail.value.0, pc.value.0, tail.value.1)))
  {
    var pc := ParseContent(ts, b + 1, ts[b], code);
    if pc.Success? {
      var tail := TailScan(ts, pc.value.1, depth);
      if tail.Some? {
        assert "" + tail.value.0 == tail.value.0;
      }
    }
  }

  /** A nesting closes at one place only. */
  lemma ClosesUnique(ts: seq<Token>, i: nat, depth: int, j: int, j': int, open: TokenKind, close: TokenKind)
    requires Closes(ts, i, depth, j, open, close) && Closes(ts, i, depth, j', open, close)
    ensures j == j'
  {
  }

  /** The balanced scan finds the closer wherever there is one. */
  lemma ScanBalancedAt(ts: seq<Token>, i: nat, depth: nat, j: nat, open: TokenKind, close: TokenKind)
    requires Stream(ts) && i < |ts| && depth >= 1 && Delimiters(open, close)
    requires Closes(ts, i, depth, j, open, close)
    ensures ScanBalanced(ts, i, depth, open, close) == Some((Lits(ts, i, j - 1), j))
  {
    ScanBalancedMeaning(ts, i, depth, open, close);
    var r := ScanBalanced(ts, i, depth, open, close);
    if r.None? {
      var e :| Unclosed(ts, i, depth, e, open, close);
      ClosesExcludesUnclosed(ts, i, depth, j, e, open, close);
    } else {
      ClosesUnique(ts, i, depth, j, r.value.1, open, close);
    }
  }

  /** `parseReferenceWithContent` on a reference without a `[[` before the
      brace that closes it: the name is the literals before that brace,
      trimmed, and there is no content. */
  lemma ReferenceWithoutContentBlock(ts: seq<Token>, i: nat, start: Token, code: string, j: nat)
    requires Stream(ts) && i < |ts|
    requires Closes(ts, i, 1, j, OpenBrace, CloseBrace) && NoKind(ts, i, j, DoubleOpenBracket)
    ensures ParseReferenceWithContent(ts, i, start, code) == Success((TrimSpace(Lits(ts, i, j - 1)), "", j))
  {
    ScanBalancedAt(ts, i, 1, j, OpenBrace, CloseBrace);
    NameWithoutContentBlock(ts, i, 1, start, code, Lits(ts, i, j - 1), j);
  }

  /** Closing braces counted over two adjacent stretches add up. */
  lemma {:induction false} CloseCountSplit(ts: seq<Token>, i: nat, a: nat, k: nat)
    requires i <= a <= k <= |ts|
    ensures CloseCount(ts, i, k) == CloseCount(ts, i, a) + CloseCount(ts, a, k)
    decreases a - i
  {
    if i < a {
      CloseCountSplit(ts, i + 1, a, k);
    }
  }

  /** Counting closing braces over a longer stretch never gives fewer. */
  lemma CloseCountMono(ts: seq<Token>, c: nat, a: nat, k: nat)
    requires c <= a <= k <= |ts|
    ensures CloseCount(ts, c, a) <= CloseCount(ts, c, k)
  {
    CloseCountSplit(ts, c, a, k);
  }

  /** The tail loop stops at the `depth`-th closing brace after `c`, with
      no EOF before it. */
  predicate TailCloses(ts: seq<Token>, c: nat, depth: int, k: nat) {
    && c < k <= |ts|
    && ts[k - 1].kind == CloseBrace
    && CloseCount(ts, c, k - 1) == depth - 1
    && NoKind(ts, c, k, EOF)
  }

  /** The tail scan finds that brace wherever there is one. */
  lemma TailScanAt(ts: seq<Token>, c: nat, depth: nat, k: nat)
    requires Stream(ts) && c < |ts| && depth >= 1 && TailCloses(ts, c, depth, k)
    ensures TailScan(ts, c, depth) == Some((LitsBesidesClose(ts, c, k), k))
  {
    CloseCountSplit(ts, c, k - 1, k);
    assert CloseCount(ts, k - 1, k) == 1;
    TailScanMissing(ts, c, depth);
    if TailScan(ts, c, depth).None? {
      var e :| c <= e < |ts| && ts[e].kind == EOF && NoKind(ts, c, e, EOF) && CloseCount(ts, c, e) < depth;
      TailPastEof(ts, c, depth, k, e);
    } else {
      TailScanFound(ts, c, depth);
      TailStopsOnce(ts, c, depth, k, TailScan(ts, c, depth).value.1);
    }
  }

  /** An EOF cannot come before the brace where the tail closes. */
  lemma TailPastEof(ts: seq<Token>, c: nat, depth: int, k: nat, e: nat)
    requires TailCloses(ts, c, depth, k) && CloseCount(ts, c, k) == depth
    requires c <= e < |ts| && ts[e].kind == EOF
    ensures CloseCount(ts, c, e) >= depth
  {
    assert k <= e;
    CloseCountMono(ts, c, k, e);
  }

  /** The brace where the tail closes is the only one. */
  lemma TailStopsOnce(ts: seq<Token>, c: nat, depth: int, k: nat, k': nat)
    requires TailCloses(ts, c, depth, k) && CloseCount(ts, c, k) == depth
    requires c < k' <= |ts| && CloseCount(ts, c, k') == depth && CloseCount(ts, c, k' - 1) == depth - 1
    ensures k == k'
  {
    if k' < k {
      CloseCountMono(ts, c, k', k - 1);
    } else if k < k' {
      CloseCountMono(ts, c, k, k' - 1);
    }
  }

  /** `parseReferenceWithContent` on a reference whose first `[[` is at
      `b`, whose content block closes at `c` and whose tail closes at `k`:
      the name is the literals before the block followed by those of the
      tail except closing braces, trimmed; the content is the literals of
      the block. */
  lemma ReferenceWithContentBlock(ts: seq<Token>, i: nat, start: Token, code: string, b: nat, c: nat, k: nat)
    requires Stream(ts) && i <= b < |ts|
    requires ts[b].kind == DoubleOpenBracket && NoKind(ts, i, b, DoubleOpenBracket)
    requires OpenThrough(ts, i, 1, b, OpenBrace, CloseBrace)
    requires Closes(ts, b + 1, 1, c, DoubleOpenBracket, DoubleCloseBracket)
    requires TailCloses(ts, c, 1 + Net(ts, i, b, OpenBrace, CloseBrace), k)
    ensures ParseReferenceWithContent(ts, i, start, code)
            == Success((TrimSpace(Lits(ts, i, b) + LitsBesidesClose(ts, c, k)), Lits(ts, b + 1, c - 1), k))
  {
    NameScanWithBlock(ts, i, start, code, b, c, k);
  }

  lemma NameScanWithBlock(ts: seq<Token>, i: nat, start: Token, code: string, b: nat, c: nat, k: nat)
    requires Stream(ts) && i <= b < |ts|
    requires ts[b].kind == DoubleOpenBracket && NoKind(ts, i, b, DoubleOpenBracket)
    requires OpenThrough(ts, i, 1, b, OpenBrace, CloseBrace)
    requires Closes(ts, b + 1, 1, c, DoubleOpenBracket, DoubleCloseBracket)
    requires TailCloses(ts, c, 1 + Net(ts, i, b, OpenBrace, CloseBrace), k)
    ensures NameScan(ts, i, 1, start, code)
            == Success((Lits(ts, i, b) + LitsBesidesClose(ts, c, k), Lits(ts, b + 1, c - 1), k))
  {
    NameWithContentBlock(ts, i, 1, start, code, b);
    ContentBlockAt(ts, b, code, c);
    TailScanAt(ts, c, 1 + Net(ts, i, b, OpenBrace, CloseBrace), k);
  }

  /** `parseContent` finds a content block's `]]` wherever there is one. */
  lemma ContentBlockAt(ts: seq<Token>, b: nat, code: string, c: nat)
    requires Stream(ts) && b < |ts| && Closes(ts, b + 1, 1, c, DoubleOpenBracket, DoubleCloseBracket)
    ensures b + 1 < |ts| && c < |ts|
    ensures ParseContent(ts, b + 1, ts[b], code) == Success((Lits(ts, b + 1, c - 1), c))
  {
    assert ts[c - 1].kind == DoubleCloseBracket;
    ScanBalancedAt(ts, b + 1, 1, c, DoubleOpenBracket, DoubleCloseBracket);
  }

  const UnknownToken: string := "Unknown token type: "

  /** A delimiter that may not stand at the top level of a fragment. */
  predicate Structural(k: TokenKind) {
    k == OpenBrace || k == CloseBrace || k == DoubleOpenBracket || k == DoubleCloseBracket
  }

  /** The node list of `ParseCode`, from token `i` on. */
  function ParseNodes(ts: seq<Token>, i: nat, code: string): (r: Result<seq<Node>, ParseError>)
    requires Stream(ts) && i < |ts|
    // Text and escaped bytes become text nodes at the token's position.
    ensures r.Success? && (ts[i].kind == Text || ts[i].kind == EscapedChar) ==>
              |r.value| > 0 && r.value[0] == TextNode(ts[i].literal, ts[i].line, ts[i].column)
    // A stray delimiter is an error at its own position.
    ensures Structural(ts[i].kind) ==>
              r == Failure(ParseError(ts[i].line, ts[i].column, UnknownToken + KindName(ts[i].kind), code))
    ensures ts[i].kind == EOF <==> r == Success([])
    decreases |ts| - i, 0
  {
    var t := ts[i];
    match t.kind
    case EOF => Success([])
    case Text => ParseAfter(ts, i + 1, TextNode(t.literal, t.line, t.column), code)
    case EscapedChar => ParseAfter(ts, i + 1, TextNode(t.literal, t.line, t.column), code)
    case MetaRefStart =>
      var pr := ParseReference(ts, i + 1, t, code);
      if pr.Failure? then Failure(pr.error)
      else ParseAfter(ts, pr.value.1, MetaRefNode(pr.value.0, t.line, t.column), code)
    case BuilderRefStart =>
      var pr := ParseReferenceWithContent(ts, i + 1, t, code);
      if pr.Failure? then Failure(pr.error)
      else ParseAfter(ts, pr.value.2, BuilderRefNode(pr.value.0, pr.value.1, t.line, t.column), code)
    case FragmentRefStart =>
      var pr := ParseReferenceWithContent(ts, i + 1, t, code);
      if pr.Failure? then Failure(pr.error)
      else ParseAfter(ts, pr.value.2, FragmentRefNode(pr.value.0, pr.value.1, t.line, t.column), code)
    case _ =>
      Failure(ParseError(t.line, t.column, UnknownToken + KindName(t.kind), code))
  }

  /** One parsed node followed by the nodes from token `j` on. */
  function ParseAfter(ts: seq<Token>, j: nat, n: Node, code: string): (r: Result<seq<Node>, ParseError>)
    requires Stream(ts) && j < |ts|
    ensures r.Success? ==> |r.value| > 0 && r.value[0] == n
    decreases |ts| - j, 1
  {
    var rest := ParseNodes(ts, j, code);
    if rest.Failure? then Failure(rest.error) else Success([n] + rest.value)
  }

  /** `ParseCode`: the nodes of the whole input, or the first error, which
      carries the input. */
  function ParseCode(code: string): (r: Result<seq<Node>, ParseError>)
    ensures code == "" ==> r == Success([])
    ensures r.Failure? ==> r.error.code == code
  {
    var ts := Tokenize(NewLexer(code));
    ParseErrorsArePositioned(ts, 0, code);
    ParseNodes(ts, 0, code)
  }

  /** A parse error points at the line and column of one of the input's
      tokens. */
  lemma ParseCodeErrorPositioned(code: string)
    ensures ParseCode(code).Failure? ==> Positioned(Tokenize(NewLexer(code)), 0, ParseCode(code).error)
  {
    ParseErrorsArePositioned(Tokenize(NewLexer(code)), 0, code);
  }

  /** The text nodes of the tokens from `i` up to the final EOF. */
  function TextNodesFrom(ts: seq<Token>, i: nat): seq<Node>
    decreases |ts| - i
  {
    if i + 1 >= |ts| then []
    else [TextNode(ts[i].literal, ts[i].line, ts[i].column)] + TextNodesFrom(ts, i + 1)
  }

  /** A stream of text and escaped-byte tokens parses to one text node per
      token, in source order, each carrying its token's literal and position. */
  lemma {:induction false} TextTokensBecomeTextNodes(ts: seq<Token>, i: nat, code: string)
    requires Stream(ts) && i < |ts|
    requires forall k :: i <= k < |ts| - 1 ==> ts[k].kind == Text || ts[k].kind == EscapedChar
    ensures ParseNodes(ts, i, code) == Success(TextNodesFrom(ts, i))
    decreases |ts| - i
  {
    if i < |ts| - 1 {
      TextTokensBecomeTextNodes(ts, i + 1, code);
    }
  }

  /** A meta reference node's key is exactly the literals between `${` and
      the brace that balances it. */
  lemma MetaRefKeyIsBalanced(ts: seq<Token>, i: nat, code: string)
    requires Stream(ts) && i < |ts| && ts[i].kind == MetaRefStart
    ensures var r := ParseNodes(ts, i, code);
            var pr := ParseReference(ts, i + 1, ts[i], code);
            r.Success? ==> && pr.Success?
                           && Closes(ts, i + 1, 1, pr.value.1, OpenBrace, CloseBrace)
                           && r.value[0] == MetaRefNode(Lits(ts, i + 1, pr.value.1 - 1), ts[i].line, ts[i].column)
  {
    ParseReferenceMeaning(ts, i + 1, ts[i], code);
  }

  /** Some token at or after `i` sits at the error's line and column. */
  predicate Positioned(ts: seq<Token>, i: nat, e: ParseError) {
    exists k :: i <= k < |ts| && ts[k].line == e.line && ts[k].column == e.column
  }

  lemma PositionedWiden(ts: seq<Token>, i: nat, j: nat, e: ParseError)
    requires i <= j && Positioned(ts, j, e)
    ensures Positioned(ts, i, e)
  {
    var k :| j <= k < |ts| && ts[k].line == e.line && ts[k].column == e.column;
  }

  lemma PositionedHere(ts: seq<Token>, i: nat, e: ParseError)
    requires i < |ts| && ts[i].line == e.line && ts[i].column == e.column
    ensures Positioned(ts, i, e)
  {
  }

  /** Every parse error is positioned at a token of the stream (an opener,
      a `[[`, or a stray delimiter) and carries the parsed source. */
  lemma {:induction false} ParseErrorsArePositioned(ts: seq<Token>, i: nat, code: string)
    requires Stream(ts) && i < |ts|
    ensures var r := ParseNodes(ts, i, code);
            r.Failure? ==> r.error.code == code && Positioned(ts, i, r.error)
    decreases |ts| - i, 0
  {
    var t := ts[i];
    var r := ParseNodes(ts, i, code);
    if r.Failure? {
      match t.kind
      case Text =>
        RestErrorPositioned(ts, i, i + 1, TextNode(t.literal, t.line, t.column), code);
      case EscapedChar =>
        RestErrorPositioned(ts, i, i + 1, TextNode(t.literal, t.line, t.column), code);
      case MetaRefStart =>
        var pr := ParseReference(ts, i + 1, t, code);
        if pr.Success? {
          RestErrorPositioned(ts, i, pr.value.1, MetaRefNode(pr.value.0, t.line, t.column), code);
        } else {
          PositionedHere(ts, i, r.error);
        }
      case BuilderRefStart =>
        var pr := ParseReferenceWithContent(ts, i + 1, t, code);
        if pr.Success? {
          RestErrorPositioned(ts, i, pr.value.2, BuilderRefNode(pr.value.0, pr.value.1, t.line, t.column), code);
        } else {
          NameErrorPositioned(ts, i, code);
        }
      case FragmentRefStart =>
        var pr := ParseReferenceWithContent(ts, i + 1, t, code);
        if pr.Success? {
          RestErrorPositioned(ts, i, pr.value.2, FragmentRefNode(pr.value.0, pr.value.1, t.line, t.column), code);
        } else {
          NameErrorPositioned(ts, i, code);
        }
      case OpenBrace => PositionedHere(ts, i, r.error);
      case CloseBrace => PositionedHere(ts, i, r.error);
      case DoubleOpenBracket => PositionedHere(ts, i, r.error);
      case DoubleCloseBracket => PositionedHere(ts, i, r.error);
      case EOF =>
    }
  }

  lemma {:induction false} RestErrorPositioned(ts: seq<Token>, i: nat, j: nat, n: Node, code: string)
    requires Stream(ts) && i < j < |ts|
    ensures var r := ParseAfter(ts, j, n, code);
            r.Failure? ==> r.error.code == code && Positioned(ts, i, r.error)
    decreases |ts| - j, 1
  {
    var r := ParseAfter(ts, j, n, code);
    if r.Failure? {
      ParseErrorsArePositioned(ts, j, code);
      PositionedWiden(ts, i, j, r.error);
    }
  }

  lemma NameErrorPositioned(ts: seq<Token>, i: nat, code: string)
    requires Stream(ts) && i + 1 < |ts|
    ensures var r := ParseReferenceWithContent(ts, i + 1, ts[i], code);
            r.Failure? ==> r.error.code == code && Positioned(ts, i, r.error)
  {
    var r := ParseReferenceWithContent(ts, i + 1, ts[i], code);
    if r.Failure? {
      NameScanErrorPosition(ts, i + 1, 1, ts[i], code);
      if r.error.line == ts[i].line && r.error.column == ts[i].column {
        PositionedHere(ts, i, r.error);
      } else {
        var k :| i + 1 <= k < |ts| && ts[k].kind == DoubleOpenBracket
                 && ts[k].line == r.error.line && ts[k].column == r.error.column;
        PositionedHere(ts, k, r.error);
        PositionedWiden(ts, i, k, r.error);
      }
    }
  }

  /** Source without any special byte (and not starting with a blank) is one
      text node at line 1, column 1. */
  lemma PlainTextIsOneNode(code: string)
    requires |code| > 0 && !IsBlank(code[0])
    requires forall i :: 0 <= i < |code| ==> !IsSpecial(code[i])
    ensures ParseCode(code) == Success([TextNode(code, 1, 1)])
  {
    PlainTextTokens(code);
    OneTextToken(Tokenize(NewLexer(code)), code);
  }

  /** A text token followed by EOF parses to one text node. */
  lemma OneTextToken(ts: seq<Token>, code: string)
    requires |ts| == 2 && ts[0].kind == Text && ts[1].kind == EOF
    ensures ParseNodes(ts, 0, code) == Success([TextNode(ts[0].literal, ts[0].line, ts[0].column)])
  {
    assert ParseNodes(ts, 1, code) == Success([]);
    var n := TextNode(ts[0].literal, ts[0].line, ts[0].column);
    assert [n] + [] == [n];
    assert ParseAfter(ts, 1, n, code) == Success([n]);
  }

  /** The lexer turns such source into one text token and EOF. */
  lemma PlainTextTokens(code: string)
    requires |code| > 0 && !IsBlank(code[0])
    requires forall i :: 0 <= i < |code| ==> !IsSpecial(code[i])
    ensures var ts := Tokenize(NewLexer(code));
            |ts| == 2 && ts[0] == Token(Text, code, 1, 1) && ts[1].kind == EOF
  {
    var l := NewLexer(code);
    assert SkipWhitespace(l) == l;
    var res := TokenAt(l);
    var tok, r := res.0, res.1;
    assert r.pos == |code|;
    assert tok == Token(Text, code, 1, 1) by {
      assert tok.literal == code[0..r.pos];
    }
    assert SkipWhitespace(r) == r;
    var eof := TokenAt(r).0;
    assert eof.kind == EOF;
    assert Tokenize(r) == [eof];
    assert NextToken(l) == (tok, r);
    assert Tokenize(l) == [tok, eof];
  }
}
