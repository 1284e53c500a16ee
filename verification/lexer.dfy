/** The fragment lexer: a single pass over the source bytes, one byte of
    lookahead, producing positioned tokens. The Go `Lexer` keeps `position`,
    `readPosition` and the current byte `ch`; here the state is the input
    and the index of `ch`, and `ch` is recomputed from the index (the NUL
    byte stands for "past the end", exactly as the Go code stores it). */
module Lexer {

  datatype TokenKind =
    | EOF
    | Text
    | EscapedChar
    | MetaRefStart
    | BuilderRefStart
    | FragmentRefStart
    | OpenBrace
    | CloseBrace
    | DoubleOpenBracket
    | DoubleCloseBracket

  /** The `TokenType` string constant of each kind. */
  function KindName(k: TokenKind): string {
    match k
    case EOF => "EOF"
    case Text => "TEXT"
    case EscapedChar => "ESCAPED_CHAR"
    case MetaRefStart => "META_REF"
    case BuilderRefStart => "BUILDER_REF"
    case FragmentRefStart => "FRAGMENT_REF"
    case OpenBrace => "{"
    case CloseBrace => "}"
    case DoubleOpenBracket => "[["
    case DoubleCloseBracket => "]]"
  }

  datatype Token = Token(kind: TokenKind, literal: string, line: int, column: int)

  datatype Lexer = Lexer(input: string, pos: nat, line: int, column: int)

  const NUL: char := '\0'

  /** The current byte `ch`: NUL once the input is exhausted. */
  function Ch(l: Lexer): char {
    if l.pos < |l.input| then l.input[l.pos] else NUL
  }

  /** `peekChar`: the byte after `ch`, or NUL. */
  function Peek(l: Lexer): char {
    if l.pos + 1 < |l.input| then l.input[l.pos + 1] else NUL
  }

  predicate IsBlank(c: char) {
    c == ' ' || c == '\t'
  }

  predicate IsSigil(c: char) {
    c == '@' || c == '*' || c == '$'
  }

  /** The bytes a backslash escapes. */
  predicate IsEscapable(c: char) {
    IsSigil(c) || c == '\\'
  }

  /** The bytes that end a plain-text run. */
  predicate IsSpecial(c: char) {
    IsSigil(c) || c == '\\' || c == '{' || c == '}' || c == '[' || c == ']' || c == NUL
  }

  function RefKind(sigil: char): TokenKind
    requires IsSigil(sigil)
  {
    if sigil == '@' then FragmentRefStart
    else if sigil == '*' then BuilderRefStart
    else MetaRefStart
  }

  /** The source text a token was read from (the skipped blanks excluded). */
  function Spelling(t: Token): string {
    match t.kind
    case EOF => ""
    case EscapedChar => "\\" + t.literal
    case _ => t.literal
  }

  // ---------------------------------------------------------------------
  // Positions. These are the reference definitions of where byte `p` of
  // the input sits: lines count from 1, columns count from 1 on every line.

  function LineAt(input: string, p: nat): int
    requires p <= |input|
  {
    if p == 0 then 1
    else LineAt(input, p - 1) + (if input[p - 1] == '\n' then 1 else 0)
  }

  function ColumnAt(input: string, p: nat): int
    requires p <= |input|
  {
    if p == 0 then 1
    else if input[p - 1] == '\n' then 1
    else ColumnAt(input, p - 1) + 1
  }

  /** The lexer's line and column describe the byte it is looking at. */
  predicate Tracked(l: Lexer) {
    l.pos <= |l.input| && l.line == LineAt(l.input, l.pos) && l.column == ColumnAt(l.input, l.pos)
  }

  /** `readChar`: advance one byte, moving to the next line after a newline. */
  function ReadChar(l: Lexer): (r: Lexer)
    ensures r.input == l.input && r.pos == l.pos + 1
    ensures Tracked(l) && l.pos < |l.input| ==> Tracked(r)
  {
    if Ch(l) == '\n' then Lexer(l.input, l.pos + 1, l.line + 1, 1)
    else Lexer(l.input, l.pos + 1, l.line, l.column + 1)
  }

  /** `readChar` exactly as written: the column restarts at 0, not 1, after
      a newline, although the first line's columns start at 1. */
  function ReadCharAsWritten(l: Lexer): (r: Lexer)
    ensures r.input == l.input && r.pos == l.pos + 1
    ensures Ch(l) == '\n' ==> r.line == l.line + 1 && r.column == 0
    ensures Ch(l) != '\n' ==> r.line == l.line && r.column == l.column + 1
  {
    if Ch(l) == '\n' then Lexer(l.input, l.pos + 1, l.line + 1, 0)
    else Lexer(l.input, l.pos + 1, l.line, l.column + 1)
  }

  /** `NewLexer`: the Go constructor starts at column 0 with `ch` = NUL and
      reads the first byte, which lands on line 1, column 1. */
  function NewLexer(input: string): (r: Lexer)
    ensures Tracked(r) && r.pos == 0 && r.input == input
    ensures r.line == 1 && r.column == 1
  {
    Lexer(input, 0, 1, 1)
  }

  /** On "a\nb" the as-written lexer reports `b` (line 2) at column 0, while
      `a` (line 1) is at column 1; the corrected `ReadChar` reports column 1. */
  lemma AsWrittenColumnAfterNewline()
    ensures var l := NewLexer("a\nb");
            var w := ReadCharAsWritten(ReadCharAsWritten(l));
            Ch(w) == 'b' && w.line == 2 && w.column == 0 && l.column == 1
    ensures var c := ReadChar(ReadChar(NewLexer("a\nb")));
            Ch(c) == 'b' && c.line == 2 && c.column == 1 && c.column == ColumnAt("a\nb", 2)
  {
  }

  /** `skipWhitespace`: drop spaces and tabs (never newlines). */
  function SkipWhitespace(l: Lexer): (r: Lexer)
    ensures r.input == l.input && l.pos <= r.pos
    ensures l.pos <= |l.input| ==> r.pos <= |l.input|
    ensures forall i :: l.pos <= i < r.pos ==> i < |l.input| && IsBlank(l.input[i])
    ensures !IsBlank(Ch(r))
    ensures Tracked(l) ==> Tracked(r)
    decreases |l.input| - l.pos
  {
    if l.pos < |l.input| && IsBlank(Ch(l)) then SkipWhitespace(ReadChar(l)) else l
  }

  /** `readText`: the maximal run of non-special bytes at the current byte. */
  function ReadText(l: Lexer): (res: (string, Lexer))
    requires l.pos <= |l.input|
    ensures var (text, r) := res;
            r.input == l.input && l.pos <= r.pos <= |l.input|
            && text == l.input[l.pos..r.pos]
            && (forall i :: 0 <= i < |text| ==> !IsSpecial(text[i]))
            && IsSpecial(Ch(r))
            && (Tracked(l) ==> Tracked(r))
    decreases |l.input| - l.pos
  {
    if IsSpecial(Ch(l)) then ("", l)
    else
      var (text, r) := ReadText(ReadChar(l));
      ([Ch(l)] + text, r)
  }

  function TwoByteToken(kind: TokenKind, s: Lexer): (Token, Lexer) {
    (Token(kind, [Ch(s), Peek(s)], s.line, s.column), ReadChar(ReadChar(s)))
  }

  function OneByteToken(kind: TokenKind, s: Lexer): (Token, Lexer) {
    (Token(kind, [Ch(s)], s.line, s.column), ReadChar(s))
  }

  /** The token that starts at the cursor of `s` (blanks already skipped).
      The contract states which token comes out in terms of the input bytes
      at the cursor, that the bytes consumed spell it, and that it carries
      the line and column of its first byte. */
  function TokenAt(s: Lexer): (res: (Token, Lexer))
    requires s.pos <= |s.input|
    ensures res.1.input == s.input && res.1.pos <= |s.input|
    ensures res.0.kind == EOF <==> Ch(s) == NUL
    ensures res.0.kind == EOF ==> res.1 == s && res.0.literal == ""
    ensures res.0.kind != EOF ==> s.pos < res.1.pos && s.input[s.pos..res.1.pos] == Spelling(res.0)
    ensures Tracked(s) ==> Tracked(res.1) && res.0.line == s.line && res.0.column == s.column
    // A backslash before `@ * $ \` is one escaped byte; before anything else it is text.
    ensures Ch(s) == '\\' && IsEscapable(Peek(s)) ==>
              res.0.kind == EscapedChar && res.0.literal == [Peek(s)]
    ensures Ch(s) == '\\' && !IsEscapable(Peek(s)) ==>
              res.0.kind == Text && res.0.literal == "\\"
    // A sigil opens a reference only when `{` follows it.
    ensures IsSigil(Ch(s)) && Peek(s) == '{' ==>
              res.0.kind == RefKind(Ch(s)) && res.0.literal == [Ch(s), '{']
    ensures IsSigil(Ch(s)) && Peek(s) != '{' ==>
              res.0.kind == Text && res.0.literal == [Ch(s)]
    // Braces are single bytes; a bracket is structural only when doubled,
    // and a lone one is one byte of text.
    ensures Ch(s) == '{' ==> res.0.kind == OpenBrace && res.0.literal == "{"
    ensures Ch(s) == '}' ==> res.0.kind == CloseBrace && res.0.literal == "}"
    ensures Ch(s) == '[' ==>
              if Peek(s) == '[' then res.0.kind == DoubleOpenBracket && res.0.literal == "[["
              else res.0.kind == Text && res.0.literal == "["
    ensures Ch(s) == ']' ==>
              if Peek(s) == ']' then res.0.kind == DoubleCloseBracket && res.0.literal == "]]"
              else res.0.kind == Text && res.0.literal == "]"
    // Any other byte starts a maximal, non-empty run of plain text.
    ensures !IsSpecial(Ch(s)) ==>
              && res.0.kind == Text && |res.0.literal| > 0
              && (forall i :: 0 <= i < |res.0.literal| ==> !IsSpecial(res.0.literal[i]))
              && IsSpecial(Ch(res.1))
  {
    var c := Ch(s);
    if c == '\\' then
      if IsEscapable(Peek(s)) then
        (Token(EscapedChar, [Peek(s)], s.line, s.column), ReadChar(ReadChar(s)))
      else OneByteToken(Text, s)
    else if IsSigil(c) then
      if Peek(s) == '{' then TwoByteToken(RefKind(c), s) else OneByteToken(Text, s)
    else if c == '{' then OneByteToken(OpenBrace, s)
    else if c == '}' then OneByteToken(CloseBrace, s)
    else if c == '[' then
      if Peek(s) == '[' then TwoByteToken(DoubleOpenBracket, s) else OneByteToken(Text, s)
    else if c == ']' then
      if Peek(s) == ']' then TwoByteToken(DoubleCloseBracket, s) else OneByteToken(Text, s)
    else if c == NUL then
      (Token(EOF, "", s.line, s.column), s)
    else
      var (text, r) := ReadText(s);
      (Token(Text, text, s.line, s.column), r)
  }

  /** `NextToken`: blanks before a token are dropped, then `TokenAt`. */
  function NextToken(l: Lexer): (res: (Token, Lexer))
    requires l.pos <= |l.input|
    ensures res.1.input == l.input && l.pos <= res.1.pos <= |l.input|
    ensures res.0.kind == EOF <==> Ch(SkipWhitespace(l)) == NUL
    ensures Tracked(l) ==> Tracked(res.1)
    ensures Tracked(l) ==> exists p :: && l.pos <= p <= |l.input|
                                      && (forall i :: l.pos <= i < p ==> IsBlank(l.input[i]))
                                      && !IsBlank(Ch(Lexer(l.input, p, 0, 0)))
                                      && res.0.line == LineAt(l.input, p)
                                      && res.0.column == ColumnAt(l.input, p)
  {
    TokenAt(SkipWhitespace(l))
  }

  /** The whole token stream from `l`: every token up to and including the
      first EOF, which is what repeated `NextToken` calls hand the parser. */
  function Tokenize(l: Lexer): (ts: seq<Token>)
    requires l.pos <= |l.input|
    ensures |ts| > 0 && ts[|ts| - 1].kind == EOF
    ensures forall k :: 0 <= k < |ts| - 1 ==> ts[k].kind != EOF
    decreases |l.input| - l.pos
  {
    var (tok, r) := NextToken(l);
    if tok.kind == EOF then [tok] else [tok] + Tokenize(r)
  }

  function Spelled(ts: seq<Token>): string {
    if |ts| == 0 then "" else Spelling(ts[0]) + Spelled(ts[1..])
  }

  lemma SliceConcat(s: string, a: nat, b: nat)
    requires a <= b <= |s|
    ensures s[a..] == s[a..b] + s[b..]
  {
  }

  /** Lexing loses nothing but blanks: on input without blanks or NUL bytes,
      the tokens spell the input back, escapes included. */
  lemma {:induction false} TokenizeSpellsInput(l: Lexer)
    requires l.pos <= |l.input|
    requires forall i :: l.pos <= i < |l.input| ==> !IsBlank(l.input[i]) && l.input[i] != NUL
    ensures Spelled(Tokenize(l)) == l.input[l.pos..]
    decreases |l.input| - l.pos
  {
    assert SkipWhitespace(l) == l;
    var res := TokenAt(l);
    var tok, r := res.0, res.1;
    if tok.kind == EOF {
      assert l.pos == |l.input|;
    } else {
      assert Tokenize(l) == [tok] + Tokenize(r);
      assert l.input[l.pos..r.pos] == Spelling(tok);
      TokenizeSpellsInput(r);
      var ts := Tokenize(l);
      assert ts[0] == tok && ts[1..] == Tokenize(r);
      assert Spelled(ts) == Spelling(tok) + Spelled(Tokenize(r));
      SliceConcat(l.input, l.pos, r.pos);
    }
  }
}
