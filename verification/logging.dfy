/** The console-formatting helpers: colour tags such as `[&red]` turned
    into ANSI escape sequences, block indentation, and aligned key/value
    lines. */
module Logging {
  import opened Wrappers
  import opened Text

  /** The escape sequence of each known tag name. */
  const Codes: map<string, string> := map[
    "red" := "\U{1B}[31m",
    "green" := "\U{1B}[32m",
    "yellow" := "\U{1B}[33m",
    "blue" := "\U{1B}[34m",
    "magenta" := "\U{1B}[35m",
    "cyan" := Cyan,
    "white" := "\U{1B}[37m",
    "bold" := "\U{1B}[1m",
    "underline" := "\U{1B}[4m",
    "blink" := "\U{1B}[5m",
    "invert" := "\U{1B}[7m",
    "reset" := Reset
  ]

  const Cyan: string := "\U{1B}[36m"
  const Reset: string := "\U{1B}[0m"

  /** The text of the tag for `name`. */
  function Tag(name: string): string {
    "[&" + name + "]"
  }

  predicate IsLower(c: char) {
    'a' <= c <= 'z'
  }

  /** The length of the run of lower-case letters that `s` starts with. */
  function Letters(s: string): (n: nat)
    ensures n <= |s|
    ensures forall i :: 0 <= i < n ==> IsLower(s[i])
    ensures n < |s| ==> !IsLower(s[n])
  {
    if |s| == 0 || !IsLower(s[0]) then 0 else 1 + Letters(s[1..])
  }

  /** `s` starts with a tag `[&name]` of length `n`, `name` being one or
      more lower-case letters. */
  predicate TagPrefix(s: string, n: int) {
    && 4 <= n <= |s| && s[0] == '[' && s[1] == '&' && s[n - 1] == ']'
    && forall i :: 2 <= i < n - 1 ==> IsLower(s[i])
  }

  /** The length of the tag that `s` starts with, if it starts with one:
      `[&`, lower-case letters matched greedily, then `]`. */
  function TagLength(s: string): (r: Option<nat>)
    ensures r.Some? ==> TagPrefix(s, r.value)
  {
    if |s| >= 3 && s[0] == '[' && s[1] == '&' then
      var n := Letters(s[2..]);
      if n > 0 && 2 + n < |s| && s[2 + n] == ']' then
        assert forall i :: 2 <= i < n + 2 ==> IsLower(s[i]) by {
          forall i | 2 <= i < n + 2 ensures IsLower(s[i]) {
            assert s[i] == s[2..][i - 2];
          }
        }
        Some(n + 3)
      else None
    else None
  }

  /** Whenever `s` starts with a tag, `TagLength` finds exactly that one:
      it is the only match the pattern `\[&([a-z]+)]` has at the start. */
  lemma TagLengthUnique(s: string, n: int)
    requires TagPrefix(s, n)
    ensures TagLength(s) == Some(n)
  {
    var k := Letters(s[2..]);
    assert forall i :: 0 <= i < n - 3 ==> IsLower(s[2..][i]) by {
      forall i | 0 <= i < n - 3 ensures IsLower(s[2..][i]) {
        assert s[2..][i] == s[i + 2];
      }
    }
    assert s[2..][n - 3] == ']';
    assert k == n - 3;
  }

  /** What a tag is replaced by: its code in `codes`, or nothing for a name
      that is not there. */
  function TagCode(codes: map<string, string>, name: string): (r: string)
    ensures name in codes ==> r == codes[name]
    ensures name !in codes ==> r == ""
  {
    if name in codes then codes[name] else ""
  }

  /** The tag scan of `parseTags` for a given table of codes: every tag,
      scanning left to right without overlap, is replaced by its code;
      everything else is copied. */
  function ExpandTags(codes: map<string, string>, s: string): (r: string)
    decreases |s|
  {
    if |s| == 0 then ""
    else match TagLength(s)
      case Some(n) => TagCode(codes, s[2..n - 1]) + ExpandTags(codes, s[n..])
      case None => [s[0]] + ExpandTags(codes, s[1..])
  }

  /** `parseTags`: the tag scan with the colour and style table. */
  function ParseTags(s: string): string {
    ExpandTags(Codes, s)
  }

  predicate NoBracket(s: string) {
    forall i :: 0 <= i < |s| ==> s[i] != '['
  }

  /** A byte other than `[` cannot start a tag and is copied. */
  lemma PlainHead(codes: map<string, string>, s: string)
    requires |s| > 0 && s[0] != '['
    ensures ExpandTags(codes, s) == [s[0]] + ExpandTags(codes, s[1..])
  {
    var t := TagLength(s);
    assert t.None?;
  }

  /** Text without an opening bracket holds no tag and passes through. */
  lemma {:induction false} PlainPrefix(codes: map<string, string>, a: string, b: string)
    requires NoBracket(a)
    ensures ExpandTags(codes, a + b) == a + ExpandTags(codes, b)
    decreases |a|
  {
    if |a| > 0 {
      var s := a + b;
      assert ExpandTags(codes, s) == [a[0]] + ExpandTags(codes, a[1..] + b) by {
        assert s[0] == a[0];
        PlainHead(codes, s);
        assert s[1..] == a[1..] + b;
      }
      assert NoBracket(a[1..]);
      PlainPrefix(codes, a[1..], b);
      HeadTail(a, ExpandTags(codes, b));
    } else {
      assert a + b == b;
    }
  }

  lemma HeadTail(a: string, e: string)
    requires |a| > 0
    ensures [a[0]] + (a[1..] + e) == a + e
  {
    assert a == [a[0]] + a[1..];
  }

  lemma UntaggedUnchanged(codes: map<string, string>, s: string)
    requires NoBracket(s)
    ensures ExpandTags(codes, s) == s
  {
    PlainPrefix(codes, s, "");
    assert s + "" == s;
  }

  /** A string that starts with a tag has it replaced by its code. */
  lemma ExpandsTag(codes: map<string, string>, name: string, rest: string)
    requires |name| > 0 && forall i :: 0 <= i < |name| ==> IsLower(name[i])
    ensures ExpandTags(codes, Tag(name) + rest) == TagCode(codes, name) + ExpandTags(codes, rest)
  {
    var s := Tag(name) + rest;
    assert s[2..] == name + ("]" + rest);
    LettersOf(name, "]" + rest);
    assert TagPrefix(s, |name| + 3) by {
      forall i | 2 <= i < |name| + 2 ensures IsLower(s[i]) {
        assert s[i] == name[i - 2];
      }
    }
    TagLengthUnique(s, |name| + 3);
    assert s[2..|name| + 2] == name;
    assert s[|name| + 3..] == rest;
  }

  lemma {:induction false} LettersOf(name: string, rest: string)
    requires forall i :: 0 <= i < |name| ==> IsLower(name[i])
    requires |rest| > 0 && !IsLower(rest[0])
    ensures Letters(name + rest) == |name|
    decreases |name|
  {
    if |name| > 0 {
      assert (name + rest)[1..] == name[1..] + rest;
      LettersOf(name[1..], rest);
    } else {
      assert name + rest == rest;
    }
  }

  /** `indent`: every line of `s`, the first included, is prefixed with
      four spaces per level of padding. */
  function Indent(s: string, padding: nat): string {
    var pad := Spaces(4 * padding);
    pad + ReplaceChar(s, '\n', "\n" + pad)
  }

  /** Each line prefixed with `pad`. */
  function Padded(lines: seq<string>, pad: string): (r: seq<string>)
    ensures |r| == |lines| && forall i :: 0 <= i < |lines| ==> r[i] == pad + lines[i]
  {
    if |lines| == 0 then [] else [pad + lines[0]] + Padded(lines[1..], pad)
  }

  lemma {:induction false} ReplaceCharAppend(a: string, b: string, c: char, rep: string)
    ensures ReplaceChar(a + b, c, rep) == ReplaceChar(a, c, rep) + ReplaceChar(b, c, rep)
    decreases |a|
  {
    if |a| > 0 {
      assert (a + b)[0] == a[0] && (a + b)[1..] == a[1..] + b;
      ReplaceCharAppend(a[1..], b, c, rep);
    } else {
      assert a + b == b;
    }
  }

  lemma {:induction false} ReplaceCharAbsent(a: string, c: char, rep: string)
    requires forall i :: 0 <= i < |a| ==> a[i] != c
    ensures ReplaceChar(a, c, rep) == a
    decreases |a|
  {
    if |a| > 0 {
      ReplaceCharAbsent(a[1..], c, rep);
      assert [a[0]] + a[1..] == a;
    }
  }

  /** Lines joined by newlines come out indented line by line. */
  lemma {:induction false} IndentLines(lines: seq<string>, padding: nat)
    requires |lines| > 0
    requires forall k, i :: 0 <= k < |lines| && 0 <= i < |lines[k]| ==> lines[k][i] != '\n'
    ensures Indent(Join(lines, "\n"), padding) == Join(Padded(lines, Spaces(4 * padding)), "\n")
    decreases |lines|
  {
    var pad := Spaces(4 * padding);
    var rep := "\n" + pad;
    var padded := Padded(lines, pad);
    ReplaceCharAbsent(lines[0], '\n', rep);
    if |lines| > 1 {
      var rest := Join(lines[1..], "\n");
      var r0 := ReplaceChar(rest, '\n', rep);
      assert ReplaceChar(Join(lines, "\n"), '\n', rep) == lines[0] + rep + r0 by {
        assert Join(lines, "\n") == lines[0] + "\n" + rest;
        ReplaceCharAppend(lines[0] + "\n", rest, '\n', rep);
        ReplaceCharAppend(lines[0], "\n", '\n', rep);
        assert ReplaceChar("\n", '\n', rep) == rep + ReplaceChar("", '\n', rep);
      }
      assert pad + r0 == Join(padded[1..], "\n") by {
        IndentLines(lines[1..], padding);
        assert padded[1..] == Padded(lines[1..], pad);
      }
      assert Join(padded, "\n") == pad + lines[0] + "\n" + Join(padded[1..], "\n");
      Regroup5(pad, lines[0], "\n", pad, r0);
    }
  }

  lemma Regroup5(a: string, b: string, c: string, d: string, e: string)
    ensures a + (b + (c + d) + e) == a + b + c + (d + e)
  {
  }

  /** Every line of any text, as `strings.Split` finds the lines, comes out
      prefixed with the padding. */
  lemma IndentEveryLine(s: string, padding: nat)
    ensures Indent(s, padding) == Join(Padded(Split(s, "\n"), Spaces(4 * padding)), "\n")
  {
    var lines := Split(s, "\n");
    forall k, i | 0 <= k < |lines| && 0 <= i < |lines[k]| ensures lines[k][i] != '\n' {
      if lines[k][i] == '\n' {
        assert OccursAt(lines[k], "\n", i);
        assert false;
      }
    }
    IndentLines(lines, padding);
  }

  /** No padding leaves the text as it is. */
  lemma {:induction false} IndentZero(s: string)
    ensures Indent(s, 0) == s
    decreases |s|
  {
    if |s| > 0 {
      IndentZero(s[1..]);
      assert [s[0]] + s[1..] == s;
    }
  }

  /** `kvfmt`: the key in cyan followed by a colon, padding that aligns
      the values of keys up to `maxKeyLen` long, a tab and the value; the
      whole line, key and value included, goes through `ParseTags`. A key
      longer than `maxKeyLen` makes the padding count negative, on which
      the source panics; that is the precondition. */
  function KvFmt(key: string, value: string, maxKeyLen: nat): string
    requires |key| <= maxKeyLen
  {
    ParseTags(Tag("cyan") + key + ":" + Tag("reset") + Spaces(maxKeyLen - |key|) + "\t" + value)
  }

  /** A tag, bracket-free text, a tag, bracket-free text: both tags are
      replaced and the text is kept. */
  lemma {:induction false} TagTextTagText(codes: map<string, string>, n1: string, head: string, n2: string,
                                          tail: string)
    requires |n1| > 0 && forall i :: 0 <= i < |n1| ==> IsLower(n1[i])
    requires |n2| > 0 && forall i :: 0 <= i < |n2| ==> IsLower(n2[i])
    requires NoBracket(head) && NoBracket(tail)
    ensures ExpandTags(codes, Tag(n1) + (head + (Tag(n2) + tail)))
            == TagCode(codes, n1) + (head + (TagCode(codes, n2) + tail))
  {
    UntaggedUnchanged(codes, tail);
    ExpandsTag(codes, n2, tail);
    PlainPrefix(codes, head, Tag(n2) + tail);
    ExpandsTag(codes, n1, head + (Tag(n2) + tail));
  }

  lemma CyanAndReset()
    ensures TagCode(Codes, "cyan") == Cyan && TagCode(Codes, "reset") == Reset
    ensures forall i :: 0 <= i < |"cyan"| ==> IsLower("cyan"[i])
    ensures forall i :: 0 <= i < |"reset"| ==> IsLower("reset"[i])
  {
  }

  /** For a key and value without brackets, the line is the key in cyan,
      a colon, the reset code, the padding, a tab and the value. */
  lemma KvFmtLayout(key: string, value: string, maxKeyLen: nat)
    requires |key| <= maxKeyLen && NoBracket(key) && NoBracket(value)
    ensures KvFmt(key, value, maxKeyLen)
            == Cyan + key + ":" + Reset + Spaces(maxKeyLen - |key|) + "\t" + value
  {
    var sp := Spaces(maxKeyLen - |key|);
    var tail := sp + "\t" + value;
    var head := key + ":";
    assert NoBracket(head) && NoBracket(tail);
    CyanAndReset();
    TagTextTagText(Codes, "cyan", head, "reset", tail);
    Regroup(Tag("cyan"), key, ":", Tag("reset"), sp, "\t", value);
    Regroup(Cyan, key, ":", Reset, sp, "\t", value);
  }

  lemma Regroup(a: string, b: string, c: string, d: string, e: string, f: string, g: string)
    ensures a + b + c + d + e + f + g == a + ((b + c) + (d + ((e + f) + g)))
  {
  }

  /** The values line up: the tab sits at the same column for every key up
      to `maxKeyLen` long. */
  lemma KvFmtAligned(key: string, value: string, maxKeyLen: nat)
    requires |key| <= maxKeyLen && NoBracket(key) && NoBracket(value)
    ensures var r := KvFmt(key, value, maxKeyLen);
            var col := |Cyan| + maxKeyLen + 1 + |Reset|;
            col < |r| && r[col] == '\t'
  {
    KvFmtLayout(key, value, maxKeyLen);
    var before := Cyan + key + ":" + Reset + Spaces(maxKeyLen - |key|);
    assert |before| == |Cyan| + maxKeyLen + 1 + |Reset|;
    assert KvFmt(key, value, maxKeyLen) == before + ("\t" + value);
  }
}
