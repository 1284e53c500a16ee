/** The subset of Go's `strings` package that the template core relies on.
    A Go string is a sequence of bytes; here each byte is one `char`, so
    lengths and offsets agree with the Go code byte for byte. */
module Text {
  import opened Wrappers

  /** The ASCII white-space bytes that `strings.TrimSpace` removes. */
  predicate IsSpace(c: char) {
    c == ' ' || c == '\t' || c == '\n' || c == '\r' || c == '\U{0B}' || c == '\U{0C}'
  }

  predicate AllSpace(s: string) {
    forall i :: 0 <= i < |s| ==> IsSpace(s[i])
  }

  /** The number of white-space bytes `s` starts with. */
  function Leading(s: string): (n: nat)
    ensures n <= |s| && AllSpace(s[..n])
    ensures n < |s| ==> !IsSpace(s[n])
  {
    if |s| > 0 && IsSpace(s[0]) then
      var n := 1 + Leading(s[1..]);
      assert s[..n] == [s[0]] + s[1..][..n - 1];
      n
    else 0
  }

  function TrimRight(s: string): (r: string)
    ensures |r| <= |s| && r == s[..|r|]
    ensures AllSpace(s[|r|..])
    ensures |r| > 0 ==> !IsSpace(r[|r| - 1])
  {
    if |s| > 0 && IsSpace(s[|s| - 1]) then TrimRight(s[..|s| - 1]) else s
  }

  /** `strings.TrimSpace`: the longest slice of `s` that neither starts nor
      ends with white space, obtained by removing only white space (the
      leading run is `Leading(s)` bytes long). */
  function TrimSpace(s: string): (r: string)
    ensures Leading(s) + |r| <= |s| && r == s[Leading(s)..Leading(s) + |r|]
    ensures AllSpace(s[Leading(s) + |r|..])
    ensures |r| > 0 ==> !IsSpace(r[0]) && !IsSpace(r[|r| - 1])
  {
    var a := Leading(s);
    var r := TrimRight(s[a..]);
    assert s[a..][|r|..] == s[a + |r|..];
    r
  }

  /** Trimming only removes bytes: every byte of the result is one of `s`. */
  lemma TrimSpaceChars(s: string)
    ensures forall i :: 0 <= i < |TrimSpace(s)| ==> TrimSpace(s)[i] in s
  {
    var r := TrimSpace(s);
    var a := Leading(s);
    forall i | 0 <= i < |r| ensures r[i] in s {
      assert r[i] == s[a + i];
    }
  }

  lemma TrimSpaceOfSpaceFree(s: string)
    requires |s| > 0 ==> !IsSpace(s[0]) && !IsSpace(s[|s| - 1])
    ensures TrimSpace(s) == s
  {
  }

  /** `sep` occurs in `s` starting at index `i`. */
  predicate OccursAt(s: string, sep: string, i: int) {
    0 <= i && i + |sep| <= |s| && s[i..i + |sep|] == sep
  }

  predicate Contains(s: string, sep: string) {
    exists i :: 0 <= i <= |s| && OccursAt(s, sep, i)
  }

  /** `strings.Index` restricted to positions at or after `from`: the
      leftmost occurrence of `sep`, if any. */
  function IndexFrom(s: string, sep: string, from: nat): (r: Option<nat>)
    requires from <= |s|
    ensures r.Some? ==> from <= r.value && OccursAt(s, sep, r.value)
    ensures r.Some? ==> forall j :: from <= j < r.value ==> !OccursAt(s, sep, j)
    ensures r.None? ==> forall j :: from <= j ==> !OccursAt(s, sep, j)
    decreases |s| - from
  {
    if from + |sep| > |s| then None
    else if s[from..from + |sep|] == sep then Some(from)
    else if from == |s| then None
    else IndexFrom(s, sep, from + 1)
  }

  function Join(parts: seq<string>, sep: string): string
    requires |parts| > 0
  {
    if |parts| == 1 then parts[0] else parts[0] + sep + Join(parts[1..], sep)
  }

  /** `strings.Split` with a non-empty separator: the pieces between
      successive leftmost occurrences of `sep`. */
  function Split(s: string, sep: string): (parts: seq<string>)
    requires |sep| > 0
    ensures |parts| > 0
    ensures Join(parts, sep) == s
    ensures forall k :: 0 <= k < |parts| ==> !Contains(parts[k], sep)
    decreases |s|
  {
    match IndexFrom(s, sep, 0)
    case None => [s]
    case Some(i) =>
      var rest := Split(s[i + |sep|..], sep);
      var head := s[..i];
      assert !Contains(head, sep) by {
        forall j | OccursAt(head, sep, j) ensures false {
          assert OccursAt(s, sep, j);
        }
      }
      assert s == head + sep + s[i + |sep|..];
      [head] + rest
  }

  /** An occurrence inside a suffix is an occurrence in the whole string,
      shifted by where the suffix starts. */
  lemma OccursInSuffix(s: string, sep: string, a: nat, j: nat)
    requires a <= |s|
    ensures OccursAt(s[a..], sep, j) <==> OccursAt(s, sep, a + j)
  {
    if j + |sep| <= |s| - a {
      assert s[a..][j..j + |sep|] == s[a + j..a + j + |sep|];
    }
  }

  /** `Split` cuts at leftmost occurrences: there is a second piece exactly
      when `sep` occurs at all; the first piece then ends where `sep` first
      occurs, and no occurrence starts inside the second piece. */
  lemma SplitLeftmost(s: string, sep: string)
    requires |sep| > 0
    ensures var parts := Split(s, sep);
            && (|parts| == 1 <==> IndexFrom(s, sep, 0).None?)
            && (|parts| > 1 ==>
                  && IndexFrom(s, sep, 0) == Some(|parts[0]|)
                  && forall j :: |parts[0]| + |sep| <= j < |parts[0]| + |sep| + |parts[1]| ==> !OccursAt(s, sep, j))
  {
    if IndexFrom(s, sep, 0).Some? {
      var i := IndexFrom(s, sep, 0).value;
      var t := s[i + |sep|..];
      SplitPieces(s, sep, i);
      var rest := Split(t, sep);
      FirstPieceFree(t, sep);
      forall j | i + |sep| <= j < i + |sep| + |rest[0]|
        ensures !OccursAt(s, sep, j)
      {
        OccursInSuffix(s, sep, i + |sep|, j - (i + |sep|));
      }
    } else {
      assert Split(s, sep) == [s];
    }
  }

  lemma SplitAtFirst(s: string, sep: string, i: nat)
    requires |sep| > 0 && IndexFrom(s, sep, 0) == Some(i)
    ensures Split(s, sep) == [s[..i]] + Split(s[i + |sep|..], sep)
  {
  }

  lemma SplitPieces(s: string, sep: string, i: nat)
    requires |sep| > 0 && IndexFrom(s, sep, 0) == Some(i)
    ensures var parts := Split(s, sep);
            |parts| > 1 && parts[0] == s[..i] && parts[1] == Split(s[i + |sep|..], sep)[0]
  {
    SplitAtFirst(s, sep, i);
  }

  /** No occurrence of `sep` starts inside the first piece. */
  lemma FirstPieceFree(t: string, sep: string)
    requires |sep| > 0
    ensures forall j :: 0 <= j < |Split(t, sep)[0]| ==> !OccursAt(t, sep, j)
  {
    if IndexFrom(t, sep, 0).Some? {
      SplitAtFirst(t, sep, IndexFrom(t, sep, 0).value);
    }
  }

  /** `strings.Repeat(" ", n)`. */
  function Spaces(n: nat): (r: string)
    ensures |r| == n && forall i :: 0 <= i < n ==> r[i] == ' '
  {
    if n == 0 then "" else " " + Spaces(n - 1)
  }

  /** `strings.ReplaceAll(s, [c], rep)` for a one-byte pattern. */
  function ReplaceChar(s: string, c: char, rep: string): string {
    if |s| == 0 then ""
    else (if s[0] == c then rep else [s[0]]) + ReplaceChar(s[1..], c, rep)
  }

  function Count(s: string, c: char): nat {
    if |s| == 0 then 0 else (if s[0] == c then 1 else 0) + Count(s[1..], c)
  }

  function DigitChar(d: nat): (c: char)
    requires d < 10
    ensures '0' <= c <= '9' && c as int - '0' as int == d
  {
    ('0' as int + d) as char
  }

  predicate AllDigits(s: string) {
    forall i :: 0 <= i < |s| ==> '0' <= s[i] <= '9'
  }

  /** The number a string of decimal digits denotes (0 for no digits). */
  function DigitsValue(s: string): nat
    requires AllDigits(s)
  {
    if |s| == 0 then 0 else DigitsValue(s[..|s| - 1]) * 10 + (s[|s| - 1] as int - '0' as int)
  }

  /** Decimal rendering of a natural number, as `%d` prints it: digits
      that read back as `n`, without a leading zero unless `n` is 0. */
  function NatToString(n: nat): (r: string)
    ensures |r| > 0 && AllDigits(r)
    ensures DigitsValue(r) == n
    ensures r[0] == '0' <==> n == 0
    ensures n < 10 ==> r == [DigitChar(n)]
  {
    if n < 10 then [DigitChar(n)]
    else
      var r := NatToString(n / 10) + [DigitChar(n % 10)];
      assert r[..|r| - 1] == NatToString(n / 10);
      r
  }

  /** Decimal rendering of an integer, as `%d` prints it. */
  function IntToString(i: int): (r: string)
    ensures |r| > 0
  {
    if i < 0 then "-" + NatToString(-i) else NatToString(i)
  }
}
