/** The core value type shared by fragments, builders and scripts: nil,
    booleans, numbers, strings, string-keyed tables and opaque script
    handles. Go tables are mutable maps shared by pointer; here every table
    is an immutable value, so each mutating operation returns the new map. */
module CoreValue {
  import opened Text

  datatype Value =
    | Nil
    | Bool(b: bool)
    | Number(n: real)
    | Str(s: string)
    | Table(entries: map<string, Value>)
    | Function(fn: nat)
    | UserData(ud: nat)

  type Entries = map<string, Value>

  /** The text a value shows when it is spliced into a fragment. Numbers are
      printed by the host's `%f` formatting, passed in as `number`. */
  function Display(v: Value, number: real -> string): (r: string)
    ensures v.Nil? ==> r == "nil"
    ensures v.Bool? ==> (r == "true" <==> v.b) && (r == "false" <==> !v.b)
    ensures v.Number? ==> r == number(v.n)
    ensures v.Str? ==> r == v.s
    ensures v.Function? ==> r == "<Lua Function>"
    ensures v.UserData? ==> r == "<Lua UserData>"
    ensures v.Table? ==> r == TableSummary(|v.entries|)
  {
    match v
    case Nil => "nil"
    case Bool(b) => if b then "true" else "false"
    case Number(n) => number(n)
    case Str(s) => s
    case Table(m) => TableSummary(|m|)
    case Function(_) => "<Lua Function>"
    case UserData(_) => "<Lua UserData>"
  }

  const TablePrefix: string := "[fragments.CoreTable with "

  /** How a table displays: its entry count, with "item" in the singular
      only for exactly one entry. */
  function TableSummary(count: nat): (r: string)
    ensures |r| > |TablePrefix| && r[..|TablePrefix|] == TablePrefix
    ensures r[|r| - 1] == ']'
  {
    TablePrefix + NatToString(count) + " item" + (if count == 1 then "" else "s") + "]"
  }

  /** The summary spells out the count: after the prefix come decimal
      digits, without a leading zero, that read back as `count`, then
      " item]" for exactly one entry and " items]" otherwise. */
  lemma TableSummaryShowsCount(count: nat)
    ensures var r := TableSummary(count);
            var unit := if count == 1 then " item]" else " items]";
            && |TablePrefix| + |unit| < |r|
            && r[..|TablePrefix|] == TablePrefix
            && r[|r| - |unit|..] == unit
            && var digits := r[|TablePrefix|..|r| - |unit|];
               && AllDigits(digits) && DigitsValue(digits) == count
               && (digits[0] == '0' <==> count == 0)
  {
    var digits := NatToString(count);
    var unit := if count == 1 then " item]" else " items]";
    var r := TableSummary(count);
    assert r == TablePrefix + digits + unit;
    assert r[|TablePrefix|..|r| - |unit|] == digits;
  }

  /** The summary ends in "items]" exactly when the count is not one. */
  lemma TableSummaryPlural(count: nat)
    ensures var r := TableSummary(count);
            (r[|r| - 2] == 's') <==> count != 1
  {
    var r := TableSummary(count);
    var digits := NatToString(count);
    if count == 1 {
      assert r == TablePrefix + "1" + " item" + "]";
    } else {
      assert r == TablePrefix + digits + " item" + "s" + "]";
    }
  }

  /** `clone`: a deep copy, table by table. */
  function Clone(v: Value): Value {
    match v
    case Table(m) => Table(map k | k in m :: Clone(m[k]))
    case _ => v
  }

  /** With value semantics a deep copy is the value itself: nothing the copy
      does can reach the original, and nothing is lost. */
  lemma {:induction false} CloneIsIdentity(v: Value)
    ensures Clone(v) == v
  {
    match v
    case Table(m) =>
      forall k | k in m
        ensures Clone(m[k]) == m[k]
      {
        CloneIsIdentity(m[k]);
      }
      assert (map k | k in m :: Clone(m[k])) == m;
    case _ =>
  }

  /** `mergeMut`: the entries of `other` are written into `mine`; where both
      hold a table under the same key the two tables are merged recursively,
      otherwise the entry of `other` wins. */
  function MergeMut(mine: Entries, other: Entries): (r: Entries)
    ensures r.Keys == mine.Keys + other.Keys
    ensures forall k :: k in mine && k !in other ==> r[k] == mine[k]
    ensures forall k :: k in other && !(k in mine && mine[k].Table? && other[k].Table?) ==> r[k] == other[k]
    ensures forall k :: k in mine && k in other && mine[k].Table? && other[k].Table? ==>
              r[k].Table? && r[k].entries.Keys == mine[k].entries.Keys + other[k].entries.Keys
    decreases Table(other)
  {
    map k | k in mine.Keys + other.Keys ::
      if k !in other then mine[k]
      else if k in mine && mine[k].Table? && other[k].Table? then
        Table(MergeMut(mine[k].entries, other[k].entries))
      else other[k]
  }

  /** `merge`: like `mergeMut`, but into a deep copy of `mine`. */
  function Merge(mine: Entries, other: Entries): (r: Entries)
    ensures r.Keys == mine.Keys + other.Keys
  {
    MergeMut(map k | k in mine :: Clone(mine[k]), other)
  }

  /** Merging into a copy gives what merging in place gives. */
  lemma MergeIsMergeMut(mine: Entries, other: Entries)
    ensures Merge(mine, other) == MergeMut(mine, other)
  {
    forall k | k in mine
      ensures Clone(mine[k]) == mine[k]
    {
      CloneIsIdentity(mine[k]);
    }
    assert (map k | k in mine :: Clone(mine[k])) == mine;
  }

  /** Merging a table into itself changes nothing. */
  lemma {:induction false} MergeMutIdempotent(m: Entries)
    ensures MergeMut(m, m) == m
    decreases Table(m)
  {
    forall k | k in m && m[k].Table?
      ensures MergeMut(m[k].entries, m[k].entries) == m[k].entries
    {
      MergeMutIdempotent(m[k].entries);
    }
  }

  /** The empty table is a unit on both sides. */
  lemma MergeMutEmpty(m: Entries)
    ensures MergeMut(m, map[]) == m
    ensures MergeMut(map[], m) == m
  {
  }

  // ----- Dotted keys -----

  /** `getNestedValue` after the key is split on dots: every segment but the
      last must name a table; a missing key or a non-table on the way
      yields nil. */
  function GetPath(m: Entries, keys: seq<string>): (r: Value)
    requires |keys| > 0
    ensures keys[0] !in m ==> r == Nil
    ensures |keys| == 1 && keys[0] in m ==> r == m[keys[0]]
    decreases |keys|
  {
    if keys[0] !in m then Nil
    else if |keys| == 1 then m[keys[0]]
    else if m[keys[0]].Table? then GetPath(m[keys[0]].entries, keys[1..])
    else Nil
  }

  /** A path that reads something other than nil runs through a table at
      every proper prefix. */
  lemma {:induction false} GetPathThroughTables(m: Entries, keys: seq<string>)
    requires |keys| > 0 && GetPath(m, keys) != Nil
    ensures forall j :: 0 < j < |keys| ==> GetPath(m, keys[..j]).Table?
    decreases |keys|
  {
    if |keys| > 1 {
      var inner := m[keys[0]].entries;
      GetPathThroughTables(inner, keys[1..]);
      forall j | 0 < j < |keys|
        ensures GetPath(m, keys[..j]).Table?
      {
        if j > 1 {
          assert keys[..j][1..] == keys[1..][..j - 1];
        }
      }
    }
  }

  /** The path leaves `m`: some segment is missing while every segment
      before it names a table. */
  predicate Misses(m: Entries, keys: seq<string>)
    requires |keys| > 0
    decreases |keys|
  {
    keys[0] !in m || (|keys| > 1 && m[keys[0]].Table? && Misses(m[keys[0]].entries, keys[1..]))
  }

  /** The path is present in `m`: every segment is there, and every
      segment before the last names a table. */
  predicate Reaches(m: Entries, keys: seq<string>)
    requires |keys| > 0
    decreases |keys|
  {
    keys[0] in m && (|keys| == 1 || (m[keys[0]].Table? && Reaches(m[keys[0]].entries, keys[1..])))
  }

  /** A path that reads anything but nil is present. */
  lemma {:induction false} FoundPathReaches(m: Entries, keys: seq<string>)
    requires |keys| > 0 && GetPath(m, keys) != Nil
    ensures Reaches(m, keys)
    decreases |keys|
  {
    if |keys| > 1 {
      FoundPathReaches(m[keys[0]].entries, keys[1..]);
    }
  }

  /** A path that leaves the table reads nil. */
  lemma {:induction false} MissedPathIsNil(m: Entries, keys: seq<string>)
    requires |keys| > 0 && Misses(m, keys)
    ensures GetPath(m, keys) == Nil
    decreases |keys|
  {
    if keys[0] in m {
      MissedPathIsNil(m[keys[0]].entries, keys[1..]);
    }
  }

  /** `setNestedValue` after the key is split on dots: each intermediate
      segment descends into its table, or into a fresh empty table that
      replaces a missing or non-table entry; the last segment is assigned. */
  function SetPath(m: Entries, keys: seq<string>, value: Value): (r: Entries)
    requires |keys| > 0
    ensures r.Keys == m.Keys + {keys[0]}
    ensures forall k :: k in m && k != keys[0] ==> r[k] == m[k]
    ensures |keys| > 1 ==> r[keys[0]].Table?
    decreases |keys|
  {
    if |keys| == 1 then m[keys[0] := value]
    else
      var child := if keys[0] in m && m[keys[0]].Table? then m[keys[0]].entries else map[];
      m[keys[0] := Table(SetPath(child, keys[1..], value))]
  }

  /** Reading back a path just written yields the written value. */
  lemma {:induction false} GetAfterSet(m: Entries, keys: seq<string>, value: Value)
    requires |keys| > 0
    ensures GetPath(SetPath(m, keys, value), keys) == value
    decreases |keys|
  {
    if |keys| > 1 {
      var child := if keys[0] in m && m[keys[0]].Table? then m[keys[0]].entries else map[];
      GetAfterSet(child, keys[1..], value);
    }
  }

  /** Two paths that agree on their first `i` segments and then differ. */
  predicate Diverge(a: seq<string>, b: seq<string>, i: nat) {
    i < |a| && i < |b| && a[..i] == b[..i] && a[i] != b[i]
  }

  /** Writing one path leaves every diverging path reading as before, even
      where the write replaced a non-table on the shared prefix (both reads
      are then nil). */
  lemma {:induction false} SetLeavesOtherPaths(m: Entries, keys: seq<string>, other: seq<string>,
                                               i: nat, value: Value)
    requires Diverge(keys, other, i)
    ensures GetPath(SetPath(m, keys, value), other) == GetPath(m, other)
    decreases i
  {
    if i > 0 {
      assert keys[0] == keys[..i][0] == other[..i][0] == other[0];
      var child := if keys[0] in m && m[keys[0]].Table? then m[keys[0]].entries else map[];
      assert keys[1..][..i - 1] == keys[..i][1..];
      assert other[1..][..i - 1] == other[..i][1..];
      SetLeavesOtherPaths(child, keys[1..], other[1..], i - 1, value);
      if keys[0] in m && m[keys[0]].Table? {
      } else {
        MissingPathIsNil(child, other[1..]);
      }
    }
  }

  /** Nothing is found in an empty table. */
  lemma MissingPathIsNil(m: Entries, keys: seq<string>)
    requires |keys| > 0 && m == map[]
    ensures GetPath(m, keys) == Nil
  {
  }

  /** `getNestedValue` on a dotted key. */
  function GetNested(m: Entries, key: string): Value {
    GetPath(m, Split(key, "."))
  }

  /** `setNestedValue` on a dotted key. */
  function SetNested(m: Entries, key: string, value: Value): (r: Entries)
    ensures r.Keys == m.Keys + {Split(key, ".")[0]}
    ensures forall k :: k in m && k != Split(key, ".")[0] ==> r[k] == m[k]
  {
    SetPath(m, Split(key, "."), value)
  }

  /** A dotted key reads back what was set under it. */
  lemma NestedRoundTrip(m: Entries, key: string, value: Value)
    ensures GetNested(SetNested(m, key, value), key) == value
  {
    GetAfterSet(m, Split(key, "."), value);
  }

  /** A key without dots is a plain entry. */
  lemma UndottedKey(m: Entries, key: string)
    requires !Contains(key, ".")
    ensures GetNested(m, key) == (if key in m then m[key] else Nil)
    ensures SetNested(m, key, Nil) == m[key := Nil]
  {
    var parts := Split(key, ".");
    if |parts| > 1 {
      assert OccursAt(key, ".", |parts[0]|) by {
        JoinHead(parts, ".");
      }
      assert false;
    }
    assert Join(parts, ".") == parts[0];
  }

  lemma JoinHead(parts: seq<string>, sep: string)
    requires |parts| > 1
    ensures var s := Join(parts, sep);
            |parts[0]| + |sep| <= |s| && s[|parts[0]|..|parts[0]| + |sep|] == sep
  {
    var s := Join(parts, sep);
    assert s == parts[0] + sep + Join(parts[1..], sep);
    assert s[|parts[0]|..|parts[0]| + |sep|] == (parts[0] + sep)[|parts[0]|..];
  }

  /** Along a path present in `other`, the merge reads what `other` holds
      there (a nil or a table included), except where both sides hold a
      table, which then merges recursively: the last writer wins at any
      depth. */
  lemma {:induction false} MergeOtherWins(mine: Entries, other: Entries, keys: seq<string>)
    requires |keys| > 0 && Reaches(other, keys)
    ensures !(GetPath(mine, keys).Table? && GetPath(other, keys).Table?) ==>
              GetPath(MergeMut(mine, other), keys) == GetPath(other, keys)
    ensures GetPath(mine, keys).Table? && GetPath(other, keys).Table? ==>
              GetPath(MergeMut(mine, other), keys)
              == Table(MergeMut(GetPath(mine, keys).entries, GetPath(other, keys).entries))
    decreases |keys|
  {
    var k := keys[0];
    var r := MergeMut(mine, other);
    if |keys| > 1 {
      if k in mine && mine[k].Table? {
        assert r[k] == Table(MergeMut(mine[k].entries, other[k].entries));
        MergeOtherWins(mine[k].entries, other[k].entries, keys[1..]);
      } else {
        assert r[k] == other[k];
        assert GetPath(mine, keys) == Nil;
      }
    }
  }

  /** In particular a non-table value of `other` at the end of a path of
      tables is what the merge reads there. */
  lemma MergeLastWriterWins(mine: Entries, other: Entries, keys: seq<string>)
    requires |keys| > 0
    requires GetPath(other, keys) != Nil && !GetPath(other, keys).Table?
    ensures GetPath(MergeMut(mine, other), keys) == GetPath(other, keys)
  {
    FoundPathReaches(other, keys);
    MergeOtherWins(mine, other, keys);
  }

  /** What `other` does not reach survives the merge at any depth: along a
      path that leaves `other`, the merge reads what `mine` reads. */
  lemma {:induction false} MergeKeepsMine(mine: Entries, other: Entries, keys: seq<string>)
    requires |keys| > 0 && Misses(other, keys)
    ensures GetPath(MergeMut(mine, other), keys) == GetPath(mine, keys)
    decreases |keys|
  {
    var k := keys[0];
    var r := MergeMut(mine, other);
    if k in other {
      if k in mine && mine[k].Table? {
        assert r[k] == Table(MergeMut(mine[k].entries, other[k].entries));
        MergeKeepsMine(mine[k].entries, other[k].entries, keys[1..]);
      } else {
        MissedPathIsNil(other[k].entries, keys[1..]);
      }
    }
  }
}
