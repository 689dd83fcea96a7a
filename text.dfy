/** The handful of Python string operations and regular-expression patterns
    that parse_plan.py uses, each written out for the one shape it is used
    with: `str.strip()`, `str.strip(c)`, the `in` operator, a leftmost
    `re.search` for a literal followed by `(.*)`, and the pattern
    `Task ([0-9-]+):`. No general regular-expression engine is modelled. */
module Text {
  import opened Options

  // ---------------------------------------------------------------------------
  // str.strip

  /** The characters for which Python's `str.isspace()` holds, which is the set
      `str.strip()` with no argument removes. */
  predicate IsSpace(c: char) {
    ('\U{0009}' <= c <= '\U{000D}') || ('\U{001C}' <= c <= '\U{001F}') || c == ' '
    || c == '\U{0085}' || c == '\U{00A0}' || c == '\U{1680}'
    || ('\U{2000}' <= c <= '\U{200A}') || c == '\U{2028}' || c == '\U{2029}'
    || c == '\U{202F}' || c == '\U{205F}' || c == '\U{3000}'
  }

  /** The set of characters a call to `strip` removes: whitespace for
      `strip()`, one given character for `strip(c)`. */
  datatype CharSet = Whitespace | Only(c: char) {
    predicate Has(x: char) {
      match this
      case Whitespace => IsSpace(x)
      case Only(c) => x == c
    }
  }

  /** Removes the longest prefix of `s` whose characters all lie in `cs`. */
  function TrimStart(s: string, cs: CharSet): (r: string)
    ensures |r| <= |s|
  {
    if s != [] && cs.Has(s[0]) then TrimStart(s[1..], cs) else s
  }

  /** Removes the longest suffix of `s` whose characters all lie in `cs`. */
  function TrimEnd(s: string, cs: CharSet): (r: string)
    ensures |r| <= |s|
  {
    if s != [] && cs.Has(s[|s| - 1]) then TrimEnd(s[..|s| - 1], cs) else s
  }

  /** Python's `s.strip()` (for `Whitespace`) and `s.strip(c)` (for `Only(c)`). */
  function Strip(s: string, cs: CharSet): (r: string)
    ensures |r| <= |s|
  {
    TrimEnd(TrimStart(s, cs), cs)
  }

  /** `TrimStart` leaves a suffix of `s`, removing only characters of `cs`
      and stopping at the first character outside it. */
  lemma {:induction false} TrimStartRemovesPrefix(s: string, cs: CharSet)
    ensures var r := TrimStart(s, cs);
      r == s[|s| - |r|..] && (forall i :: 0 <= i < |s| - |r| ==> cs.Has(s[i]))
      && (r == [] || !cs.Has(r[0]))
  {
    if s != [] && cs.Has(s[0]) {
      TrimStartRemovesPrefix(s[1..], cs);
    }
  }

  /** `TrimEnd` leaves a prefix of `s`, removing only characters of `cs` and
      stopping at the last character outside it. */
  lemma {:induction false} TrimEndRemovesSuffix(s: string, cs: CharSet)
    ensures var r := TrimEnd(s, cs);
      r == s[..|r|] && (forall i :: |r| <= i < |s| ==> cs.Has(s[i]))
      && (r == [] || !cs.Has(r[|r| - 1]))
  {
    if s != [] && cs.Has(s[|s| - 1]) {
      TrimEndRemovesSuffix(s[..|s| - 1], cs);
    }
  }

  /** The result of `Strip` neither starts nor ends with a character of `cs`. */
  lemma StripEdges(s: string, cs: CharSet)
    ensures var r := Strip(s, cs); r == [] || (!cs.Has(r[0]) && !cs.Has(r[|r| - 1]))
  {
    var t := TrimStart(s, cs);
    TrimStartRemovesPrefix(s, cs);
    TrimEndRemovesSuffix(t, cs);
  }

  /** `Strip` keeps a contiguous part of `s`, starting at offset `a`, and
      removes only characters of `cs` before and after it. */
  lemma StripKeepsMiddle(s: string, cs: CharSet) returns (a: nat)
    ensures var r := Strip(s, cs);
      a + |r| <= |s| && r == s[a..a + |r|]
      && (forall i :: 0 <= i < a ==> cs.Has(s[i]))
      && (forall i :: a + |r| <= i < |s| ==> cs.Has(s[i]))
  {
    var t := TrimStart(s, cs);
    TrimStartRemovesPrefix(s, cs);
    TrimEndRemovesSuffix(t, cs);
    a := |s| - |t|;
  }

  lemma {:induction false} TrimStartSkips(p: string, s: string, cs: CharSet)
    requires forall i :: 0 <= i < |p| ==> cs.Has(p[i])
    requires s == [] || !cs.Has(s[0])
    ensures TrimStart(p + s, cs) == s
  {
    if p != [] {
      assert (p + s)[1..] == p[1..] + s;
      TrimStartSkips(p[1..], s, cs);
    }
  }

  lemma {:induction false} TrimEndSkips(s: string, q: string, cs: CharSet)
    requires forall i :: 0 <= i < |q| ==> cs.Has(q[i])
    requires s == [] || !cs.Has(s[|s| - 1])
    ensures TrimEnd(s + q, cs) == s
  {
    if q != [] {
      assert (s + q)[..|s + q| - 1] == s + q[..|q| - 1];
      TrimEndSkips(s, q[..|q| - 1], cs);
    }
  }

  /** `Strip` is exactly "remove what lies in `cs` at both ends": a string
      that neither starts nor ends with a character of `cs`, surrounded by
      runs of characters of `cs`, strips back to itself. Together with
      `StripKeepsMiddle` and `StripEdges` this determines the result of every
      call. */
  lemma {:induction false} StripRecoversCore(p: string, s: string, q: string, cs: CharSet)
    requires forall i :: 0 <= i < |p| ==> cs.Has(p[i])
    requires forall i :: 0 <= i < |q| ==> cs.Has(q[i])
    requires s == [] || (!cs.Has(s[0]) && !cs.Has(s[|s| - 1]))
    ensures Strip(p + s + q, cs) == s
  {
    if s == [] {
      assert p + s + q == p + q + [];
      TrimStartSkips(p + q, [], cs);
    } else {
      assert p + s + q == p + (s + q);
      TrimStartSkips(p, s + q, cs);
      TrimEndSkips(s, q, cs);
    }
  }

  /** A string with no character of `cs` at either end is left unchanged. */
  lemma StripFixesStripped(s: string, cs: CharSet)
    requires s == [] || (!cs.Has(s[0]) && !cs.Has(s[|s| - 1]))
    ensures Strip(s, cs) == s
  {
    var none: string := [];
    assert none + s + none == s;
    StripRecoversCore(none, s, none, cs);
  }

  /** Stripping twice removes nothing more than stripping once. */
  lemma StripIdempotent(s: string, cs: CharSet)
    ensures Strip(Strip(s, cs), cs) == Strip(s, cs)
  {
    StripEdges(s, cs);
    StripFixesStripped(Strip(s, cs), cs);
  }

  // ---------------------------------------------------------------------------
  // Substring search: `pat in s` and the leftmost match of a literal

  /** `pat` occurs in `s` starting at index `i`. */
  predicate OccursAt(s: string, pat: string, i: nat) {
    i + |pat| <= |s| && s[i..i + |pat|] == pat
  }

  /** The leftmost index at or after `from` where `pat` occurs in `s`. */
  function FindFrom(s: string, pat: string, from: nat): (r: Option<nat>)
    requires from <= |s|
    ensures r.Some? ==> from <= r.value && r.value + |pat| <= |s|
    decreases |s| - from
  {
    if OccursAt(s, pat, from) then Some(from)
    else if from == |s| then None
    else FindFrom(s, pat, from + 1)
  }

  /** `FindFrom` finds an occurrence with none before it, or reports that
      there is none at or after `from`. */
  lemma {:induction false} FindFromFinds(s: string, pat: string, from: nat)
    requires from <= |s|
    ensures FindFrom(s, pat, from).Some? ==>
      var k := FindFrom(s, pat, from).value;
      OccursAt(s, pat, k) && forall j :: from <= j < k ==> !OccursAt(s, pat, j)
    ensures FindFrom(s, pat, from).None? ==> forall j: nat :: from <= j ==> !OccursAt(s, pat, j)
    decreases |s| - from
  {
    if !OccursAt(s, pat, from) && from < |s| {
      FindFromFinds(s, pat, from + 1);
    }
  }

  /** The leftmost index where `pat` occurs in `s`, as `re.search` finds it. */
  function Find(s: string, pat: string): (r: Option<nat>)
    ensures r.Some? ==> r.value + |pat| <= |s|
  {
    FindFrom(s, pat, 0)
  }

  /** Python's `pat in s`. */
  predicate Contains(s: string, pat: string) {
    Find(s, pat).Some?
  }

  lemma ContainsMeansOccurs(s: string, pat: string)
    ensures Contains(s, pat) <==> exists i: nat :: OccursAt(s, pat, i)
  {
    FindFromFinds(s, pat, 0);
  }

  /** An occurrence with none before it is the one `FindFrom` reports. */
  lemma {:induction false} FindFromIs(s: string, pat: string, from: nat, k: nat)
    requires from <= k && OccursAt(s, pat, k)
    requires forall j :: from <= j < k ==> !OccursAt(s, pat, j)
    ensures FindFrom(s, pat, from) == Some(k)
    decreases k - from
  {
    if from < k {
      FindFromIs(s, pat, from + 1, k);
    }
  }

  /** `re.match` of a literal anchored at the start: `s` begins with `p`. */
  predicate StartsWith(s: string, p: string) {
    OccursAt(s, p, 0)
  }

  /** What `(.*)` captures from `s`: everything before the first newline,
      since `.` does not match `\n`. */
  function UpToNewline(s: string): (r: string)
    ensures |r| <= |s| && r == s[..|r|]
    ensures forall i :: 0 <= i < |r| ==> r[i] != '\n'
    ensures |r| == |s| || s[|r|] == '\n'
  {
    if s == [] || s[0] == '\n' then [] else [s[0]] + UpToNewline(s[1..])
  }

  lemma {:induction false} UpToNewlineStops(v: string, rest: string)
    requires forall k :: 0 <= k < |v| ==> v[k] != '\n'
    requires rest == [] || rest[0] == '\n'
    ensures UpToNewline(v + rest) == v
  {
    if v == [] {
      assert v + rest == rest;
    } else {
      assert (v + rest)[1..] == v[1..] + rest;
      UpToNewlineStops(v[1..], rest);
      assert [v[0]] + v[1..] == v;
    }
  }

  /** `re.search(pat + "(.*)", line)` on a line `pre + pat + v + rest` whose
      `pre` holds no earlier match: the match starts right after `pre`, and
      the group is `v` when `v` has no newline and `rest` is empty or begins
      with one. */
  lemma LeftmostGroup(pre: string, pat: string, v: string, rest: string)
    requires forall j :: 0 <= j < |pre| ==> !OccursAt(pre + pat + v + rest, pat, j)
    requires forall k :: 0 <= k < |v| ==> v[k] != '\n'
    requires rest == [] || rest[0] == '\n'
    ensures Find(pre + pat + v + rest, pat) == Some(|pre|)
    ensures UpToNewline((pre + pat + v + rest)[|pre| + |pat|..]) == v
  {
    var line := pre + pat + v + rest;
    assert line[|pre|..|pre| + |pat|] == pat;
    FindFromIs(line, pat, 0, |pre|);
    assert line[|pre| + |pat|..] == v + rest;
    UpToNewlineStops(v, rest);
  }

  // ---------------------------------------------------------------------------
  // The pattern `Task ([0-9-]+):`

  const TaskWord := "Task "

  /** A character of the class `[0-9-]`. */
  predicate IsIdChar(c: char) {
    ('0' <= c <= '9') || c == '-'
  }

  /** The length of the run of `[0-9-]` characters that starts at `from`:
      what the greedy `[0-9-]+` consumes. */
  function IdRunLength(s: string, from: nat): (n: nat)
    requires from <= |s|
    ensures from + n <= |s|
    ensures forall k :: from <= k < from + n ==> IsIdChar(s[k])
    ensures from + n == |s| || !IsIdChar(s[from + n])
    decreases |s| - from
  {
    if from < |s| && IsIdChar(s[from]) then 1 + IdRunLength(s, from + 1) else 0
  }

  /** `Task ([0-9-]+):` matches `s` at index `i`. Backtracking the greedy run
      cannot help: every shorter run is followed by a `[0-9-]` character,
      never by `:`, so the pattern matches exactly when the longest run is
      non-empty and followed by `:`. */
  predicate TaskIdAt(s: string, i: nat) {
    OccursAt(s, TaskWord, i) &&
    var n := IdRunLength(s, i + |TaskWord|);
    n > 0 && i + |TaskWord| + n < |s| && s[i + |TaskWord| + n] == ':'
  }

  /** The leftmost index at or after `from` where `Task ([0-9-]+):` matches. */
  function FindTaskIdFrom(s: string, from: nat): (r: Option<nat>)
    requires from <= |s|
    ensures r.Some? ==> from <= r.value && TaskIdAt(s, r.value)
    ensures r.Some? ==> forall j :: from <= j < r.value ==> !TaskIdAt(s, j)
    ensures r.None? ==> forall j :: from <= j <= |s| ==> !TaskIdAt(s, j)
    decreases |s| - from
  {
    if TaskIdAt(s, from) then Some(from)
    else if from == |s| then None
    else FindTaskIdFrom(s, from + 1)
  }

  /** Group 1 of a match of `Task ([0-9-]+):` at `i`. */
  function IdAt(s: string, i: nat): string
    requires TaskIdAt(s, i)
  {
    s[i + |TaskWord|..i + |TaskWord| + IdRunLength(s, i + |TaskWord|)]
  }

  /** A match at `i` spells out `Task <id>:` with a non-empty id of `[0-9-]`
      characters. */
  lemma TaskIdMatchSpelledOut(s: string, i: nat)
    requires TaskIdAt(s, i)
    ensures IdAt(s, i) != [] && forall k :: 0 <= k < |IdAt(s, i)| ==> IsIdChar(IdAt(s, i)[k])
    ensures OccursAt(s, TaskWord + IdAt(s, i) + ":", i)
  {
    var start := i + |TaskWord|;
    var n := IdRunLength(s, start);
    var id := IdAt(s, i);
    assert |TaskWord + id + ":"| == |TaskWord| + n + 1;
    assert s[i..start] == TaskWord;
    assert s[i..start + n + 1] == s[i..start] + s[start..start + n] + s[start + n..start + n + 1];
  }

  /** Group 1 of `re.search(r"Task ([0-9-]+):", s)`, or `None` without a match. */
  function TaskIdIn(s: string): (r: Option<string>)
    ensures r.Some? ==> r.value != [] && forall k :: 0 <= k < |r.value| ==> IsIdChar(r.value[k])
    ensures r.Some? <==> exists i: nat :: TaskIdAt(s, i)
    ensures r.Some? ==> exists i: nat :: TaskIdAt(s, i) && OccursAt(s, TaskWord + r.value + ":", i)
  {
    match FindTaskIdFrom(s, 0)
    case None =>
      assert forall i: nat :: !TaskIdAt(s, i) by {
        forall i: nat ensures !TaskIdAt(s, i) {
          if i > |s| {
            assert !OccursAt(s, TaskWord, i);
          }
        }
      }
      None
    case Some(i) =>
      TaskIdMatchSpelledOut(s, i);
      Some(IdAt(s, i))
  }

  /** Where `Task <id>:` is spelled out with a non-empty `id` of `[0-9-]`
      characters, the pattern matches and its group is `id`. */
  lemma {:induction false} SpelledOutTaskIdMatches(s: string, id: string, i: nat)
    requires id != [] && forall k :: 0 <= k < |id| ==> IsIdChar(id[k])
    requires OccursAt(s, TaskWord + id + ":", i)
    ensures TaskIdAt(s, i) && IdAt(s, i) == id
  {
    var start := i + |TaskWord|;
    var m := TaskWord + id + ":";
    assert s[i..i + |m|] == m;
    forall k | 0 <= k < |TaskWord|
      ensures s[i + k] == TaskWord[k]
    {
      assert s[i + k] == s[i..i + |m|][k] == m[k];
    }
    assert s[i..start] == TaskWord;
    forall k | 0 <= k < |id|
      ensures s[start + k] == id[k]
    {
      assert s[start + k] == s[i..i + |m|][|TaskWord| + k] == m[|TaskWord| + k];
    }
    assert s[start + |id|] == s[i..i + |m|][|TaskWord| + |id|] == ':';
    assert s[start..start + |id|] == id;
  }

  /** A line `pre + "Task " + id + ":" + rest` with a non-empty `id` of
      `[0-9-]` characters and no earlier match yields `id`: the greedy run
      stops at the `:`. */
  lemma TaskIdOfLeftmostMatch(pre: string, id: string, rest: string)
    requires id != [] && forall k :: 0 <= k < |id| ==> IsIdChar(id[k])
    requires forall j :: 0 <= j < |pre| ==> !TaskIdAt(pre + TaskWord + id + ":" + rest, j)
    ensures TaskIdIn(pre + TaskWord + id + ":" + rest) == Some(id)
  {
    var s := pre + TaskWord + id + ":" + rest;
    var m := TaskWord + id + ":";
    assert s == pre + m + rest;
    assert s[|pre|..|pre| + |m|] == m;
    SpelledOutTaskIdMatches(s, id, |pre|);
  }

}
