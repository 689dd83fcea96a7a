/** parse_plan.py: find the first unchecked task of a Markdown plan and
    report its id, requirement and implementation target.

    The file read becomes the input `PlanFile` (its lines, or "not found"),
    and the three ways the script ends (returning without output, printing
    `id|requirement|target`, `sys.exit(1)`) become an `Outcome`. The two loops
    of the script are the methods `CollectTaskBlock` and
    `ExtractFieldsFromBlock`; each is proved equal to a specification function
    (`TaskBlock`, `ExtractFields`) about which the lemmas below state what the
    script promises. */
module ParsePlan {
  import opened Options
  import opened Text

  /** `re.match(r"^- \[ \] \*\*Task", line)`: the header of an unchecked task. */
  const UncheckedTaskPrefix := "- [ ] **Task"
  /** `"- 구현 대상:" in line`: the line that closes a task block. */
  const BlockEndMarker := "- 구현 대상:"
  /** The literal part of `- 요구사항: (.*)`. */
  const RequirementMarker := "- 요구사항: "
  /** The literal part of `- 구현 대상: (.*)`; unlike `BlockEndMarker` it ends in a space. */
  const TargetMarker := "- 구현 대상: "

  predicate IsTaskHeader(line: string) {
    StartsWith(line, UncheckedTaskPrefix)
  }

  predicate EndsBlock(line: string) {
    Contains(line, BlockEndMarker)
  }

  // ---------------------------------------------------------------------------
  // Collecting the block of the first unchecked task (parse_plan.py:12-22)

  /** The first index at or after `from` whose line satisfies `p`. */
  function FirstWhere(lines: seq<string>, from: nat, p: string -> bool): (r: Option<nat>)
    requires from <= |lines|
    ensures r.Some? ==> from <= r.value < |lines|
    decreases |lines| - from
  {
    if from == |lines| then None
    else if p(lines[from]) then Some(from)
    else FirstWhere(lines, from + 1, p)
  }

  /** `FirstWhere` finds a line satisfying `p` and none before it, or reports
      that there is none. */
  lemma {:induction false} FirstWhereFinds(lines: seq<string>, from: nat, p: string -> bool)
    requires from <= |lines|
    ensures FirstWhere(lines, from, p).Some? ==>
      var k := FirstWhere(lines, from, p).value;
      from <= k < |lines| && p(lines[k]) && forall j :: from <= j < k ==> !p(lines[j])
    ensures FirstWhere(lines, from, p).None? ==> forall j :: from <= j < |lines| ==> !p(lines[j])
    decreases |lines| - from
  {
    if from < |lines| && !p(lines[from]) {
      FirstWhereFinds(lines, from + 1, p);
    }
  }

  /** A half-open range of line indices. */
  datatype Span = Span(start: nat, end: nat)

  /** Where the block lies: from the first task header up to and including the
      first line at or after it that contains the block-end marker, or to the
      end of the input when there is no such line. */
  function BlockSpan(lines: seq<string>): (r: Option<Span>)
    ensures r.Some? ==> r.value.start < r.value.end <= |lines|
  {
    match FirstWhere(lines, 0, IsTaskHeader)
    case None => None
    case Some(s) =>
      match FirstWhere(lines, s, EndsBlock)
      case None => Some(Span(s, |lines|))
      case Some(e) => Some(Span(s, e + 1))
  }

  /** Each line with surrounding whitespace removed (`line.strip()`). */
  function StripAll(lines: seq<string>): seq<string> {
    seq(|lines|, i requires 0 <= i < |lines| => Strip(lines[i], Whitespace))
  }

  /** The `task_block` list the first loop of the script builds. */
  function TaskBlock(lines: seq<string>): (r: seq<string>)
    ensures |r| <= |lines|
    ensures r == [] <==> BlockSpan(lines).None?
  {
    match BlockSpan(lines)
    case None => []
    case Some(sp) => StripAll(lines[sp.start..sp.end])
  }

  lemma StripAllSnoc(lines: seq<string>, s: nat, i: nat)
    requires s <= i < |lines|
    ensures StripAll(lines[s..i + 1]) == StripAll(lines[s..i]) + [Strip(lines[i], Whitespace)]
  {
    assert lines[s..i + 1][i - s] == lines[i];
  }

  /** The first index satisfying `p` is the one before which none does. */
  lemma {:induction false} FirstWhereIs(lines: seq<string>, from: nat, p: string -> bool, k: nat)
    requires from <= k < |lines| && p(lines[k])
    requires forall j :: from <= j < k ==> !p(lines[j])
    ensures FirstWhere(lines, from, p) == Some(k)
    decreases k - from
  {
    if from < k {
      FirstWhereIs(lines, from + 1, p, k);
    }
  }

  /** Without an unchecked task header the block is empty. */
  lemma NoHeaderNoBlock(lines: seq<string>)
    requires forall j :: 0 <= j < |lines| ==> !IsTaskHeader(lines[j])
    ensures TaskBlock(lines) == []
  {
    FirstWhereFinds(lines, 0, IsTaskHeader);
  }

  /** The block of a task whose header is the first one at `s` and with no
      block-end line after it runs to the end of the input. */
  lemma OpenBlockRunsToEnd(lines: seq<string>, s: nat)
    requires s < |lines| && IsTaskHeader(lines[s])
    requires forall j :: 0 <= j < s ==> !IsTaskHeader(lines[j])
    requires forall j :: s <= j < |lines| ==> !EndsBlock(lines[j])
    ensures TaskBlock(lines) == StripAll(lines[s..])
  {
    FirstWhereIs(lines, 0, IsTaskHeader, s);
    FirstWhereFinds(lines, s, EndsBlock);
  }

  /** The block of a task whose header is the first one at `s` ends with the
      first line `e` at or after `s` that contains the block-end marker; that
      line is part of the block. */
  lemma BlockClosesAtFirstEnd(lines: seq<string>, s: nat, e: nat)
    requires s <= e < |lines| && IsTaskHeader(lines[s]) && EndsBlock(lines[e])
    requires forall j :: 0 <= j < s ==> !IsTaskHeader(lines[j])
    requires forall j :: s <= j < e ==> !EndsBlock(lines[j])
    ensures TaskBlock(lines) == StripAll(lines[s..e + 1])
  {
    FirstWhereIs(lines, 0, IsTaskHeader, s);
    FirstWhereIs(lines, s, EndsBlock, e);
  }

  /** The first loop of the script: skip lines until an unchecked task header,
      then append every line, stripped, up to and including the first one that
      contains the block-end marker. */
  method CollectTaskBlock(lines: seq<string>) returns (block: seq<string>)
    ensures block == TaskBlock(lines)
  {
    block := [];
    var inTask := false;
    ghost var start := 0;
    var i := 0;
    while i < |lines|
      invariant i <= |lines|
      invariant !inTask ==> block == [] && FirstWhere(lines, 0, IsTaskHeader) == FirstWhere(lines, i, IsTaskHeader)
      invariant inTask ==> start < i && FirstWhere(lines, 0, IsTaskHeader) == Some(start)
      invariant inTask ==> FirstWhere(lines, start, EndsBlock) == FirstWhere(lines, i, EndsBlock)
      invariant inTask ==> block == StripAll(lines[start..i])
    {
      var line := lines[i];
      if IsTaskHeader(line) {
        if !inTask {
          start := i;
          assert StripAll(lines[start..i]) == [];
        }
        inTask := true;
      }
      if inTask {
        assert block == StripAll(lines[start..i]);
        StripAllSnoc(lines, start, i);
        block := block + [Strip(line, Whitespace)];
        if EndsBlock(line) {
          break;
        }
      }
      i := i + 1;
    }
  }

  // ---------------------------------------------------------------------------
  // Extracting the three fields (parse_plan.py:28-38)

  /** `re.search(r"- 요구사항: (.*)", line)`, its group stripped of whitespace
      and then of double quotes at both ends. */
  function RequirementIn(line: string): (r: Option<string>)
    ensures r.Some? <==> Contains(line, RequirementMarker)
    ensures r.Some? ==> NoEdge(r.value, '"')
  {
    match Find(line, RequirementMarker)
    case None => None
    case Some(i) =>
      var group := Strip(UpToNewline(line[i + |RequirementMarker|..]), Whitespace);
      StripEdges(group, Only('"'));
      Some(Strip(group, Only('"')))
  }

  /** `re.search(r"- 구현 대상: (.*)", line)`, its group stripped of whitespace
      and then of backticks at both ends. */
  function TargetIn(line: string): (r: Option<string>)
    ensures r.Some? <==> Contains(line, TargetMarker)
    ensures r.Some? ==> NoEdge(r.value, '`')
  {
    match Find(line, TargetMarker)
    case None => None
    case Some(i) =>
      var group := Strip(UpToNewline(line[i + |TargetMarker|..]), Whitespace);
      StripEdges(group, Only('`'));
      Some(Strip(group, Only('`')))
  }

  /** The requirement of a line `pre + "- 요구사항: " + v + rest`, where the
      marker does not occur earlier, `v` holds no newline and `rest` is empty
      or starts one: `v` stripped of whitespace and then of double quotes. */
  lemma RequirementOfLine(pre: string, v: string, rest: string)
    requires forall j :: 0 <= j < |pre| ==> !OccursAt(pre + RequirementMarker + v + rest, RequirementMarker, j)
    requires forall k :: 0 <= k < |v| ==> v[k] != '\n'
    requires rest == [] || rest[0] == '\n'
    ensures RequirementIn(pre + RequirementMarker + v + rest) == Some(Strip(Strip(v, Whitespace), Only('"')))
  {
    LeftmostGroup(pre, RequirementMarker, v, rest);
  }

  /** The target of a line `pre + "- 구현 대상: " + v + rest`, under the same
      conditions: `v` stripped of whitespace and then of backticks. */
  lemma TargetOfLine(pre: string, v: string, rest: string)
    requires forall j :: 0 <= j < |pre| ==> !OccursAt(pre + TargetMarker + v + rest, TargetMarker, j)
    requires forall k :: 0 <= k < |v| ==> v[k] != '\n'
    requires rest == [] || rest[0] == '\n'
    ensures TargetIn(pre + TargetMarker + v + rest) == Some(Strip(Strip(v, Whitespace), Only('`')))
  {
    LeftmostGroup(pre, TargetMarker, v, rest);
  }

  /** `s` neither begins nor ends with `c`, as after `strip(c)`. */
  predicate NoEdge(s: string, c: char) {
    s == [] || (s[0] != c && s[|s| - 1] != c)
  }

  /** One of the three values the script extracts. */
  datatype Field = TaskIdField | RequirementField | TargetField

  datatype Fields = Fields(taskId: string, requirement: string, target: string) {
    function Get(which: Field): string {
      match which
      case TaskIdField => taskId
      case RequirementField => requirement
      case TargetField => target
    }
  }

  /** The field a block line sets, if any. */
  datatype LineMatch =
    | TaskIdLine(id: string)
    | RequirementLine(requirement: string)
    | TargetLine(target: string)
    | NoMatch
  {
    predicate Sets(which: Field) {
      match this
      case TaskIdLine(_) => which == TaskIdField
      case RequirementLine(_) => which == RequirementField
      case TargetLine(_) => which == TargetField
      case NoMatch => false
    }

    function Value(): string {
      match this
      case TaskIdLine(id) => id
      case RequirementLine(req) => req
      case TargetLine(t) => t
      case NoMatch => ""
    }
  }

  /** The `if`/`elif` chain of parse_plan.py:33-38: the task-id pattern is
      tried first, the requirement pattern only on lines without a task id,
      the target pattern only on lines with neither. */
  function Classify(line: string): (m: LineMatch)
    ensures m.TaskIdLine? <==> TaskIdIn(line).Some?
    ensures m.RequirementLine? <==> TaskIdIn(line).None? && Contains(line, RequirementMarker)
    ensures m.TargetLine? <==>
      TaskIdIn(line).None? && !Contains(line, RequirementMarker) && Contains(line, TargetMarker)
    ensures m.TaskIdLine? ==> m.id != [] && forall k :: 0 <= k < |m.id| ==> IsIdChar(m.id[k])
    ensures m.RequirementLine? ==>
      NoEdge(m.requirement, '"')
    ensures m.TargetLine? ==> NoEdge(m.target, '`')
    ensures m.TaskIdLine? ==> m.id == TaskIdIn(line).value
    ensures m.RequirementLine? ==> m.requirement == RequirementIn(line).value
    ensures m.TargetLine? ==> m.target == TargetIn(line).value
  {
    match TaskIdIn(line)
    case Some(id) => TaskIdLine(id)
    case None =>
      match RequirementIn(line)
      case Some(req) => RequirementLine(req)
      case None =>
        match TargetIn(line)
        case Some(t) => TargetLine(t)
        case None => NoMatch
  }

  /** One step of the second loop: the field the line sets is overwritten,
      the other two are kept. */
  function Apply(f: Fields, m: LineMatch): (r: Fields)
    ensures forall which: Field :: r.Get(which) == if m.Sets(which) then m.Value() else f.Get(which)
  {
    match m
    case TaskIdLine(id) => f.(taskId := id)
    case RequirementLine(req) => f.(requirement := req)
    case TargetLine(t) => f.(target := t)
    case NoMatch => f
  }

  /** The three values the second loop leaves behind, starting from empty
      strings. Whatever lines the block holds, the task id is a string of
      `[0-9-]` characters and the requirement and target carry no quote or
      backtick at their ends. */
  function ExtractFields(block: seq<string>): (r: Fields)
    ensures forall k :: 0 <= k < |r.taskId| ==> IsIdChar(r.taskId[k])
    ensures NoEdge(r.requirement, '"')
    ensures NoEdge(r.target, '`')
  {
    if block == [] then Fields("", "", "")
    else
      var before := ExtractFields(block[..|block| - 1]);
      var m := Classify(block[|block| - 1]);
      Apply(before, m)
  }

  lemma ExtractFieldsStep(block: seq<string>, i: nat)
    requires i < |block|
    ensures ExtractFields(block[..i + 1]) == Apply(ExtractFields(block[..i]), Classify(block[i]))
  {
    assert block[..i + 1][..i] == block[..i];
  }

  /** The second loop of the script. */
  method ExtractFieldsFromBlock(block: seq<string>) returns (taskId: string, requirement: string, target: string)
    ensures Fields(taskId, requirement, target) == ExtractFields(block)
  {
    taskId, requirement, target := "", "", "";
    for i := 0 to |block|
      invariant Fields(taskId, requirement, target) == ExtractFields(block[..i])
    {
      var line := block[i];
      ExtractFieldsStep(block, i);
      var id := TaskIdIn(line);
      if id.Some? {
        assert Classify(line) == TaskIdLine(id.value);
        taskId := id.value;
      } else {
        var req := RequirementIn(line);
        if req.Some? {
          assert Classify(line) == RequirementLine(req.value);
          requirement := req.value;
        } else {
          var t := TargetIn(line);
          if t.Some? {
            assert Classify(line) == TargetLine(t.value);
            target := t.value;
          } else {
            assert Classify(line) == NoMatch;
          }
        }
      }
    }
    assert block[..|block|] == block;
  }

  // ---------------------------------------------------------------------------
  // The outcome (parse_plan.py:4-10, 24-26, 40-44)

  /** What `open(plan_file).readlines()` yields: the lines, or FileNotFoundError. */
  datatype PlanFile = NotFound | Found(lines: seq<string>)

  datatype Cause = FileNotFound | ParseFailed

  /** Returning without output, printing one line, or `sys.exit(1)`. */
  datatype Outcome = NoPendingTask | Printed(text: string) | Failed(cause: Cause)

  function ExitCode(o: Outcome): (r: int)
    ensures r != 0 <==> o.Failed?
  {
    if o.Failed? then 1 else 0
  }

  /** `f"{task_id}|{requirement}|{target}"`, without any escaping. */
  function FormatLine(f: Fields): (r: string)
    ensures |r| == |f.taskId| + |f.requirement| + |f.target| + 2
    ensures r[..|f.taskId|] == f.taskId && r[|f.taskId|] == '|'
  {
    f.taskId + "|" + f.requirement + "|" + f.target
  }

  /** What `find_next_task_info` does, as a function of the file. */
  function NextTaskInfo(file: PlanFile): (r: Outcome)
    ensures r == Failed(FileNotFound) <==> file.NotFound?
    ensures r.Printed? ==> 5 <= |r.text|
  {
    match file
    case NotFound => Failed(FileNotFound)
    case Found(lines) =>
      var block := TaskBlock(lines);
      if block == [] then NoPendingTask
      else
        var f := ExtractFields(block);
        if f.taskId != "" && f.requirement != "" && f.target != "" then Printed(FormatLine(f))
        else Failed(ParseFailed)
  }

  /** `find_next_task_info`. */
  method FindNextTaskInfo(file: PlanFile) returns (o: Outcome)
    ensures o == NextTaskInfo(file)
  {
    if file.NotFound? {
      return Failed(FileNotFound);
    }
    var block := CollectTaskBlock(file.lines);
    if block == [] {
      return NoPendingTask;
    }
    var taskId, requirement, target := ExtractFieldsFromBlock(block);
    if taskId != "" && requirement != "" && target != "" {
      o := Printed(taskId + "|" + requirement + "|" + target);
    } else {
      o := Failed(ParseFailed);
    }
  }

  // ---------------------------------------------------------------------------
  // What the script promises

  /** A line that sets a field and is followed by no other line setting it
      decides that field: later matches overwrite earlier ones. */
  lemma {:induction false} LastMatchingLineWins(block: seq<string>, which: Field, i: nat)
    requires i < |block| && Classify(block[i]).Sets(which)
    requires forall j :: i < j < |block| ==> !Classify(block[j]).Sets(which)
    ensures ExtractFields(block).Get(which) == Classify(block[i]).Value()
    decreases |block|
  {
    var init := block[..|block| - 1];
    if i < |block| - 1 {
      assert init[i] == block[i];
      forall j | i < j < |init|
        ensures !Classify(init[j]).Sets(which)
      {
        assert init[j] == block[j];
      }
      LastMatchingLineWins(init, which, i);
    }
  }

  /** A field that no block line sets stays the empty string. */
  lemma {:induction false} UnmatchedFieldStaysEmpty(block: seq<string>, which: Field)
    requires forall j :: 0 <= j < |block| ==> !Classify(block[j]).Sets(which)
    ensures ExtractFields(block).Get(which) == ""
    decreases |block|
  {
    if block != [] {
      var init := block[..|block| - 1];
      forall j | 0 <= j < |init|
        ensures !Classify(init[j]).Sets(which)
      {
        assert init[j] == block[j];
      }
      UnmatchedFieldStaysEmpty(init, which);
    }
  }

  /** The task id the script reports is the one of the last block line with a
      match: on a line `pre + "Task " + id + ":" + rest` with no earlier
      match, followed by no line with a match, it is `id`. */
  lemma TaskIdFromLastMatchingLine(block: seq<string>, i: nat, pre: string, id: string, rest: string)
    requires i < |block| && block[i] == pre + TaskWord + id + ":" + rest
    requires id != [] && forall k :: 0 <= k < |id| ==> IsIdChar(id[k])
    requires forall j :: 0 <= j < |pre| ==> !TaskIdAt(block[i], j)
    requires forall j :: i < j < |block| ==> !Classify(block[j]).Sets(TaskIdField)
    ensures ExtractFields(block).taskId == id
  {
    TaskIdOfLeftmostMatch(pre, id, rest);
    LastMatchingLineWins(block, TaskIdField, i);
  }

  /** The requirement the script reports comes from the last block line that
      sets it: on a line `pre + "- 요구사항: " + v + rest` without a task id
      and without an earlier marker, it is `v` stripped of whitespace and
      then of double quotes. */
  lemma RequirementFromLastMatchingLine(block: seq<string>, i: nat, pre: string, v: string, rest: string)
    requires i < |block| && block[i] == pre + RequirementMarker + v + rest
    requires TaskIdIn(block[i]).None?
    requires forall j :: 0 <= j < |pre| ==> !OccursAt(block[i], RequirementMarker, j)
    requires forall k :: 0 <= k < |v| ==> v[k] != '\n'
    requires rest == [] || rest[0] == '\n'
    requires forall j :: i < j < |block| ==> !Classify(block[j]).Sets(RequirementField)
    ensures ExtractFields(block).requirement == Strip(Strip(v, Whitespace), Only('"'))
  {
    RequirementOfLine(pre, v, rest);
    LastMatchingLineWins(block, RequirementField, i);
  }

  /** Likewise for the target, on a line `pre + "- 구현 대상: " + v + rest`
      that matches neither of the earlier patterns: `v` stripped of
      whitespace and then of backticks. */
  lemma TargetFromLastMatchingLine(block: seq<string>, i: nat, pre: string, v: string, rest: string)
    requires i < |block| && block[i] == pre + TargetMarker + v + rest
    requires TaskIdIn(block[i]).None? && !Contains(block[i], RequirementMarker)
    requires forall j :: 0 <= j < |pre| ==> !OccursAt(block[i], TargetMarker, j)
    requires forall k :: 0 <= k < |v| ==> v[k] != '\n'
    requires rest == [] || rest[0] == '\n'
    requires forall j :: i < j < |block| ==> !Classify(block[j]).Sets(TargetField)
    ensures ExtractFields(block).target == Strip(Strip(v, Whitespace), Only('`'))
  {
    TargetOfLine(pre, v, rest);
    LastMatchingLineWins(block, TargetField, i);
  }

  /** The three ways the script ends, for a file that exists: nothing at all
      exactly when no line is an unchecked task header; the printed line
      exactly when the block yields all three fields; `sys.exit(1)` (the only
      non-zero exit code) otherwise. */
  lemma OutcomeCases(lines: seq<string>)
    ensures NextTaskInfo(Found(lines)) == NoPendingTask <==>
      forall j :: 0 <= j < |lines| ==> !IsTaskHeader(lines[j])
    ensures NextTaskInfo(Found(lines)).Printed? <==>
      (exists j :: 0 <= j < |lines| && IsTaskHeader(lines[j])) &&
      var f := ExtractFields(TaskBlock(lines));
      f.taskId != "" && f.requirement != "" && f.target != ""
    ensures NextTaskInfo(Found(lines)).Printed? ==>
      NextTaskInfo(Found(lines)).text == FormatLine(ExtractFields(TaskBlock(lines)))
    ensures ExitCode(NextTaskInfo(Found(lines))) == 1 <==> NextTaskInfo(Found(lines)) == Failed(ParseFailed)
    ensures ExitCode(NextTaskInfo(NotFound)) == 1
  {
    FirstWhereFinds(lines, 0, IsTaskHeader);
    if exists j :: 0 <= j < |lines| && IsTaskHeader(lines[j]) {
      var sp := BlockSpan(lines).value;
      assert |TaskBlock(lines)| == sp.end - sp.start > 0;
    }
  }

  lemma {:induction false} FirstWhereShift(pre: seq<string>, lines: seq<string>, from: nat, p: string -> bool)
    requires from <= |lines|
    ensures FirstWhere(pre + lines, |pre| + from, p) ==
      match FirstWhere(lines, from, p)
      case None => None
      case Some(k) => Some(|pre| + k)
    decreases |lines| - from
  {
    if from < |lines| {
      assert (pre + lines)[|pre| + from] == lines[from];
      FirstWhereShift(pre, lines, from + 1, p);
    }
  }

  lemma {:induction false} FirstWhereSkips(lines: seq<string>, from: nat, upto: nat, p: string -> bool)
    requires from <= upto <= |lines|
    requires forall j :: from <= j < upto ==> !p(lines[j])
    ensures FirstWhere(lines, from, p) == FirstWhere(lines, upto, p)
    decreases upto - from
  {
    if from < upto {
      FirstWhereSkips(lines, from + 1, upto, p);
    }
  }

  /** Searching after a prefix in which no line satisfies `p` finds the same
      line as searching without the prefix. */
  lemma FirstWhereAfterPrefix(pre: seq<string>, lines: seq<string>, p: string -> bool)
    requires forall j :: 0 <= j < |pre| ==> !p(pre[j])
    ensures FirstWhere(pre + lines, 0, p) ==
      match FirstWhere(lines, 0, p)
      case None => None
      case Some(k) => Some(|pre| + k)
  {
    var all := pre + lines;
    forall j | 0 <= j < |pre|
      ensures !p(all[j])
    {
      assert all[j] == pre[j];
    }
    FirstWhereSkips(all, 0, |pre|, p);
    FirstWhereShift(pre, lines, 0, p);
  }

  lemma BlockSpanAfterPrefix(pre: seq<string>, lines: seq<string>)
    requires forall j :: 0 <= j < |pre| ==> !IsTaskHeader(pre[j])
    ensures BlockSpan(pre + lines) ==
      match BlockSpan(lines)
      case None => None
      case Some(sp) => Some(Span(|pre| + sp.start, |pre| + sp.end))
  {
    FirstWhereAfterPrefix(pre, lines, IsTaskHeader);
    match FirstWhere(lines, 0, IsTaskHeader)
    case None =>
    case Some(s) =>
      FirstWhereShift(pre, lines, s, EndsBlock);
  }

  lemma SameSpanSameBlock(a: seq<string>, b: seq<string>, spa: Span, spb: Span)
    requires BlockSpan(a) == Some(spa) && BlockSpan(b) == Some(spb)
    requires a[spa.start..spa.end] == b[spb.start..spb.end]
    ensures TaskBlock(a) == TaskBlock(b)
  {
  }

  /** Lines before the first unchecked task header (checked tasks, headings,
      prose) never affect the block. */
  lemma TaskBlockIgnoresLeadingLines(pre: seq<string>, lines: seq<string>)
    requires forall j :: 0 <= j < |pre| ==> !IsTaskHeader(pre[j])
    ensures TaskBlock(pre + lines) == TaskBlock(lines)
  {
    BlockSpanAfterPrefix(pre, lines);
    if BlockSpan(lines).Some? {
      var sp := BlockSpan(lines).value;
      var all := pre + lines;
      assert BlockSpan(all) == Some(Span(|pre| + sp.start, |pre| + sp.end));
      assert all[|pre| + sp.start..|pre| + sp.end] == lines[sp.start..sp.end];
      SameSpanSameBlock(all, lines, Span(|pre| + sp.start, |pre| + sp.end), sp);
    }
  }

  /** ... and therefore never affect the outcome. */
  lemma LeadingLinesIgnored(pre: seq<string>, lines: seq<string>)
    requires forall j :: 0 <= j < |pre| ==> !IsTaskHeader(pre[j])
    ensures NextTaskInfo(Found(pre + lines)) == NextTaskInfo(Found(lines))
  {
    TaskBlockIgnoresLeadingLines(pre, lines);
  }

  /** Only the first unchecked task is processed: once its block is closed by a
      block-end line, whatever follows (further tasks included) never affects
      the outcome. */
  lemma TrailingLinesIgnored(lines: seq<string>, rest: seq<string>)
    requires BlockSpan(lines).Some?
    requires EndsBlock(lines[BlockSpan(lines).value.end - 1])
    ensures NextTaskInfo(Found(lines[..BlockSpan(lines).value.end] + rest)) == NextTaskInfo(Found(lines))
  {
    var sp := BlockSpan(lines).value;
    var s, e := sp.start, sp.end;
    var all := lines[..e] + rest;
    FirstWhereFinds(lines, 0, IsTaskHeader);
    FirstWhereFinds(lines, s, EndsBlock);
    assert FirstWhere(lines, s, EndsBlock) == Some(e - 1);
    assert forall j :: 0 <= j < e ==> all[j] == lines[j];
    FirstWhereIs(all, 0, IsTaskHeader, s);
    FirstWhereIs(all, s, EndsBlock, e - 1);
    assert all[s..e] == lines[s..e];
  }

  /** The text before the first `|`: how a reader of the printed line gets the
      task id back. */
  function TextBeforeBar(t: string): (r: string)
    ensures |r| <= |t| && r == t[..|r|]
    ensures forall k :: 0 <= k < |r| ==> r[k] != '|'
    ensures |r| == |t| || t[|r|] == '|'
  {
    if t == [] || t[0] == '|' then [] else [t[0]] + TextBeforeBar(t[1..])
  }

  /** The task id survives the unescaped output: it contains no `|`, so it is
      exactly the text before the first `|` of the printed line. */
  lemma {:induction false} TaskIdRecoverable(f: Fields)
    requires forall k :: 0 <= k < |f.taskId| ==> IsIdChar(f.taskId[k])
    ensures TextBeforeBar(FormatLine(f)) == f.taskId
  {
    var rest := "|" + f.requirement + "|" + f.target;
    assert FormatLine(f) == f.taskId + rest;
    var n := |f.taskId|;
    assert forall k :: 0 <= k < n ==> (f.taskId + rest)[k] == f.taskId[k] != '|';
    assert (f.taskId + rest)[n] == '|';
    assert (f.taskId + rest)[..n] == f.taskId;
  }

  /** Every printed line begins with the task id followed by `|`. */
  lemma PrintedLineStartsWithTaskId(lines: seq<string>)
    requires NextTaskInfo(Found(lines)).Printed?
    ensures TextBeforeBar(NextTaskInfo(Found(lines)).text) == ExtractFields(TaskBlock(lines)).taskId
    ensures ExtractFields(TaskBlock(lines)).taskId != ""
  {
    TaskIdRecoverable(ExtractFields(TaskBlock(lines)));
  }

  /** The requirement and the target are not escaped, so a `|` inside either
      makes the printed line ambiguous: two different field triples print
      the same text. */
  lemma OutputNotEscaped()
    ensures Fields("1", "a|b", "c") != Fields("1", "a", "b|c")
    ensures FormatLine(Fields("1", "a|b", "c")) == FormatLine(Fields("1", "a", "b|c"))
  {
  }

}
