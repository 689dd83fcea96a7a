# Noryangjin Auction: plan parser and account entities in Dafny

This project models three parts of the Noryangjin Auction server repository
and proves properties about them.

- **`parse_plan.py`** (`find_next_task_info`). This helper reads a Markdown
  task plan and finds the first unchecked task (`- [ ] **Task ...`). It
  collects that task's lines up to the first `- 구현 대상:` line, then pulls out
  the task id, the requirement and the implementation target. It prints
  `id|requirement|target`, or ends with exit status 1.
  - The file is an input: `PlanFile`, either the lines `readlines()` returns
    or "not found".
  - The ways the script ends form the `Outcome` datatype: no output,
    `Printed(text)`, or `Failed(cause)`.
  - The script's two loops are the methods `CollectTaskBlock` and
    `ExtractFieldsFromBlock`. Each is proved equal to a specification
    function (`TaskBlock`, `ExtractFields`), and the script's promises are
    proved as lemmas about those functions.
  - Module `Text` writes out the Python string operations the script needs:
    `str.strip`, `in`, a leftmost literal search, what `(.*)` captures, and
    the pattern `Task ([0-9-]+):`.
  - The script uses four regular expressions. Three are built in
    `ParsePlan` from those operations:
    - the header test `re.match(r"^- \[ \] \*\*Task", line)` is `IsTaskHeader`;
    - the requirement and target searches are `RequirementIn` and `TargetIn`.
  - Each pattern is modelled only as the script writes it.
- **The server `User` entity**
  (`com.noryangjin.auction.server.domain.user.User`). This is a Dafny
  `class` with the entity's nine mutable fields.
  - The `@Builder` constructor stores its five arguments without checking
    them, sets `status` to `ACTIVE` and stamps both timestamps. It leaves
    `id` unset.
  - The two clock readings are constructor parameters.
- **The plain `User` value** (`com.noryangfin.auction.domain.user.User`).
  This is an immutable `datatype` with the nine-argument constructor and the
  nine getters.

Files:
- `options.dfy`: the `Option` type, standing for Python's `None` and Java's
  `null`.
- `text.dfy`: the string operations.
- `parse_plan.dfy`: the parser.
- `user_types.dfy`: roles, statuses and timestamps.
- `server_user.dfy` and `domain_user.dfy`: the two `User` classes.

Neither `User` constructor checks its arguments: a missing or blank value is
stored as given. The builder constructor reads the clock twice, so
`createdAt` and `updatedAt` need not be equal.

## Model

| member | source | states |
|---|---|---|
| ParsePlan.CollectTaskBlock | parse_plan.py:12-22 | the first loop builds exactly `TaskBlock(lines)`: the stripped lines from the first unchecked task header through the first line containing `- 구현 대상:` |
| ParsePlan.BlockSpan | parse_plan.py:15-22 | a collected block is a non-empty range of lines inside the input |
| ParsePlan.NoHeaderNoBlock | parse_plan.py:15-20 | with no line starting `- [ ] **Task`, the block is empty |
| ParsePlan.OpenBlockRunsToEnd | parse_plan.py:15-22 | when the first header is at `s` and no later line contains the block-end marker, the block is every line from `s` to the end, stripped, header included and later headers included |
| ParsePlan.BlockClosesAtFirstEnd | parse_plan.py:19-22 | when the first header is at `s`, the block ends at the first line `e >= s` containing `- 구현 대상:`, and that line is included |
| ParsePlan.TaskBlockIgnoresLeadingLines | parse_plan.py:15-19 | lines before the first unchecked header never change the block |
| ParsePlan.LeadingLinesIgnored | parse_plan.py:15-19 | lines before the first unchecked header never change the outcome |
| ParsePlan.TrailingLinesIgnored | parse_plan.py:21-22 | once the block is closed by a block-end line, replacing everything after it (further tasks included) leaves the outcome unchanged |
| ParsePlan.RequirementIn | parse_plan.py:35-36 | a requirement is found exactly when the line contains `- 요구사항: `; its value has no `"` at either end |
| ParsePlan.RequirementOfLine | parse_plan.py:35-36 | in `pre + "- 요구사항: " + v + rest` with no earlier marker and `v` ending at a newline or at the end of the line, the requirement is `v` stripped of whitespace and then of `"` |
| ParsePlan.TargetIn | parse_plan.py:37-38 | a target is found exactly when the line contains `- 구현 대상: `; its value has no backtick at either end |
| ParsePlan.TargetOfLine | parse_plan.py:37-38 | in `pre + "- 구현 대상: " + v + rest`, under the same conditions, the target is `v` stripped of whitespace and then of backticks |
| ParsePlan.IsTaskHeader | parse_plan.py:16 | a line is an unchecked task header when it begins with the literal `- [ ] **Task` |
| ParsePlan.EndsBlock | parse_plan.py:21 | a line closes the block when it contains `- 구현 대상:` anywhere, tested on the line before stripping |
| ParsePlan.TaskBlock | parse_plan.py:12-22 | the `task_block` list: never longer than the input, and empty exactly when there is no unchecked header |
| ParsePlan.FormatLine | parse_plan.py:41 | the printed line is as long as the three fields plus two bars, starts with the task id and has a bar right after it |
| ParsePlan.ExitCode | parse_plan.py:8-10 | the exit status is non-zero exactly for a failure |
| ParsePlan.NextTaskInfo | parse_plan.py:4-44 | a missing file, and only a missing file, fails with `FileNotFound`; a printed line holds at least three field characters and two bars |
| ParsePlan.TaskIdFromLastMatchingLine | parse_plan.py:32-34 | the task id reported for a block is the id of the last line matching `Task ([0-9-]+):` |
| ParsePlan.RequirementFromLastMatchingLine | parse_plan.py:32-36 | the requirement reported for a block is the stripped group of the last line that sets it |
| ParsePlan.TargetFromLastMatchingLine | parse_plan.py:32-38 | the target reported for a block is the stripped group of the last line that sets it |
| ParsePlan.Classify | parse_plan.py:32-38 | the `elif` precedence: a line sets the task id iff it matches `Task ([0-9-]+):`; it sets the requirement iff it does not match that but contains the requirement marker; it sets the target iff it contains only the target marker. The value set is the group of that pattern: `TaskIdIn`, `RequirementIn` or `TargetIn` of the line |
| ParsePlan.Apply | parse_plan.py:32-38 | a line overwrites the field it sets and keeps the other two |
| ParsePlan.ExtractFields | parse_plan.py:28-38 | for any block, the task id consists of `[0-9-]` characters, and the requirement and target have no quote or backtick at their ends |
| ParsePlan.ExtractFieldsFromBlock | parse_plan.py:28-38 | the second loop leaves exactly `ExtractFields(block)` |
| ParsePlan.LastMatchingLineWins | parse_plan.py:32-38 | the last line of the block that sets a field decides its value |
| ParsePlan.UnmatchedFieldStaysEmpty | parse_plan.py:28-38 | a field that no line sets stays `""` |
| ParsePlan.FindNextTaskInfo | parse_plan.py:4-44 | the whole function yields exactly `NextTaskInfo(file)` |
| ParsePlan.OutcomeCases | parse_plan.py:4-44 | the outcome is "no output" iff no line is an unchecked header. A line is printed iff there is a header and all three fields are non-empty, and it is the three fields joined by bars. The exit code is 1 exactly for a parse failure or a missing file |
| ParsePlan.TaskIdRecoverable | parse_plan.py:40-41 | the task id contains no bar character, so it is exactly the text before the first bar of the printed line |
| ParsePlan.PrintedLineStartsWithTaskId | parse_plan.py:40-41 | every printed line starts with the non-empty task id followed by a bar |
| ParsePlan.OutputNotEscaped | parse_plan.py:40-41 | the output is not escaped: two different field triples can print the same line |
| Text.Strip | parse_plan.py:20 | `str.strip()` and `str.strip(c)`: the result is no longer than the input; `StripKeepsMiddle`, `StripEdges` and `StripRecoversCore` pin it down |
| Text.Find | parse_plan.py:35 | the leftmost position where a literal occurs, as `re.search` finds it; a found occurrence lies inside the line |
| Text.FindFrom | parse_plan.py:35 | the leftmost occurrence at or after a start position; a found occurrence lies inside the line |
| Text.Contains | parse_plan.py:21 | Python's `pat in s`: a literal search succeeds |
| Text.StartsWith | parse_plan.py:16 | `re.match` of a literal: the string begins with it |
| Text.StripEdges | parse_plan.py:20 | a stripped string neither starts nor ends with a removed character |
| Text.StripKeepsMiddle | parse_plan.py:20 | `strip` keeps a contiguous part of the string and removes only characters of the stripped set around it |
| Text.StripRecoversCore | parse_plan.py:36 | surrounding a string that has no strippable end with strippable runs, then stripping, gives the string back |
| Text.StripFixesStripped | parse_plan.py:36 | a string with no strippable character at either end is left unchanged |
| Text.StripIdempotent | parse_plan.py:36 | stripping twice removes nothing more than stripping once |
| Text.TrimStartRemovesPrefix | parse_plan.py:20 | the leading half of `strip` removes the longest prefix of strippable characters |
| Text.TrimEndRemovesSuffix | parse_plan.py:20 | the trailing half of `strip` removes the longest suffix of strippable characters |
| Text.FindFromFinds | parse_plan.py:35 | the search reports an occurrence with none before it, or reports none only when there is none |
| Text.FindFromIs | parse_plan.py:35 | an occurrence with no earlier one is the position the search reports |
| Text.ContainsMeansOccurs | parse_plan.py:21 | `pat in s` holds iff `pat` occurs somewhere in `s` |
| Text.UpToNewline | parse_plan.py:35 | what `(.*)` captures is the longest prefix without a newline |
| Text.LeftmostGroup | parse_plan.py:35-38 | a search on `pre + pat + v + rest`, with no earlier occurrence of `pat`, starts right after `pre` and captures `v` |
| Text.IdRunLength | parse_plan.py:33 | the greedy `[0-9-]+` consumes the longest run of `[0-9-]` characters |
| Text.FindTaskIdFrom | parse_plan.py:33 | the search reports the leftmost position where `Task ([0-9-]+):` matches, or none when there is none |
| Text.TaskIdMatchSpelledOut | parse_plan.py:33-34 | a match spells out `Task <id>:` with a non-empty id of `[0-9-]` characters |
| Text.TaskIdIn | parse_plan.py:33-34 | group 1 exists iff the pattern matches somewhere; it is non-empty and made of `[0-9-]`, and is followed by `:` |
| Text.SpelledOutTaskIdMatches | parse_plan.py:33-34 | where `Task <id>:` is written out with a valid id, the pattern matches there and captures `id` |
| Text.TaskIdOfLeftmostMatch | parse_plan.py:33-34 | in `pre + "Task " + id + ":" + rest` with no earlier match, the captured id is `id` |
| ServerUser.User.constructor | src/main/java/com/noryangjin/auction/server/domain/user/User.java:47-57 | the five arguments are stored as given, without checks. The status is `ACTIVE`, the timestamps are the two clock readings, and the id is unset |
| ServerUser.User.Empty | src/main/java/com/noryangjin/auction/server/domain/user/User.java:11-45 | the protected no-argument constructor leaves every field `null` |
| ServerUser.TimestampsMayDiffer | src/main/java/com/noryangjin/auction/server/domain/user/User.java:55-56 | the two timestamps come from separate clock reads and can differ |
| DomainUser.User.GetId | src/main/java/com/noryangfin/auction/domain/user/User.java:37-39 | returns the field of the same name, as `GettersReturnArguments` states |
| DomainUser.User.GetEmail | src/main/java/com/noryangfin/auction/domain/user/User.java:41-43 | returns the field of the same name, as `GettersReturnArguments` states |
| DomainUser.User.GetPassword | src/main/java/com/noryangfin/auction/domain/user/User.java:45-47 | returns the field of the same name, as `GettersReturnArguments` states |
| DomainUser.User.GetName | src/main/java/com/noryangfin/auction/domain/user/User.java:49-51 | returns the field of the same name, as `GettersReturnArguments` states |
| DomainUser.User.GetPhoneNumber | src/main/java/com/noryangfin/auction/domain/user/User.java:53-55 | returns the field of the same name, as `GettersReturnArguments` states |
| DomainUser.User.GetRole | src/main/java/com/noryangfin/auction/domain/user/User.java:57-59 | returns the field of the same name, as `GettersReturnArguments` states |
| DomainUser.User.GetStatus | src/main/java/com/noryangfin/auction/domain/user/User.java:61-63 | returns the field of the same name, as `GettersReturnArguments` states |
| DomainUser.User.GetCreatedAt | src/main/java/com/noryangfin/auction/domain/user/User.java:65-67 | returns the field of the same name, as `GettersReturnArguments` states |
| DomainUser.User.GetUpdatedAt | src/main/java/com/noryangfin/auction/domain/user/User.java:69-71 | returns the field of the same name, as `GettersReturnArguments` states |
| DomainUser.GettersReturnArguments | src/main/java/com/noryangfin/auction/domain/user/User.java:16-71 | each of the nine getters returns exactly its constructor argument. There are no defaults and no clock read, and `null` stays `null` |
| DomainUser.DeterminedByGetters | src/main/java/com/noryangfin/auction/domain/user/User.java:5-72 | two values are equal iff all nine getters agree |
| DomainUser.RebuildFromGetters | src/main/java/com/noryangfin/auction/domain/user/User.java:16-71 | rebuilding a value from its getters gives the same value |

## Left out

- File reading (parse_plan.py:5-7). The lines are an input, given as
  `readlines()` returns them: in text mode, with their line terminators.
  Other failures are not modelled: decoding errors, permission errors,
  and a path that is a directory.
- The error message on standard error (parse_plan.py:9) is not modelled.
  Only the failure and its cause are.
- The newline `print` appends (parse_plan.py:41) is not modelled.
  `Printed(text)` holds the formatted line itself.
- The `__main__` block (parse_plan.py:46-48) reads a command-line argument.
  It is not modelled.
- Regular expressions in general are not modelled. Only the four patterns the
  script uses are written out, each as a concrete function.
- The JPA and Lombok metadata of the server `User` is not modelled.
  - The column rules (`nullable = false`, `unique = true`) and the id
    generation on insert are enforced by the database, not by the class.
  - The getters are the fields themselves.
  - The protected access level of the no-argument constructor is not
    modelled.
- `LocalDateTime.now()` is not modelled. Each reading is a constructor
  parameter, and a `LocalDateTime` is an integer count of ticks.
- A Java `Long` id is an unbounded integer. No arithmetic is done on it.
- UserRole.java and UserStatus.java are not part of this model.
  - The roles are the four constants the repository's tests name.
  - Of the statuses, only `ACTIVE` is known by name. Any other constant is
    `OtherStatus(name)`.
- ProductController.java and the repository's tests are not part of this
  model. The role checks and product validation described for the server
  have no code in the modelled files.
- Text.TaskIdIn: its contract states that the match exists and spells out
  `Task <id>:`, but not that it is the leftmost match. That is stated
  separately by `Text.TaskIdOfLeftmostMatch`.
