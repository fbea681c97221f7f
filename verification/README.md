# dp — a verified model of the rule-chain file duplicator

`dp` duplicates a file under a new name chosen by an ordered chain of
renaming rules. A rule looks at a file name and either proposes a new name
or declines. The *date rule* replaces the rightmost occurrence of a pattern
such as `\d{2}-\d{2}` with a date text. That text is the instant and the
format the rule was built with, formatted on every `apply`. Both are fixed,
so the text depends only on them. The *increment rule* replaces the last digit `d` of the name by
the decimal text of `d + 1`. The duplicator scans the chain. The first rule
that proposes a name decides:

- a proposed name that does not exist yet is copied to;
- a proposed name that exists ends the scan without a copy when
  `fallthrough` is off;
- when `fallthrough` is on, that existing name becomes the input, and the
  scan restarts at the next rule.

All of this works against a small file-system interface: `exists`, `copy`,
`filename` and `parent`. Its in-memory test double is a set of path
strings.

An earlier, self-contained version of the duplicator lives in `src/lib.rs`.
Its collision policy is different. A proposed name that exists is skipped,
and the next rule is tried on the original input.

The model has six modules:

- `Rules` (`rules.dfy`): rules are values (`Rule = DateRule(pattern, date) |
  IncrementRule`), and `Apply` is a pure function. A date pattern is a
  fixed-length sequence of character classes (`Digit` or `Lit(c)`). The
  model stores the date text already formatted.
- `Vfs` (`vfs.dfy`): the test file system is a class whose `files` set the
  `Copy` method updates. A ghost log of copy calls lets the engine state how
  many copies it made, and from where to where. `Filename` and `Parent` are
  functions.
- `Engine` (`engine.dfy`): the duplicator of `src/dp/mod.rs`. It sees each
  rule only through its `apply`, as the source sees a `Box<dyn Rule>`, so a
  rule is a function value, `Proposer = string -> Option<string>`. The pure functions
  `FirstMatch` and `Scan` specify the outcome of a call, `NoCopy` or
  `Copy(src, dst)`. The class `Duplicator` holds the rule chain, the file
  system and the policy. Its `DuplicateWithRules` keeps the source's loop,
  its early exits and its recursion on `i + 1`, and is proved to make
  exactly the copy `Scan` describes.
- `Legacy` (`legacy.dfy`): the skip-on-collision duplicator of `src/lib.rs`,
  its outcome function, and the lemma that both engines agree when the
  deciding proposal does not collide.
- `Scenarios` (`scenarios.dfy`): the duplicator unit tests replayed on the
  model, plus the three collision policies compared on one input. Each test
  is proved once for any rules that behave as the test's rules do. It is
  then instantiated with the test's own rules, built on 2019-11-10.
  `Boxed(rule)` is the rule as the duplicator holds it.
- `Wrappers` (`wrappers.dfy`): `Option`.

The regular expressions `(.*)(P)(.*)` and `(.*)(\d+)(.*)` are described
for names without a newline (`Rules.ValidName`), where `.` matches every
character. On such a name, `replace_all` rewrites the single match whose
group 2 starts as far right as possible. `Rules.ApplyKeepsValid` shows that
valid rules keep names valid, so a fallthrough chain never leaves that
domain.

Where the code and its documentation disagree, the model follows the code.
`IncrementRule` captures only the last digit, because the leading `(.*)` is
greedy. So `a19` becomes `a110`, not `a20` (`Rules.IncrementCarryExample`).
The doc comment "rename foo.txt to foo1.txt" (`src/dp/rules.rs:67-68`) is
also not what the code does. A name without a digit is declined, as the
unit test at `src/dp/rules.rs:158` expects.

## Model

| member | source | states |
|---|---|---|
| Rules.MatchBefore | src/dp/rules.rs:35 | a position found is below the bound and the pattern matches there |
| Rules.MatchBeforeRightmost | src/dp/rules.rs:35 | the position found is the rightmost match below the bound; when none is found, the pattern matches nowhere below it (the greedy leading `(.*)`) |
| Rules.DateApply | src/dp/rules.rs:47-59 | `DateRule::apply` (also `src/lib.rs:112-125`): a renamed name is the input with a span as long as the pattern replaced by the date text; `DateApplyDeclines` and `DateApplyRightmost` state when it declines and which span is replaced |
| Rules.DateApplyDeclines | src/dp/rules.rs:47-59 | `DateRule::apply` returns `None` exactly when the pattern does not occur in the input |
| Rules.DateApplyRightmost | src/dp/rules.rs:51-56 | on a match, the result is the text before the rightmost occurrence, then the date text, then the text after it; groups 1 and 3 are kept verbatim (the `DateRule::apply` of `src/lib.rs:112-125` is the same code) |
| Rules.DateApplyRenames | src/dp/rules.rs:47-56 | every name the pattern occurs in has a rightmost match, and the date rule renames it by replacing that match with the date text |
| Rules.DigitChar | src/dp/rules.rs:98 | the digit character written for a value below 10 is a digit and reads back as that value |
| Rules.DecimalText | src/dp/rules.rs:98 | the decimal text of a number is a non-empty digit string without leading zeros, of length one exactly when the number is below 10 |
| Rules.ParseDecimal | src/dp/rules.rs:78 | the `parse` inside `increment`: `n` digits read as a value below 10 to the power `n`; `ParseDecimalText` makes it the inverse of the decimal text |
| Rules.ParseDecimalText | src/dp/rules.rs:78 | parsing the decimal text of `n` gives `n` |
| Rules.Increment | src/dp/rules.rs:77-79 | `increment` parses a digit string and adds one; the result is one more than the parsed value and stays within the positive `i32` range |
| Rules.IncrementOfDigit | src/dp/rules.rs:77-79 | a one-digit argument (group 2 always is one digit) is parsed without failure; `increment` gives its value plus one, written in one character, or in two when the digit is `9` |
| Rules.SuccText | src/dp/rules.rs:98 | the replacement text for a digit is a digit string |
| Rules.SuccTextIncrement | src/dp/rules.rs:98 | the replacement text of a digit is the decimal text of `increment` applied to it |
| Rules.LastDigitBefore | src/dp/rules.rs:84 | a position found is below the bound and holds a digit |
| Rules.LastDigitBeforeLast | src/dp/rules.rs:84 | the position found is the last digit below the bound; when none is found, no digit lies below it |
| Rules.IncrementApply | src/dp/rules.rs:87-105 | `IncrementRule::apply`: a renamed name is as long as the input or one longer; `IncrementApplyDeclines` and `IncrementApplyLast` state when it declines and what replaces the last digit |
| Rules.IncrementApplyDeclines | src/dp/rules.rs:87-104 | `IncrementRule::apply` returns `None` exactly when the input has no digit |
| Rules.IncrementApplyLast | src/dp/rules.rs:95-99 | on a match, only the last digit `d` changes: it becomes the decimal text of `d + 1`, and the text before and after it is unchanged |
| Rules.IncrementApplyRenames | src/dp/rules.rs:87-99 | every name with a digit has a last digit, and the increment rule renames it by replacing that digit `d` with the decimal text of `d + 1` |
| Rules.IncrementApplyLength | src/dp/rules.rs:95-99 | the renamed name is as long as the input, or one longer when the last digit is `9` |
| Rules.Apply | src/dp/rules.rs:12-15 | `Rule::apply` dispatched on the rule kind: a date rule's rename changes the length by the date text's length minus the pattern's, and an increment rule's by 0 or 1; `ApplyKeepsValid` keeps names newline-free |
| Rules.ApplyKeepsValid | src/dp/rules.rs:12-15 | `Rule::apply` on a name without a newline, by a rule whose date text has none, proposes a name without a newline |
| Rules.NoNewlineSplice | src/dp/rules.rs:53 | replacing a span of a newline-free name by newline-free or digit text keeps it newline-free |
| Rules.DateRuleMonthDayExample | src/dp/rules.rs:134-137 | `\d{2}-\d{2}` with "%m-%d" on 2019-11-10 turns hello-10-23.org into hello-11-10.org (also `src/lib.rs:171-175`) |
| Rules.DateRuleDayExample | src/dp/rules.rs:139-142 | `\d{2}` with "%d" turns hello-23.org into hello-10.org (also `src/lib.rs:177-180`) |
| Rules.DateRuleRightmostExample | src/dp/mod.rs:94-109 | `\d{2}` with "%d" on hello-10-23.org replaces the rightmost pair, giving hello-10-10.org |
| Rules.DateRuleDeclineExamples | src/dp/rules.rs:144-151 | the date rules decline hello-there.org and hello-XY.org |
| Rules.MonthDayRightmost | src/dp/rules.rs:135 | in hello-10-23.org, the rightmost match of `\d{2}-\d{2}` starts at position 6 |
| Rules.DayRightmost | src/dp/rules.rs:140 | in a name ending in two digits and ".org", those two digits are the rightmost match of `\d{2}` |
| Rules.NoDigitNoMatch | src/dp/rules.rs:144-151 | a pattern that starts with `\d` does not occur in a name without digits |
| Rules.MismatchAt | src/dp/rules.rs:35 | a span with one position that its class rejects is not a match |
| Rules.IncrementDeclineExamples | src/dp/rules.rs:158-159 | the increment rule declines hello.txt and the empty name |
| Rules.IncrementRuleExamples | src/dp/rules.rs:160-161 | the increment rule turns hello3.txt into hello4.txt and hello7 into hello8 |
| Rules.IncrementCarryExample | src/dp/rules.rs:84-99 | a19 becomes a110: only the last digit is incremented |
| Vfs.TestFileSystem.constructor | src/dp/vfs.rs:62-66 | `new` holds exactly the given names, and no copy has been made yet (the same as `src/lib.rs:32-36`) |
| Vfs.TestFileSystem.GetFiles | src/dp/vfs.rs:72-74 | `get_files` lists every known path exactly once, and nothing else |
| Vfs.TestFileSystem.Exists | src/dp/vfs.rs:78-80 | `exists` holds exactly for the paths in the set (the same as `src/lib.rs:44-46`) |
| Vfs.TestFileSystem.Copy | src/dp/vfs.rs:82-85 | `copy` returns true and adds the destination; nothing else changes, copying onto a known name leaves the set as it was, and the call is logged (the same as `src/lib.rs:48-51`) |
| Vfs.SlashBefore | src/dp/vfs.rs:88 | `rfind('/')`: the position found holds '/' and no '/' follows it; `None` exactly when there is no '/' |
| Vfs.Filename | src/dp/vfs.rs:87-94 | `filename` is a '/'-free suffix of the path, and the whole path when it has no '/' |
| Vfs.Parent | src/dp/vfs.rs:96-103 | `parent` is a prefix of the path followed by '/', or "" when the path has no '/' |
| Vfs.ParentSlashFilename | src/dp/vfs.rs:87-103 | a path with a '/' is its parent, a '/', and its file name |
| Vfs.ExamplePathSlash | src/dp/vfs.rs:109 | the last '/' of /foo/bar/hello.txt is at position 8 |
| Vfs.PathExamples | src/dp/vfs.rs:109-116 | /foo/bar/hello.txt has file name hello.txt and parent /foo/bar |
| Vfs.BareNameExamples | src/dp/vfs.rs:110-117 | hello.txt has file name hello.txt and parent "" |
| Engine.FirstMatch | src/dp/mod.rs:26-29 | the rule found is the first from `idx` on that proposes a name, and it proposed that name; when there is none, every rule from `idx` on declines |
| Engine.Scan | src/dp/mod.rs:25-45 | a copy goes to a name that does not exist; its source is the input, or, only with fallthrough, an existing name; from `idx >= len` nothing is copied |
| Engine.CopyWasProposed | src/dp/mod.rs:29-39 | the destination of a copy is what some rule at or after `idx` proposed for the copy's source |
| Engine.AllDecline | src/dp/mod.rs:26-44 | when every rule from `idx` on declines, nothing is copied |
| Engine.FirstMatchAt | src/dp/mod.rs:26-29 | the first rule that proposes a name is the one found |
| Engine.FirstMatchDecides | src/dp/mod.rs:29-41 | first match wins: a free name is copied to from the input; a taken name ends the scan without a copy when fallthrough is off, and otherwise restarts it at `i + 1` with that name as the input |
| Engine.LaterRulesIgnored | src/dp/mod.rs:26-41 | rules after the deciding one are never consulted: chains that agree up to it give the same outcome, unless fallthrough moves on past a collision |
| Engine.RepeatFails | src/dp/mod.rs:79-84 | with fallthrough off, repeating a call that copied copies nothing, because its proposal now exists |
| Engine.Duplicator.constructor | src/dp/mod.rs:17-23 | `new` stores the rules, the file system and the policy |
| Engine.Duplicator.DuplicateWithRules | src/dp/mod.rs:25-45 | returns whether a copy happened; the file system gains exactly the destination of `Scan`'s copy, and the copy log grows by that one call or not at all |
| Engine.Duplicator.Duplicate | src/dp/mod.rs:47-49 | `duplicate(f)` is the scan from rule 0 |
| Legacy.Scan | src/lib.rs:70-82 | the outcome of the legacy `duplicate`: a copy is made from the input itself, to a name that does not exist; `ScanCopy`, `ScanNoCopy` and `FirstFreeDecides` state which rule decides |
| Legacy.ScanCopy | src/lib.rs:70-82 | a legacy copy is made from the input itself, to a free name that some rule proposed for the input |
| Legacy.ScanNoCopy | src/lib.rs:71-81 | nothing is copied exactly when every rule declines or proposes a name that exists |
| Legacy.FirstFreeDecides | src/lib.rs:72-76 | the first rule whose proposal is free decides; collisions before it are skipped with the input unchanged |
| Legacy.AgreesWithoutCollision | src/lib.rs:70-82 | when the first name proposed does not collide, the legacy engine and the `src/dp/mod.rs` engine give the same outcome, with fallthrough on or off |
| Legacy.Duplicator.constructor | src/lib.rs:66-68 | `new` stores the rules and the file system |
| Legacy.Duplicator.Duplicate | src/lib.rs:70-82 | returns whether a copy happened, and makes exactly the copy the legacy scan describes |
| Scenarios.HelloDates | src/dp/mod.rs:67-79 | both date rules of the tests on hello-10-23.org: "%m-%d" gives hello-11-10.org and "%d" gives hello-10-10.org |
| Scenarios.MeetingDates | src/dp/mod.rs:67-80 | on meeting-NN.org, "%d" gives meeting-10.org and `\d{2}-\d{2}` declines |
| Scenarios.MeetingIncrement | src/dp/rules.rs:84-99 | on meeting-NN.org with a last digit below 9, the increment rule gives the name with that digit plus one |
| Scenarios.Meeting23Facts | src/dp/mod.rs:80 | on meeting-23.org, "%d" gives meeting-10.org and `\d{2}-\d{2}` declines |
| Scenarios.Meeting11Facts | src/dp/mod.rs:101 | on meeting-11.org, "%d" gives meeting-10.org |
| Scenarios.Meeting10Facts | src/dp/mod.rs:94 | on meeting-10.org, "%d" regenerates meeting-10.org |
| Scenarios.Meeting23Increment | src/dp/rules.rs:84-99 | on meeting-23.org, the increment rule gives meeting-24.org |
| Scenarios.Meeting10Increment | src/dp/mod.rs:95-101 | on meeting-10.org, the increment rule gives meeting-11.org |
| Scenarios.NamesDistinct | src/dp/mod.rs:72-109 | the seven names of the tests are pairwise distinct (all 21 pairs) |
| Scenarios.StopCopies | src/dp/mod.rs:77-80 | with fallthrough off, the first two calls of `test_duplicator` copy h to hmd and m to m10, for any rules that propose those names |
| Scenarios.StopRepeats | src/dp/mod.rs:82-84 | once both copies exist, repeating either call copies nothing |
| Scenarios.StopOnCollisionRun | src/dp/mod.rs:66-85 | `test_duplicator` through `Engine.Duplicator`: the four calls return true, true, false, false |
| Scenarios.StopOnCollisionScenario | src/dp/mod.rs:66-85 | the same on the test's own rules and names |
| Scenarios.FallthroughCopies | src/dp/mod.rs:97-100 | with fallthrough on, the first two calls of `test_fallthrough_rules` copy to the free names rule 0 proposes |
| Scenarios.FallthroughChains | src/dp/mod.rs:33-34 | a proposal that exists is passed to the next rule, and the copy is made from that existing name |
| Scenarios.FallthroughRun | src/dp/mod.rs:88-110 | `test_fallthrough_rules` through `Engine.Duplicator`: the three calls succeed, and the file system then holds exactly the two originals and the three copies |
| Scenarios.FallthroughScenario | src/dp/mod.rs:88-110 | the same on the test's own rules and names |
| Scenarios.LegacyRun | src/lib.rs:151-168 | `test_duplicator` of `src/lib.rs` through `Legacy.Duplicator`: both calls succeed, and both copies exist afterwards |
| Scenarios.LegacyScenario | src/lib.rs:151-168 | the same on the test's own rules and names |
| Scenarios.PoliciesCompared | src/lib.rs:73-74 | on one input whose first proposal collides: fallthrough copies from the colliding name, the stop policy copies nothing, and the legacy engine copies the input to the next rule's proposal |
| Scenarios.OrderMatters | src/dp/mod.rs:26-39 | rule order is priority: in either order the copy goes to the first rule's free proposal, so swapping two rules that propose different free names changes the copy's destination |
| Scenarios.RegeneratedNameFallsThrough | src/dp/mod.rs:33-37 | a rule that regenerates its own existing input falls through to the next rule, or ends the call when fallthrough is off |
| Scenarios.MeetingFallthrough | src/dp/mod.rs:29-39 | with the chain [date "%d", increment], meeting-23.org as input and meeting-10.org present, fallthrough copies meeting-10.org to meeting-11.org |
| Scenarios.MeetingStop | src/dp/mod.rs:29-37 | the same chain and files with fallthrough off copy nothing |
| Scenarios.MeetingLegacy | src/lib.rs:70-82 | the legacy engine on the same chain and files skips the collision and copies meeting-23.org to meeting-24.org |
| Scenarios.MeetingPolicyFacts | src/dp/mod.rs:88-110 | the test rules on meeting-23.org and meeting-10.org, as the duplicator holds them: "%d" gives meeting-10.org, the increment rule gives meeting-11.org and meeting-24.org, neither of which exists |
| Scenarios.MeetingOrder | src/dp/mod.rs:26-39 | meeting-23.org goes to meeting-10.org under [date "%d", increment] and to meeting-24.org under [increment, date "%d"] |
| Scenarios.Meeting10Regenerated | src/dp/mod.rs:29-37 | the "%d" rule built on the 10th regenerates meeting-10.org: with fallthrough the increment rule copies it to meeting-11.org, without it nothing is copied |
| Scenarios.HelloThereDeclines | src/dp/mod.rs:26-44 | hello-there.org has no date and no digit, so [date "%m-%d", increment] declines it and nothing is copied under either policy |

A rule is a pure function, so `apply` is deterministic by construction. The
rule's only state is its pattern and its date text, fixed when it is built.

## Left out

- `LocalFileSystem` (`src/dp/vfs.rs:21-51`): real file-system I/O through
  `std::fs::copy` and `Path`. The engine is modelled over the in-memory test
  file system, whose `copy` always succeeds. A failed copy is therefore not
  modelled.
- The clock and chrono formatting (`current_local_date_time`, `now.format`).
  A date rule stores the date text, already formatted, as a string.
  `DateRule::compile` and `compile_now` become the `DateRule(pattern, date)`
  constructor.
- The general regular-expression engine. Date patterns are fixed-length
  class sequences, and `\d` is ASCII `0`-`9` only (Unicode digits are not
  modelled). Names with a newline are outside the described domain: there
  `.` would stop at the newline. The rule functions are still defined on
  such names, but there they do not describe the expression.
- Rules.Increment: the `unwrap` panic on an unparsable string and the `i32`
  overflow of `num + 1` are excluded by its precondition, not modelled as
  failures. From `apply` its argument is always a single digit
  (`Rules.IncrementOfDigit`), so neither can happen there.
- `src/main.rs` (argument parsing, logging setup, the loop over the command
  line): glue, not part of this model.
- `print_help`, `Rule::print`, `print_files`, and the `debug!`/`warn!` logging:
  console output only.
- The `IncrementRule` of `src/lib.rs:129-137`: its `apply` is
  `unimplemented!()`.
- `TestFileSystem::empty` (`src/dp/vfs.rs:68-70`): it is `new` with no names.
- Trait objects and `lazy_static`. Rules are a datatype with one `Apply`.
  The engine takes each rule as its `apply` function, as `Scenarios.Boxed`
  shows. The compiled increment regex is a fixed part of `IncrementApply`.
