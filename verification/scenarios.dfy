/** The duplicator unit tests of src/dp/mod.rs and src/lib.rs, replayed on
    the model, and the three collision policies compared on one input. The
    rules are built at the instant 2019-11-10, so the "%m-%d" date text is
    "11-10" and the "%d" date text is "10". */
module Scenarios {

  import opened Wrappers
  import opened Rules
  import Vfs
  import Engine
  import Legacy

  /** The patterns `\d{2}-\d{2}` and `\d{2}`. */
  const MonthDay: seq<Class> := [Digit, Digit, Lit('-'), Digit, Digit]
  const Day: seq<Class> := [Digit, Digit]

  /** The date rules of the tests, built on 2019-11-10: `\d{2}-\d{2}` with
      "%m-%d" and `\d{2}` with "%d". */
  const MonthDayRule := DateRule(MonthDay, "11-10")
  const DayRule := DateRule(Day, "10")

  /** A rule as the duplicator holds it (`Box::new(rule)`): seen only
      through its `apply`. */
  function Boxed(r: Rule): (p: Engine.Proposer) {
    s => Apply(r, s)
  }

  /** The file names of the scenarios. */
  const Hello := "hello-10-23.org"
  const HelloMonthDay := "hello-11-10.org"
  const HelloDay := "hello-10-10.org"
  const Meeting23 := "meeting-23.org"
  const Meeting10 := "meeting-10.org"
  const Meeting11 := "meeting-11.org"
  const Meeting24 := "meeting-24.org"

  /** The date rules on hello-10-23.org. */
  lemma HelloDates(s: string)
    requires s == Hello
    ensures Apply(MonthDayRule, s) == Some(HelloMonthDay)
    ensures Apply(DayRule, s) == Some(HelloDay)
  {
    DateRuleMonthDayExample();
    DateRuleRightmostExample();
  }

  /** The date rules on a name of the form meeting-NN.org. */
  lemma MeetingDates(s: string, x: char, y: char)
    requires IsDigit(x) && IsDigit(y) && s == "meeting-" + [x, y] + ".org"
    ensures Apply(DayRule, s) == Some(Meeting10)
    ensures Apply(MonthDayRule, s) == None
  {
    DayRightmost(Day, s, 8);
    DateApplyRightmost(Day, "10", s, 8);
    assert s[..8] + "10" + s[10..] == Meeting10;
    forall j: nat | j <= |s| ensures !MatchesAt(MonthDay, s, j) {
      if j == 8 { MismatchAt(MonthDay, s, j, 2); }
      else if j == 9 { MismatchAt(MonthDay, s, j, 1); }
      else if j < 8 { MismatchAt(MonthDay, s, j, 0); }
    }
    DateApplyDeclines(MonthDay, "11-10", s);
  }

  /** The increment rule on a name of the form meeting-NN.org. */
  lemma MeetingIncrement(s: string, x: char, y: char, t: string)
    requires IsDigit(x) && IsDigit(y) && y != '9' && s == "meeting-" + [x, y] + ".org"
    requires t == "meeting-" + [x, DigitChar(DigitValue(y) + 1)] + ".org"
    ensures Apply(IncrementRule, s) == Some(t)
  {
    IncrementApplyLast(s, 9);
    assert s[..9] + DecimalText(DigitValue(y) + 1) + s[10..] == t;
  }

  lemma Meeting23Facts()
    ensures Apply(DayRule, Meeting23) == Some(Meeting10)
    ensures Apply(MonthDayRule, Meeting23) == None
  {
    MeetingDates(Meeting23, '2', '3');
  }

  lemma Meeting11Facts()
    ensures Apply(DayRule, Meeting11) == Some(Meeting10)
  {
    MeetingDates(Meeting11, '1', '1');
  }

  lemma Meeting10Facts()
    ensures Apply(DayRule, Meeting10) == Some(Meeting10)
  {
    MeetingDates(Meeting10, '1', '0');
  }

  lemma Meeting23Increment()
    ensures Apply(IncrementRule, Meeting23) == Some(Meeting24)
  {
    assert DigitChar(DigitValue('3') + 1) == '4';
    MeetingIncrement(Meeting23, '2', '3', Meeting24);
  }

  lemma Meeting10Increment()
    ensures Apply(IncrementRule, Meeting10) == Some(Meeting11)
  {
    assert DigitChar(DigitValue('0') + 1) == '1';
    MeetingIncrement(Meeting10, '1', '0', Meeting11);
  }

  /** The scenario names are pairwise distinct (all 21 pairs). */
  lemma NamesDistinct()
    ensures Hello != HelloMonthDay && Hello != HelloDay && HelloMonthDay != HelloDay
    ensures Meeting23 != Meeting10 && Meeting23 != Meeting11 && Meeting23 != Meeting24
    ensures Meeting10 != Meeting11 && Meeting10 != Meeting24 && Meeting11 != Meeting24
    ensures Hello != Meeting23 && Hello != Meeting10 && Hello != Meeting11 && Hello != Meeting24
    ensures HelloMonthDay != Meeting23 && HelloMonthDay != Meeting10
    ensures HelloMonthDay != Meeting11 && HelloMonthDay != Meeting24
    ensures HelloDay != Meeting23 && HelloDay != Meeting10 && HelloDay != Meeting11 && HelloDay != Meeting24
  {
    assert HelloMonthDay[7] != Hello[7] && HelloDay[10] != Hello[10] && HelloMonthDay[7] != HelloDay[7];
    assert Meeting23[8] != Meeting10[8] && Meeting23[8] != Meeting11[8] && Meeting23[9] != Meeting24[9];
    assert Meeting10[9] != Meeting11[9] && Meeting10[8] != Meeting24[8] && Meeting11[8] != Meeting24[8];
    assert Hello[0] != Meeting23[0] && Hello[0] == HelloMonthDay[0] == HelloDay[0];
    assert Meeting23[0] == Meeting10[0] == Meeting11[0] == Meeting24[0];
  }

  /** `test_duplicator` of src/dp/mod.rs, first two calls, as a property of
      the scan: for any two-rule chain in which rule 0 renames `h` to `hmd`,
      and on `m` rule 0 declines and rule 1 proposes `m10`, both files are
      duplicated when the proposed names are free. */
  lemma StopCopies(rules: seq<Engine.Proposer>, files: set<string>, h: string, m: string, hmd: string, m10: string)
    requires |rules| == 2
    requires rules[0](h) == Some(hmd)
    requires rules[0](m) == None && rules[1](m) == Some(m10)
    requires hmd !in files && m10 !in files + {hmd}
    ensures Engine.Scan(rules, files, false, 0, h) == Engine.Copy(h, hmd)
    ensures Engine.Scan(rules, files + {hmd}, false, 0, m) == Engine.Copy(m, m10)
  {
    Engine.FirstMatchDecides(rules, files, false, 0, h, 0, hmd);
    Engine.FirstMatchDecides(rules, files + {hmd}, false, 0, m, 1, m10);
  }

  /** The same test, last two calls: once both copies exist, repeating
      either call copies nothing, since with fallthrough off the same first
      proposal now collides. */
  lemma StopRepeats(rules: seq<Engine.Proposer>, files: set<string>, h: string, m: string, hmd: string, m10: string)
    requires |rules| == 2
    requires rules[0](h) == Some(hmd)
    requires rules[0](m) == None && rules[1](m) == Some(m10)
    requires hmd in files && m10 in files
    ensures Engine.Scan(rules, files, false, 0, h) == Engine.NoCopy
    ensures Engine.Scan(rules, files, false, 0, m) == Engine.NoCopy
  {
    Engine.FirstMatchDecides(rules, files, false, 0, h, 0, hmd);
    Engine.FirstMatchDecides(rules, files, false, 0, m, 1, m10);
  }

  /** `test_duplicator` of src/dp/mod.rs run through `Engine.Duplicator` on
      a fresh test file system holding `h` and `m`, for any rules `r0`, `r1`
      and names that behave as the test's do: the four calls return true,
      true, false, false. */
  method StopOnCollisionRun(r0: Engine.Proposer, r1: Engine.Proposer, h: string, m: string, hmd: string, m10: string)
    returns (first: bool, second: bool, third: bool, fourth: bool)
    requires r0(h) == Some(hmd)
    requires r0(m) == None && r1(m) == Some(m10)
    requires hmd != h && hmd != m && m10 != h && m10 != m && m10 != hmd
    ensures first && second && !third && !fourth
  {
    var rules := [r0, r1];
    var fs := new Vfs.TestFileSystem([h, m]);
    var d := new Engine.Duplicator(rules, fs, false);
    StopCopies(rules, fs.files, h, m, hmd, m10);
    first := d.Duplicate(h);
    second := d.Duplicate(m);
    StopRepeats(rules, fs.files, h, m, hmd, m10);
    third := d.Duplicate(h);
    fourth := d.Duplicate(m);
  }

  /** src/dp/mod.rs, `test_duplicator`, on its own rules and names. */
  method StopOnCollisionScenario() returns (first: bool, second: bool, third: bool, fourth: bool)
    ensures first && second && !third && !fourth
  {
    HelloDates(Hello);
    Meeting23Facts();
    NamesDistinct();
    first, second, third, fourth := StopOnCollisionRun(Boxed(MonthDayRule), Boxed(DayRule), Hello, Meeting23, HelloMonthDay, Meeting10);
  }

  /** `test_fallthrough_rules` of src/dp/mod.rs, first two calls: rule 0
      renames `h` to `hd` and `m` to `m10`, both free, and both are copied
      to. */
  lemma FallthroughCopies(rules: seq<Engine.Proposer>, files: set<string>, h: string, m: string, hd: string, m10: string)
    requires |rules| == 2
    requires rules[0](h) == Some(hd) && rules[0](m) == Some(m10)
    requires hd !in files && m10 !in files + {hd}
    ensures Engine.Scan(rules, files, true, 0, h) == Engine.Copy(h, hd)
    ensures Engine.Scan(rules, files + {hd}, true, 0, m) == Engine.Copy(m, m10)
  {
    Engine.FirstMatchDecides(rules, files, true, 0, h, 0, hd);
    Engine.FirstMatchDecides(rules, files + {hd}, true, 0, m, 0, m10);
  }

  /** The same test, third call, as a general step: rule 0 proposes for `f`
      a name `n` that exists; with fallthrough on, rule 1 applied to `n`
      proposes the free `next`, and the copy is made from `n`. (In the test
      `f` is meeting-11.org, `n` meeting-10.org and `next` meeting-11.org.) */
  lemma FallthroughChains(rules: seq<Engine.Proposer>, files: set<string>, f: string, n: string, next: string)
    requires |rules| == 2
    requires rules[0](f) == Some(n) && rules[1](n) == Some(next)
    requires n in files && next !in files
    ensures Engine.Scan(rules, files, true, 0, f) == Engine.Copy(n, next)
  {
    Engine.FirstMatchDecides(rules, files, true, 0, f, 0, n);
    Engine.FirstMatchDecides(rules, files, true, 1, n, 1, next);
  }

  /** `test_fallthrough_rules` of src/dp/mod.rs run through
      `Engine.Duplicator`: the three calls succeed, and the file system then
      holds exactly the two originals and the three copies. */
  method FallthroughRun(r0: Engine.Proposer, r1: Engine.Proposer, h: string, m: string, m11: string, hd: string, m10: string)
    returns (first: bool, second: bool, third: bool, names: seq<string>)
    requires r0(h) == Some(hd) && r0(m) == Some(m10)
    requires r0(m11) == Some(m10) && r1(m10) == Some(m11)
    requires hd != h && hd != m && m10 != h && m10 != m && m10 != hd
    requires m11 != h && m11 != m && m11 != hd && m11 != m10
    ensures first && second && third
    ensures forall n :: n in names <==> n in {h, m, hd, m10, m11}
  {
    var rules := [r0, r1];
    var fs := new Vfs.TestFileSystem([h, m]);
    var d := new Engine.Duplicator(rules, fs, true);
    FallthroughCopies(rules, fs.files, h, m, hd, m10);
    first := d.Duplicate(h);
    second := d.Duplicate(m);
    FallthroughChains(rules, fs.files, m11, m10, m11);
    third := d.Duplicate(m11);
    names := fs.GetFiles();
  }

  /** src/dp/mod.rs, `test_fallthrough_rules`, on its own rules and names. */
  method FallthroughScenario() returns (first: bool, second: bool, third: bool, names: seq<string>)
    ensures first && second && third
    ensures forall n :: n in names <==> n in {Hello, Meeting23, HelloDay, Meeting10, Meeting11}
  {
    HelloDates(Hello);
    Meeting23Facts();
    Meeting11Facts();
    Meeting10Increment();
    NamesDistinct();
    first, second, third, names := FallthroughRun(Boxed(DayRule), Boxed(IncrementRule), Hello, Meeting23, Meeting11, HelloDay, Meeting10);
  }

  /** `test_duplicator` of src/lib.rs run through `Legacy.Duplicator`, for
      any rules and names that behave as the test's do: both calls succeed
      and both copies exist afterwards. */
  method LegacyRun(r0: Engine.Proposer, r1: Engine.Proposer, h: string, m: string, hmd: string, m10: string)
    returns (first: bool, second: bool, hello: bool, meeting: bool)
    requires r0(h) == Some(hmd)
    requires r0(m) == None && r1(m) == Some(m10)
    requires hmd != h && hmd != m && m10 != h && m10 != m && m10 != hmd
    ensures first && second && hello && meeting
  {
    var rules := [r0, r1];
    var fs := new Vfs.TestFileSystem([h, m]);
    var d := new Legacy.Duplicator(rules, fs);
    Legacy.FirstFreeDecides(rules, fs.files, 0, h, 0, hmd);
    first := d.Duplicate(h);
    Legacy.FirstFreeDecides(rules, fs.files, 0, m, 1, m10);
    second := d.Duplicate(m);
    hello := fs.Exists(hmd);
    meeting := fs.Exists(m10);
  }

  /** src/lib.rs, `test_duplicator`, on its own rules and names. */
  method LegacyScenario() returns (first: bool, second: bool, hello: bool, meeting: bool)
    ensures first && second && hello && meeting
  {
    HelloDates(Hello);
    Meeting23Facts();
    NamesDistinct();
    first, second, hello, meeting := LegacyRun(Boxed(MonthDayRule), Boxed(DayRule), Hello, Meeting23, HelloMonthDay, Meeting10);
  }

  /** One input, three collision policies. Rule 0 proposes `n`, which
      exists; rule 1 proposes free names both for `n` and for the input `f`.
      Fallthrough copies from `n`; the stop policy copies nothing; the
      legacy engine copies from `f`. On meeting-23.org with meeting-10.org
      present and the chain [date "%d", increment] that is meeting-10.org to
      meeting-11.org, nothing, and meeting-23.org to meeting-24.org
      (`Meeting23Facts`, `Meeting10Increment`, `Meeting23Increment`). */
  lemma PoliciesCompared(rules: seq<Engine.Proposer>, files: set<string>, f: string, n: string, fromN: string, fromF: string)
    requires |rules| == 2
    requires rules[0](f) == Some(n) && n in files
    requires rules[1](n) == Some(fromN) && fromN !in files
    requires rules[1](f) == Some(fromF) && fromF !in files
    ensures Engine.Scan(rules, files, true, 0, f) == Engine.Copy(n, fromN)
    ensures Engine.Scan(rules, files, false, 0, f) == Engine.NoCopy
    ensures Legacy.Scan(rules, files, 0, f) == Engine.Copy(f, fromF)
  {
    FallthroughChains(rules, files, f, n, fromN);
    Engine.FirstMatchDecides(rules, files, false, 0, f, 0, n);
    Legacy.FirstFreeDecides(rules, files, 0, f, 1, fromF);
  }

  /** Rule order is priority: when both rules propose different free names,
      swapping them changes the copy's destination (meeting-23.org goes to
      meeting-10.org under [date "%d", increment] and to meeting-24.org under
      [increment, date "%d"]). */
  lemma OrderMatters(r0: Engine.Proposer, r1: Engine.Proposer, files: set<string>, f: string, c0: string, c1: string)
    requires r0(f) == Some(c0) && c0 !in files
    requires r1(f) == Some(c1) && c1 !in files && c0 != c1
    ensures Engine.Scan([r0, r1], files, false, 0, f) == Engine.Copy(f, c0)
    ensures Engine.Scan([r1, r0], files, false, 0, f) == Engine.Copy(f, c1)
    ensures Engine.Scan([r0, r1], files, false, 0, f) != Engine.Scan([r1, r0], files, false, 0, f)
  {
    Engine.FirstMatchDecides([r0, r1], files, false, 0, f, 0, c0);
    Engine.FirstMatchDecides([r1, r0], files, false, 0, f, 0, c1);
  }

  /** A rule that regenerates its own input (as the "%d" date rule built on
      the 10th does on meeting-10.org, `Meeting10Facts`): with fallthrough
      the next rule is applied to that existing name, and without it the
      call fails. */
  lemma RegeneratedNameFallsThrough(rules: seq<Engine.Proposer>, files: set<string>, f: string, next: string)
    requires |rules| == 2
    requires rules[0](f) == Some(f) && f in files
    requires rules[1](f) == Some(next) && next !in files
    ensures Engine.Scan(rules, files, true, 0, f) == Engine.Copy(f, next)
    ensures Engine.Scan(rules, files, false, 0, f) == Engine.NoCopy
  {
    FallthroughChains(rules, files, f, f, next);
    Engine.FirstMatchDecides(rules, files, false, 0, f, 0, f);
  }

  /** `PoliciesCompared` on the chain [date "%d", increment] and
      meeting-23.org, with meeting-10.org present. The "%d" rule proposes
      the existing meeting-10.org; with fallthrough the increment rule then
      copies meeting-10.org to meeting-11.org. */
  lemma MeetingFallthrough()
    ensures Engine.Scan([Boxed(DayRule), Boxed(IncrementRule)], {Meeting23, Meeting10}, true, 0, Meeting23)
            == Engine.Copy(Meeting10, Meeting11)
  {
    MeetingPolicyFacts();
    PoliciesCompared([Boxed(DayRule), Boxed(IncrementRule)], {Meeting23, Meeting10},
                     Meeting23, Meeting10, Meeting11, Meeting24);
  }

  /** The same chain and files with fallthrough off: nothing is copied. */
  lemma MeetingStop()
    ensures Engine.Scan([Boxed(DayRule), Boxed(IncrementRule)], {Meeting23, Meeting10}, false, 0, Meeting23)
            == Engine.NoCopy
  {
    MeetingPolicyFacts();
    PoliciesCompared([Boxed(DayRule), Boxed(IncrementRule)], {Meeting23, Meeting10},
                     Meeting23, Meeting10, Meeting11, Meeting24);
  }

  /** The same chain and files under the legacy engine: the collision is
      skipped and meeting-23.org is copied to meeting-24.org. */
  lemma MeetingLegacy()
    ensures Legacy.Scan([Boxed(DayRule), Boxed(IncrementRule)], {Meeting23, Meeting10}, 0, Meeting23)
            == Engine.Copy(Meeting23, Meeting24)
  {
    MeetingPolicyFacts();
    PoliciesCompared([Boxed(DayRule), Boxed(IncrementRule)], {Meeting23, Meeting10},
                     Meeting23, Meeting10, Meeting11, Meeting24);
  }

  /** What the three policy lemmas above need of the rules and names. */
  lemma MeetingPolicyFacts()
    ensures Boxed(DayRule)(Meeting23) == Some(Meeting10)
    ensures Boxed(IncrementRule)(Meeting10) == Some(Meeting11)
    ensures Boxed(IncrementRule)(Meeting23) == Some(Meeting24)
    ensures Meeting11 !in {Meeting23, Meeting10} && Meeting24 !in {Meeting23, Meeting10}
  {
    Meeting23Facts();
    Meeting10Increment();
    Meeting23Increment();
    NamesDistinct();
  }

  /** `OrderMatters` on meeting-23.org alone: [date "%d", increment] copies
      it to meeting-10.org, [increment, date "%d"] to meeting-24.org. */
  lemma MeetingOrder()
    ensures Engine.Scan([Boxed(DayRule), Boxed(IncrementRule)], {Meeting23}, false, 0, Meeting23)
            == Engine.Copy(Meeting23, Meeting10)
    ensures Engine.Scan([Boxed(IncrementRule), Boxed(DayRule)], {Meeting23}, false, 0, Meeting23)
            == Engine.Copy(Meeting23, Meeting24)
  {
    Meeting23Facts();
    Meeting23Increment();
    NamesDistinct();
    OrderMatters(Boxed(DayRule), Boxed(IncrementRule), {Meeting23}, Meeting23, Meeting10, Meeting24);
  }

  /** `RegeneratedNameFallsThrough` on meeting-10.org: the "%d" rule built
      on the 10th regenerates it, so with fallthrough the increment rule
      copies it to meeting-11.org, and without it the call fails. */
  lemma Meeting10Regenerated()
    ensures Engine.Scan([Boxed(DayRule), Boxed(IncrementRule)], {Meeting10}, true, 0, Meeting10)
            == Engine.Copy(Meeting10, Meeting11)
    ensures Engine.Scan([Boxed(DayRule), Boxed(IncrementRule)], {Meeting10}, false, 0, Meeting10)
            == Engine.NoCopy
  {
    Meeting10Facts();
    Meeting10Increment();
    NamesDistinct();
    RegeneratedNameFallsThrough([Boxed(DayRule), Boxed(IncrementRule)], {Meeting10}, Meeting10, Meeting11);
  }

  /** A name on which every rule declines: hello-there.org has no date and
      no digit, so the chain [date "%m-%d", increment] copies nothing under
      either policy, and `duplicate` returns false. */
  lemma HelloThereDeclines(fallthrough: bool)
    ensures Engine.Scan([Boxed(MonthDayRule), Boxed(IncrementRule)], {"hello-there.org"}, fallthrough, 0, "hello-there.org")
            == Engine.NoCopy
  {
    DateRuleDeclineExamples();
    assert !HasDigit("hello-there.org");
    IncrementApplyDeclines("hello-there.org");
    Engine.AllDecline([Boxed(MonthDayRule), Boxed(IncrementRule)], {"hello-there.org"}, fallthrough, 0, "hello-there.org");
  }
}
