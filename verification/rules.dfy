/** Renaming rules of the duplicator (src/dp/rules.rs). A rule is a pure
    transform: given a file name it proposes a new name or declines. Both rule
    kinds are written in the source as a regular expression of the shape
    `(.*)(P)(.*)` whose match is rewritten as group 1, a replacement, group 3.
    The model describes what that expression does on names without a newline
    (`ValidName`, where `.` matches every character), with `P` a fixed-length
    sequence of character classes for the date rule and `\d+` for the
    increment rule. The functions are total; on a name with a newline they
    still replace the rightmost occurrence, which the expression would not
    (its `.` stops at a newline). */
module Rules {

  import opened Wrappers

  /** One position of a date pattern: `\d` or a literal character. */
  datatype Class = Digit | Lit(c: char)

  /** A configured rule. A date rule keeps its pattern and its date text. The
      source formats the instant and the format it was built with on every
      `apply`; both are fixed, so the text is the same each time and the
      model stores it already formatted. */
  datatype Rule = DateRule(pattern: seq<Class>, date: string) | IncrementRule

  predicate IsDigit(c: char) { '0' <= c <= '9' }

  predicate IsDecimal(t: string) { forall j :: 0 <= j < |t| ==> IsDigit(t[j]) }

  /** The names the rules are modelled for: no newline, so `.*` can span all of them. */
  predicate ValidName(s: string) { '\n' !in s }

  /** A rule whose replacement text keeps names valid. */
  predicate ValidRule(r: Rule) { r.DateRule? ==> ValidName(r.date) }

  predicate ClassMatches(k: Class, c: char) {
    match k
    case Digit => IsDigit(c)
    case Lit(l) => c == l
  }

  /** `t` is matched, as a whole, by the pattern `pat`. */
  predicate Matches(pat: seq<Class>, t: string) {
    |t| == |pat| && forall j :: 0 <= j < |pat| ==> ClassMatches(pat[j], t[j])
  }

  /** `pat` matches the span of `s` that starts at `i`. */
  predicate MatchesAt(pat: seq<Class>, s: string, i: nat) {
    i + |pat| <= |s| && Matches(pat, s[i..i + |pat|])
  }

  predicate Occurs(pat: seq<Class>, s: string) {
    exists i: nat :: i <= |s| && MatchesAt(pat, s, i)
  }

  /** The span at `i` is where the greedy leading `(.*)` leaves group 2: it
      matches, and no span starting further right does. */
  predicate IsRightmostMatch(pat: seq<Class>, s: string, i: nat) {
    MatchesAt(pat, s, i) && forall j: nat :: i < j <= |s| ==> !MatchesAt(pat, s, j)
  }

  /** The rightmost position below `n` at which `pat` matches in `s`. */
  function MatchBefore(pat: seq<Class>, s: string, n: nat): (r: Option<nat>)
    ensures r.Some? ==> r.value < n && MatchesAt(pat, s, r.value)
  {
    if n == 0 then None
    else if MatchesAt(pat, s, n - 1) then Some(n - 1)
    else MatchBefore(pat, s, n - 1)
  }

  /** No match lies between the position found and `n`, and none lies below
      `n` when nothing is found. */
  lemma {:induction false} MatchBeforeRightmost(pat: seq<Class>, s: string, n: nat)
    ensures MatchBefore(pat, s, n).Some? ==>
              forall j: nat :: MatchBefore(pat, s, n).value < j < n ==> !MatchesAt(pat, s, j)
    ensures MatchBefore(pat, s, n).None? ==> forall j: nat :: j < n ==> !MatchesAt(pat, s, j)
    decreases n
  {
    if n > 0 && !MatchesAt(pat, s, n - 1) {
      MatchBeforeRightmost(pat, s, n - 1);
    }
  }

  /** `DateRule::apply`: the rightmost occurrence of the pattern is replaced
      by the date text (see `DateApplyDeclines` and `DateApplyRightmost`). */
  function DateApply(pat: seq<Class>, date: string, s: string): (r: Option<string>)
    ensures r.Some? ==> |pat| <= |s| && |r.value| + |pat| == |s| + |date|
  {
    match MatchBefore(pat, s, |s| + 1)
    case None => None
    case Some(i) => Some(s[..i] + date + s[i + |pat|..])
  }

  /** A date rule declines exactly when its pattern does not occur. */
  lemma DateApplyDeclines(pat: seq<Class>, date: string, s: string)
    ensures DateApply(pat, date, s).None? <==> !Occurs(pat, s)
  {
    MatchBeforeRightmost(pat, s, |s| + 1);
  }

  /** Otherwise the rightmost occurrence, and nothing else, is replaced by the
      date text: groups 1 and 3 are kept verbatim. */
  lemma DateApplyRightmost(pat: seq<Class>, date: string, s: string, i: nat)
    requires IsRightmostMatch(pat, s, i)
    ensures DateApply(pat, date, s) == Some(s[..i] + date + s[i + |pat|..])
  {
    MatchBeforeRightmost(pat, s, |s| + 1);
  }
  /** Every name the pattern occurs in has a rightmost match, so a date rule
      renames every such name as `DateApplyRightmost` describes. */
  lemma DateApplyRenames(pat: seq<Class>, date: string, s: string)
    requires Occurs(pat, s)
    ensures exists i: nat :: IsRightmostMatch(pat, s, i) &&
              DateApply(pat, date, s) == Some(s[..i] + date + s[i + |pat|..])
  {
    MatchBeforeRightmost(pat, s, |s| + 1);
    DateApplyDeclines(pat, date, s);
    var i := MatchBefore(pat, s, |s| + 1).value;
    assert IsRightmostMatch(pat, s, i);
    DateApplyRightmost(pat, date, s, i);
  }


  function DigitValue(c: char): (v: nat)
    requires IsDigit(c)
    ensures v < 10
  {
    c as int - '0' as int
  }

  function DigitChar(n: nat): (c: char)
    requires n < 10
    ensures IsDigit(c) && DigitValue(c) == n
  {
    ('0' as int + n) as char
  }

  /** The decimal text of `n`, without leading zeros, as `format!("{}", n)` writes it. */
  function DecimalText(n: nat): (t: string)
    ensures |t| > 0 && IsDecimal(t)
    ensures |t| == 1 <==> n < 10
    ensures n > 0 ==> t[0] != '0'
  {
    if n < 10 then [DigitChar(n)] else DecimalText(n / 10) + [DigitChar(n % 10)]
  }

  /** 10 to the power `n`. */
  function Pow10(n: nat): (p: nat)
    ensures p > 0
  {
    if n == 0 then 1 else 10 * Pow10(n - 1)
  }

  /** The value of a digit string, as `str::parse` reads it; `n` digits read
      as less than 10 to the power `n`. */
  function ParseDecimal(t: string): (v: nat)
    requires IsDecimal(t)
    ensures v < Pow10(|t|)
  {
    if t == [] then 0 else ParseDecimal(t[..|t| - 1]) * 10 + DigitValue(t[|t| - 1])
  }

  /** Reading back the decimal text of a number gives the number. */
  lemma {:induction false} ParseDecimalText(n: nat)
    ensures ParseDecimal(DecimalText(n)) == n
  {
    var t := DecimalText(n);
    if n >= 10 {
      ParseDecimalText(n / 10);
      assert t[..|t| - 1] == DecimalText(n / 10);
    }
  }

  /** `IncrementRule::increment`: parse the digit string as a 32-bit signed
      integer and add one. The parse fails on an empty string or a value
      beyond 2^31 - 1, and the addition overflows at 2^31 - 1: those panics
      are excluded by the precondition. */
  function Increment(nstr: string): (r: int)
    requires |nstr| > 0 && IsDecimal(nstr)
    requires ParseDecimal(nstr) < 0x7fff_ffff
    ensures 0 < r <= 0x7fff_ffff
    ensures r - 1 == ParseDecimal(nstr)
  {
    ParseDecimal(nstr) + 1
  }

  /** A single digit is always a legal argument of `Increment`; the number it
      gives is the digit's value plus one, written in one character, or two
      when the digit is `9`. */
  lemma IncrementOfDigit(d: char)
    requires IsDigit(d)
    ensures ParseDecimal([d]) == DigitValue(d) < 0x7fff_ffff
    ensures Increment([d]) == DigitValue(d) + 1
    ensures |DecimalText(Increment([d]))| == if d == '9' then 2 else 1
    ensures ParseDecimal(DecimalText(Increment([d]))) == DigitValue(d) + 1
  {
    assert [d][..0] == [];
    ParseDecimalText(DigitValue(d) + 1);
  }

  /** The text `IncrementRule::increment` gives for a one-digit group 2:
      the digit's successor, or "10" for '9' (see `SuccTextIncrement`). */
  function SuccText(d: char): (t: string)
    requires IsDigit(d)
    ensures IsDecimal(t) && 1 <= |t| <= 2
  {
    if d == '9' then "10" else [DigitChar(DigitValue(d) + 1)]
  }

  /** `SuccText` is what parsing the digit, adding one and writing the sum
      in decimal gives. */
  lemma SuccTextIncrement(d: char)
    requires IsDigit(d)
    ensures SuccText(d) == DecimalText(Increment([d]))
  {
    IncrementOfDigit(d);
    if d == '9' {
      assert DecimalText(10) == DecimalText(1) + "0" == "10";
    }
  }

  predicate HasDigit(s: string) {
    exists j :: 0 <= j < |s| && IsDigit(s[j])
  }

  /** `k` is where the greedy leading `(.*)` of `(.*)(\d+)(.*)` leaves group 2:
      the last digit of `s`. Group 2 is then that one digit. */
  predicate IsLastDigit(s: string, k: nat) {
    k < |s| && IsDigit(s[k]) && forall j :: k < j < |s| ==> !IsDigit(s[j])
  }

  /** The position of the last digit of `s` below `n`. */
  function LastDigitBefore(s: string, n: nat): (r: Option<nat>)
    requires n <= |s|
    ensures r.Some? ==> r.value < n && IsDigit(s[r.value])
  {
    if n == 0 then None
    else if IsDigit(s[n - 1]) then Some(n - 1)
    else LastDigitBefore(s, n - 1)
  }

  /** No digit lies between the position found and `n`, and none lies below
      `n` when nothing is found. */
  lemma {:induction false} LastDigitBeforeLast(s: string, n: nat)
    requires n <= |s|
    ensures LastDigitBefore(s, n).Some? ==>
              forall j :: LastDigitBefore(s, n).value < j < n ==> !IsDigit(s[j])
    ensures LastDigitBefore(s, n).None? ==> forall j :: 0 <= j < n ==> !IsDigit(s[j])
    decreases n
  {
    if n > 0 && !IsDigit(s[n - 1]) {
      LastDigitBeforeLast(s, n - 1);
    }
  }

  /** `IncrementRule::apply`: the last digit is parsed, incremented and
      written back (see `IncrementApplyDeclines` and `IncrementApplyLast`). */
  function IncrementApply(s: string): (r: Option<string>)
    ensures r.Some? ==> |s| <= |r.value| <= |s| + 1
  {
    match LastDigitBefore(s, |s|)
    case None => None
    case Some(k) => Some(s[..k] + SuccText(s[k]) + s[k + 1..])
  }

  /** The increment rule declines exactly when the name has no digit. */
  lemma IncrementApplyDeclines(s: string)
    ensures IncrementApply(s).None? <==> !HasDigit(s)
  {
    LastDigitBeforeLast(s, |s|);
  }

  /** Otherwise the last digit `d`, and nothing else, is replaced by the
      decimal text of `d + 1` (so `a9` becomes `a10`, and `a19` becomes `a110`). */
  lemma IncrementApplyLast(s: string, k: nat)
    requires IsLastDigit(s, k)
    ensures IncrementApply(s) == Some(s[..k] + DecimalText(DigitValue(s[k]) + 1) + s[k + 1..])
  {
    LastDigitBeforeLast(s, |s|);
    IncrementOfDigit(s[k]);
    SuccTextIncrement(s[k]);
  }

  /** Every name with a digit has a last digit, so the increment rule renames
      every such name as `IncrementApplyLast` describes. */
  lemma IncrementApplyRenames(s: string)
    requires HasDigit(s)
    ensures exists k: nat :: IsLastDigit(s, k) &&
              IncrementApply(s) == Some(s[..k] + DecimalText(DigitValue(s[k]) + 1) + s[k + 1..])
  {
    LastDigitBeforeLast(s, |s|);
    IncrementApplyDeclines(s);
    var k := LastDigitBefore(s, |s|).value;
    assert IsLastDigit(s, k);
    IncrementApplyLast(s, k);
  }

  /** An incremented name is as long as the original, or one longer when the
      digit replaced was a `9`. */
  lemma IncrementApplyLength(s: string, k: nat)
    requires IsLastDigit(s, k)
    ensures IncrementApply(s).Some?
    ensures |IncrementApply(s).value| == |s| + if s[k] == '9' then 1 else 0
  {
    IncrementApplyLast(s, k);
    IncrementOfDigit(s[k]);
  }

  /** `Rule::apply`, dispatched on the kind of rule. */
  function Apply(rule: Rule, s: string): (r: Option<string>)
    ensures r.Some? && rule.IncrementRule? ==> |s| <= |r.value| <= |s| + 1
    ensures r.Some? && rule.DateRule? ==> |r.value| + |rule.pattern| == |s| + |rule.date|
  {
    match rule
    case DateRule(pat, date) => DateApply(pat, date, s)
    case IncrementRule => IncrementApply(s)
  }

  /** A valid rule turns a valid name into a valid name, so a chain of
      proposals (as fallthrough builds) stays where the model describes the
      regular expression. */
  lemma ApplyKeepsValid(rule: Rule, s: string)
    requires ValidRule(rule) && ValidName(s)
    ensures Apply(rule, s).Some? ==> ValidName(Apply(rule, s).value)
  {
    match rule
    case DateRule(pat, date) =>
      var m := MatchBefore(pat, s, |s| + 1);
      if m.Some? {
        NoNewlineSplice(s, m.value, m.value + |pat|, date);
      }
    case IncrementRule =>
      var m := LastDigitBefore(s, |s|);
      if m.Some? {
        NoNewlineSplice(s, m.value, m.value + 1, SuccText(s[m.value]));
      }
  }

  /** Replacing a span of a valid name by valid text gives a valid name. */
  lemma NoNewlineSplice(s: string, i: nat, j: nat, t: string)
    requires i <= j <= |s|
    requires ValidName(s)
    ensures ValidName(t) || IsDecimal(t) ==> ValidName(s[..i] + t + s[j..])
  {
    var u := s[..i] + t + s[j..];
    forall m | 0 <= m < |u| && (ValidName(t) || IsDecimal(t)) ensures u[m] != '\n' {
      if m < i {
        assert u[m] == s[m];
      } else if m < i + |t| {
        assert u[m] == t[m - i];
      } else {
        assert u[m] == s[m - i - |t| + j];
      }
    }
  }

  /** The date-rule cases of the unit tests. The rules are built at the
      instant 2019-11-10, so "%m-%d" formats as "11-10" and "%d" as "10". */
  lemma DateRuleMonthDayExample()
    ensures Apply(DateRule([Digit, Digit, Lit('-'), Digit, Digit], "11-10"), "hello-10-23.org")
            == Some("hello-11-10.org")
  {
    var md, s := [Digit, Digit, Lit('-'), Digit, Digit], "hello-10-23.org";
    MonthDayRightmost(md, s);
    DateApplyRightmost(md, "11-10", s, 6);
    assert s[..6] + "11-10" + s[11..] == "hello-11-10.org";
  }

  lemma MonthDayRightmost(md: seq<Class>, s: string)
    requires md == [Digit, Digit, Lit('-'), Digit, Digit] && s == "hello-10-23.org"
    ensures IsRightmostMatch(md, s, 6)
  {
    forall j: nat | 6 < j <= |s| ensures !MatchesAt(md, s, j) {
      if j == 7 { MismatchAt(md, s, j, 1); }
      else if j == 8 { MismatchAt(md, s, j, 0); }
      else if j == 9 { MismatchAt(md, s, j, 2); }
      else if j == 10 { MismatchAt(md, s, j, 1); }
    }
  }

  lemma DateRuleDayExample()
    ensures Apply(DateRule([Digit, Digit], "10"), "hello-23.org") == Some("hello-10.org")
  {
    var dd, t := [Digit, Digit], "hello-23.org";
    DayRightmost(dd, t, 6);
    DateApplyRightmost(dd, "10", t, 6);
    assert t[..6] + "10" + t[8..] == "hello-10.org";
  }

  /** With two occurrences of the pattern, the rightmost one is replaced. */
  lemma DateRuleRightmostExample()
    ensures Apply(DateRule([Digit, Digit], "10"), "hello-10-23.org") == Some("hello-10-10.org")
  {
    var dd, s := [Digit, Digit], "hello-10-23.org";
    DayRightmost(dd, s, 9);
    DateApplyRightmost(dd, "10", s, 9);
    assert s[..9] + "10" + s[11..] == "hello-10-10.org";
  }

  /** In a name that ends in two digits and a four-character suffix, the two
      digits are the rightmost match of `\d{2}`. */
  lemma DayRightmost(dd: seq<Class>, s: string, i: nat)
    requires dd == [Digit, Digit] && i + 6 == |s|
    requires IsDigit(s[i]) && IsDigit(s[i + 1]) && !IsDigit(s[i + 2]) && s[i + 3..] == "org"
    ensures IsRightmostMatch(dd, s, i)
  {
    forall j: nat | i < j <= |s| ensures !MatchesAt(dd, s, j) {
      if j == i + 1 { MismatchAt(dd, s, j, 1); }
      else if j < |s| { MismatchAt(dd, s, j, 0); }
    }
    assert s[i..i + 2][0] == s[i] && s[i..i + 2][1] == s[i + 1];
  }

  lemma DateRuleDeclineExamples()
    ensures Apply(DateRule([Digit, Digit, Lit('-'), Digit, Digit], "11-10"), "hello-there.org") == None
    ensures Apply(DateRule([Digit, Digit], "10"), "hello-XY.org") == None
  {
    NoDigitNoMatch([Digit, Digit, Lit('-'), Digit, Digit], "hello-there.org");
    DateApplyDeclines([Digit, Digit, Lit('-'), Digit, Digit], "11-10", "hello-there.org");
    NoDigitNoMatch([Digit, Digit], "hello-XY.org");
    DateApplyDeclines([Digit, Digit], "10", "hello-XY.org");
  }

  /** A pattern that starts with `\d` does not occur in a name without digits. */
  lemma NoDigitNoMatch(pat: seq<Class>, s: string)
    requires |pat| > 0 && pat[0] == Digit && !HasDigit(s)
    ensures !Occurs(pat, s)
  {
    forall j: nat | j <= |s| ensures !MatchesAt(pat, s, j) {
      if j < |s| { MismatchAt(pat, s, j, 0); }
    }
  }

  /** A span with one position its class rejects is not a match. */
  lemma MismatchAt(pat: seq<Class>, s: string, j: nat, m: nat)
    requires m < |pat| && j + m < |s| && !ClassMatches(pat[m], s[j + m])
    ensures !MatchesAt(pat, s, j)
  {
    if j + |pat| <= |s| {
      assert s[j..j + |pat|][m] == s[j + m];
    }
  }

  /** The increment-rule cases of the unit tests in which the rule declines. */
  lemma IncrementDeclineExamples()
    ensures Apply(IncrementRule, "hello.txt") == None
    ensures Apply(IncrementRule, "") == None
  {
    IncrementApplyDeclines("hello.txt");
    IncrementApplyDeclines("");
  }

  /** The increment-rule cases of the unit tests in which it renames. */
  lemma IncrementRuleExamples()
    ensures Apply(IncrementRule, "hello3.txt") == Some("hello4.txt")
    ensures Apply(IncrementRule, "hello7") == Some("hello8")
  {
    IncrementApplyLast("hello3.txt", 5);
    assert "hello3.txt"[..5] + "4" + "hello3.txt"[6..] == "hello4.txt";
    IncrementApplyLast("hello7", 5);
    assert "hello7"[..5] + "8" + "hello7"[6..] == "hello8";
  }

  /** The carry case: only the last digit is rewritten, so a trailing `9`
      becomes `10` and the digits before it stay. */
  lemma IncrementCarryExample()
    ensures Apply(IncrementRule, "a19") == Some("a110")
  {
    IncrementApplyLast("a19", 2);
    assert DecimalText(10) == DecimalText(1) + "0" == "10";
    assert "a19"[..2] + "10" + "a19"[3..] == "a110";
  }
}
