/** The rule-chain duplication engine of src/dp/mod.rs. A `Duplicator` holds
    an ordered rule chain, the file system it copies in, and the
    `fallthrough` policy. The first rule (from a start index on) that
    proposes a name decides: a free name is copied to; a name that already
    exists either ends the scan with failure (fallthrough off) or restarts
    the scan at the next rule with the existing name as the input
    (fallthrough on). `Scan` states that outcome as a function of the
    rules, the known files, the policy, the start index and the input. */
module Engine {

  import opened Wrappers
  import Vfs

  /** What the engine sees of a configured rule (a `Box<dyn Rule>`): its
      `apply`, which proposes a new name for a file name or declines. */
  type Proposer = string -> Option<string>

  /** What one `duplicate` call does to the file system: nothing, or one
      copy from `src` to `dst`. */
  datatype Outcome = NoCopy | Copy(src: string, dst: string)

  /** Rule `index` of the chain proposed `name`. */
  datatype Hit = Hit(index: nat, name: string)

  /** The first rule at or after `idx` that proposes a name for `file`: every
      rule before it declines, and when there is none every rule declines. */
  function FirstMatch(rules: seq<Proposer>, idx: nat, file: string): (r: Option<Hit>)
    ensures r.Some? ==> idx <= r.value.index < |rules| &&
                        rules[r.value.index](file) == Some(r.value.name)
    ensures r.Some? ==> forall k :: idx <= k < r.value.index ==> rules[k](file).None?
    ensures r.None? ==> forall k :: idx <= k < |rules| ==> rules[k](file).None?
    decreases |rules| - idx
  {
    if idx >= |rules| then None
    else match rules[idx](file)
      case Some(c) => Some(Hit(idx, c))
      case None => FirstMatch(rules, idx + 1, file)
  }

  /** The outcome of `duplicate_with_rules(idx, file)` on a file system that
      holds `files`. A copy always goes to a name that does not exist yet;
      its source is the original file, or (only with fallthrough) an
      existing name reached through collisions. Past the end of the chain
      nothing is copied. */
  function Scan(rules: seq<Proposer>, files: set<string>, fallthrough: bool, idx: nat, file: string): (o: Outcome)
    ensures o.Copy? ==> o.dst !in files
    ensures o.Copy? ==> o.src == file || (fallthrough && o.src in files)
    ensures idx >= |rules| ==> o == NoCopy
    decreases |rules| - idx
  {
    match FirstMatch(rules, idx, file)
    case None => NoCopy
    case Some(Hit(i, c)) =>
      if c !in files then Copy(file, c)
      else if fallthrough then Scan(rules, files, fallthrough, i + 1, c)
      else NoCopy
  }

  /** A copy goes to a name that some rule at or after `idx` proposed for
      the copy's source. */
  lemma {:induction false} CopyWasProposed(rules: seq<Proposer>, files: set<string>, fallthrough: bool, idx: nat, file: string)
    requires Scan(rules, files, fallthrough, idx, file).Copy?
    ensures var o := Scan(rules, files, fallthrough, idx, file);
            exists k :: idx <= k < |rules| && rules[k](o.src) == Some(o.dst)
    decreases |rules| - idx
  {
    var m := FirstMatch(rules, idx, file);
    var i, c := m.value.index, m.value.name;
    if c in files {
      assert Scan(rules, files, fallthrough, idx, file) == Scan(rules, files, fallthrough, i + 1, c);
      CopyWasProposed(rules, files, fallthrough, i + 1, c);
    } else {
      assert rules[i](file) == Some(c);
    }
  }

  /** If every rule from `idx` on declines, nothing is copied. */
  lemma AllDecline(rules: seq<Proposer>, files: set<string>, fallthrough: bool, idx: nat, file: string)
    requires forall k :: idx <= k < |rules| ==> rules[k](file).None?
    ensures Scan(rules, files, fallthrough, idx, file) == NoCopy
  {
  }

  /** The first rule from `idx` on that proposes a name is found. */
  lemma {:induction false} FirstMatchAt(rules: seq<Proposer>, idx: nat, file: string, i: nat, c: string)
    requires idx <= i < |rules| && rules[i](file) == Some(c)
    requires forall k :: idx <= k < i ==> rules[k](file).None?
    ensures FirstMatch(rules, idx, file) == Some(Hit(i, c))
    decreases i - idx
  {
    if idx < i {
      FirstMatchAt(rules, idx + 1, file, i, c);
    }
  }

  /** First match wins: when rule `i` is the first from `idx` on to propose
      a name `c`, `c` alone decides. A free `c` is copied to from `file`; a
      taken `c` ends the scan without a copy when fallthrough is off, and
      otherwise restarts it at rule `i + 1` with `c` as the input. */
  lemma FirstMatchDecides(rules: seq<Proposer>, files: set<string>, fallthrough: bool,
                          idx: nat, file: string, i: nat, c: string)
    requires idx <= i < |rules| && rules[i](file) == Some(c)
    requires forall k :: idx <= k < i ==> rules[k](file).None?
    ensures c !in files ==> Scan(rules, files, fallthrough, idx, file) == Copy(file, c)
    ensures c in files && !fallthrough ==> Scan(rules, files, fallthrough, idx, file) == NoCopy
    ensures c in files && fallthrough ==>
              Scan(rules, files, fallthrough, idx, file) == Scan(rules, files, fallthrough, i + 1, c)
  {
    FirstMatchAt(rules, idx, file, i, c);
  }

  /** Rules after the one that decides are never consulted: two chains that
      agree up to the first rule that proposes a name give the same outcome,
      unless that name is taken and fallthrough sends the scan on. */
  lemma LaterRulesIgnored(rules: seq<Proposer>, other: seq<Proposer>, files: set<string>, fallthrough: bool,
                          idx: nat, file: string, i: nat, c: string)
    requires idx <= i < |rules| && i < |other| && rules[..i + 1] == other[..i + 1]
    requires rules[i](file) == Some(c)
    requires forall k :: idx <= k < i ==> rules[k](file).None?
    requires c !in files || !fallthrough
    ensures Scan(rules, files, fallthrough, idx, file) == Scan(other, files, fallthrough, idx, file)
  {
    FirstMatchDecides(rules, files, fallthrough, idx, file, i, c);
    forall k | idx <= k <= i ensures other[k] == rules[k] {
      assert other[..i + 1][k] == rules[..i + 1][k];
    }
    FirstMatchDecides(other, files, fallthrough, idx, file, i, c);
  }

  /** With fallthrough off, a call that copied cannot be repeated: the same
      first rule proposes the same name, which now exists. */
  lemma RepeatFails(rules: seq<Proposer>, files: set<string>, idx: nat, file: string)
    requires Scan(rules, files, false, idx, file).Copy?
    ensures Scan(rules, files + {Scan(rules, files, false, idx, file).dst}, false, idx, file) == NoCopy
  {
  }

  class Duplicator {
    const rules: seq<Proposer>
    const vfs: Vfs.TestFileSystem
    const fallthrough: bool

    /** `Duplicator::new` */
    constructor (rules: seq<Proposer>, vfs: Vfs.TestFileSystem, fallthrough: bool)
      ensures this.rules == rules && this.vfs == vfs && this.fallthrough == fallthrough
    {
      this.rules := rules;
      this.vfs := vfs;
      this.fallthrough := fallthrough;
    }

    /** `duplicate_with_rules`: reports whether a copy happened, and makes
        exactly the copy `Scan` describes (at most one `copy` call). */
    method DuplicateWithRules(idx: nat, file: string) returns (ok: bool)
        modifies vfs
      ensures var o := Scan(rules, old(vfs.files), fallthrough, idx, file);
              ok == o.Copy? &&
              vfs.files == (if o.Copy? then old(vfs.files) + {o.dst} else old(vfs.files)) &&
              vfs.copies == old(vfs.copies) + (if o.Copy? then [Vfs.CopyCall(o.src, o.dst)] else [])
      decreases |rules| - idx
    {
      var i := idx;
      while i < |rules|
        invariant idx <= i && (i == idx || i <= |rules|)
        invariant forall k :: idx <= k < i ==> rules[k](file).None?
        invariant vfs.files == old(vfs.files) && vfs.copies == old(vfs.copies)
      {
        var renamed := rules[i](file);
        if renamed.Some? {
          FirstMatchDecides(rules, vfs.files, fallthrough, idx, file, i, renamed.value);
          if vfs.Exists(renamed.value) {
            if fallthrough {
              ok := DuplicateWithRules(i + 1, renamed.value);
              return;
            } else {
              break;
            }
          } else {
            ok := vfs.Copy(file, renamed.value);
            return;
          }
        }
        i := i + 1;
      }
      if i >= |rules| {
        AllDecline(rules, vfs.files, fallthrough, idx, file);
      }
      ok := false;
    }

    /** `duplicate`: the scan from the first rule. */
    method Duplicate(file: string) returns (ok: bool)
        modifies vfs
      ensures var o := Scan(rules, old(vfs.files), fallthrough, 0, file);
              ok == o.Copy? &&
              vfs.files == (if o.Copy? then old(vfs.files) + {o.dst} else old(vfs.files)) &&
              vfs.copies == old(vfs.copies) + (if o.Copy? then [Vfs.CopyCall(o.src, o.dst)] else [])
    {
      ok := DuplicateWithRules(0, file);
    }
  }
}
