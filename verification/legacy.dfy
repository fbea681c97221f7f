/** The earlier, self-contained duplicator of src/lib.rs. Its rules and its
    in-memory file system behave as those of src/dp (the `Rules` and `Vfs`
    modules), but its scan has no fallthrough policy: a proposed name that
    already exists is skipped, and the next rule is tried on the ORIGINAL
    input. */
module Legacy {

  import opened Wrappers
  import Vfs
  import Engine

  /** The outcome of `duplicate(file)` from rule `idx` on: the first rule
      whose proposal for `file` is a free name decides, and the copy is made
      from `file` itself. */
  function Scan(rules: seq<Engine.Proposer>, files: set<string>, idx: nat, file: string): (o: Engine.Outcome)
    ensures o.Copy? ==> o.src == file && o.dst !in files
    decreases |rules| - idx
  {
    if idx >= |rules| then Engine.NoCopy
    else match rules[idx](file)
      case Some(c) => if c in files then Scan(rules, files, idx + 1, file) else Engine.Copy(file, c)
      case None => Scan(rules, files, idx + 1, file)
  }

  /** A copy made by the legacy scan is from `file` itself (never from a
      proposed name), to a free name that some rule from `idx` on proposed
      for `file`. */
  lemma {:induction false} ScanCopy(rules: seq<Engine.Proposer>, files: set<string>, idx: nat, file: string)
    requires Scan(rules, files, idx, file).Copy?
    ensures Scan(rules, files, idx, file).src == file
    ensures Scan(rules, files, idx, file).dst !in files
    ensures exists k :: idx <= k < |rules| && rules[k](file) == Some(Scan(rules, files, idx, file).dst)
    decreases |rules| - idx
  {
    var a := rules[idx](file);
    if a.None? || a.value in files {
      ScanCopy(rules, files, idx + 1, file);
    }
  }

  /** Nothing is copied exactly when every rule from `idx` on declines or
      proposes a name that exists. */
  lemma {:induction false} ScanNoCopy(rules: seq<Engine.Proposer>, files: set<string>, idx: nat, file: string)
    ensures Scan(rules, files, idx, file).NoCopy? <==>
            forall k :: idx <= k < |rules| ==> rules[k](file).None? || rules[k](file).value in files
    decreases |rules| - idx
  {
    if idx < |rules| {
      ScanNoCopy(rules, files, idx + 1, file);
    }
  }

  /** The first rule from `idx` on whose proposal is free decides; the rules
      before it declined or collided, and a collision is skipped with the
      input unchanged. */
  lemma {:induction false} FirstFreeDecides(rules: seq<Engine.Proposer>, files: set<string>, idx: nat, file: string, i: nat, c: string)
    requires idx <= i < |rules| && rules[i](file) == Some(c) && c !in files
    requires forall k :: idx <= k < i ==> rules[k](file).None? || rules[k](file).value in files
    ensures Scan(rules, files, idx, file) == Engine.Copy(file, c)
    decreases i - idx
  {
    if idx < i {
      assert Scan(rules, files, idx, file) == Scan(rules, files, idx + 1, file);
      FirstFreeDecides(rules, files, idx + 1, file, i, c);
    }
  }

  /** The two engines agree, in either fallthrough mode, whenever the first
      name proposed from `idx` on does not collide (in particular when no
      proposed name collides). */
  lemma AgreesWithoutCollision(rules: seq<Engine.Proposer>, files: set<string>, fallthrough: bool, idx: nat, file: string)
    requires Engine.FirstMatch(rules, idx, file).Some? ==> Engine.FirstMatch(rules, idx, file).value.name !in files
    ensures Scan(rules, files, idx, file) == Engine.Scan(rules, files, fallthrough, idx, file)
  {
    var m := Engine.FirstMatch(rules, idx, file);
    if m.Some? {
      FirstFreeDecides(rules, files, idx, file, m.value.index, m.value.name);
    } else {
      ScanNoCopy(rules, files, idx, file);
    }
  }

  class Duplicator {
    const rules: seq<Engine.Proposer>
    const vfs: Vfs.TestFileSystem

    /** `Duplicator::new` */
    constructor (rules: seq<Engine.Proposer>, vfs: Vfs.TestFileSystem)
      ensures this.rules == rules && this.vfs == vfs
    {
      this.rules := rules;
      this.vfs := vfs;
    }

    /** `duplicate`: reports whether a copy happened, and makes exactly the
        copy `Scan` describes (at most one `copy` call, always from `file`). */
    method Duplicate(file: string) returns (ok: bool)
        modifies vfs
      ensures var o := Scan(rules, old(vfs.files), 0, file);
              ok == o.Copy? &&
              vfs.files == (if o.Copy? then old(vfs.files) + {o.dst} else old(vfs.files)) &&
              vfs.copies == old(vfs.copies) + (if o.Copy? then [Vfs.CopyCall(o.src, o.dst)] else [])
    {
      for i := 0 to |rules|
        invariant Scan(rules, vfs.files, i, file) == Scan(rules, old(vfs.files), 0, file)
        invariant vfs.files == old(vfs.files) && vfs.copies == old(vfs.copies)
      {
        var renamed := rules[i](file);
        if renamed.Some? {
          if vfs.Exists(renamed.value) {
            continue;
          } else {
            ok := vfs.Copy(file, renamed.value);
            return;
          }
        }
      }
      ok := false;
    }
  }
}
