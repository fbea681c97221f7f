/** The in-memory file system of src/dp/vfs.rs (`TestFileSystem`): a set of
    path strings that `copy` registers new names in. Path decomposition
    (`filename`, `parent`) splits a path at its last '/'. */
module Vfs {

  import opened Wrappers

  /** One call of `copy`, as the engine issued it. */
  datatype CopyCall = CopyCall(src: string, dst: string)

  class TestFileSystem {
    /** The paths known to exist. */
    var files: set<string>
    /** Every call of `Copy` made so far, in order (used to count copies). */
    ghost var copies: seq<CopyCall>

    /** `TestFileSystem::new`: the known paths are the given names. */
    constructor (names: seq<string>)
      ensures files == set n | n in names
      ensures copies == []
    {
      files := set n | n in names;
      copies := [];
    }

    /** `get_files`: every known path exactly once, in no particular order. */
    method GetFiles() returns (names: seq<string>)
      ensures forall n :: n in names <==> n in files
      ensures forall i, j :: 0 <= i < j < |names| ==> names[i] != names[j]
    {
      names := [];
      var rest := files;
      while rest != {}
        invariant rest <= files
        invariant forall n :: n in names <==> n in files && n !in rest
        invariant forall i, j :: 0 <= i < j < |names| ==> names[i] != names[j]
        decreases rest
      {
        var n :| n in rest;
        names := names + [n];
        rest := rest - {n};
      }
    }

    /** `exists`: membership in the set of known paths. */
    function Exists(path: string): (r: bool)
      reads this
      ensures r <==> path in files
    {
      path in files
    }

    /** `copy`: registers the destination and reports success; the source
        is not consulted. Copying onto a known name changes nothing. */
    method Copy(path: string, newPath: string) returns (ok: bool)
      modifies this
      ensures ok
      ensures files == old(files) + {newPath}
      ensures newPath in old(files) ==> files == old(files)
      ensures copies == old(copies) + [CopyCall(path, newPath)]
    {
      files := files + {newPath};
      copies := copies + [CopyCall(path, newPath)];
      ok := true;
    }
  }

  /** The position of the last '/' of `path` below `n` (`str::rfind`). */
  function SlashBefore(path: string, n: nat): (r: Option<nat>)
    requires n <= |path|
    ensures r.Some? ==> r.value < n && path[r.value] == '/' && '/' !in path[r.value + 1..n]
    ensures r.None? <==> '/' !in path[..n]
  {
    if n == 0 then None
    else if path[n - 1] == '/' then Some(n - 1)
    else
      assert path[..n] == path[..n - 1] + [path[n - 1]];
      var r := SlashBefore(path, n - 1);
      if r.Some? then
        assert path[r.value + 1..n] == path[r.value + 1..n - 1] + [path[n - 1]];
        r
      else r
  }

  /** `filename`: the text after the last '/', or the whole path when it has
      none. The result never contains '/' and ends the path. */
  function Filename(path: string): (r: string)
    ensures '/' !in r
    ensures |r| <= |path| && r == path[|path| - |r|..]
    ensures '/' !in path ==> r == path
  {
    match SlashBefore(path, |path|)
    case Some(pos) => path[pos + 1..]
    case None => assert path[..|path|] == path; path
  }

  /** `parent`: the text before the last '/', or "" when there is none. */
  function Parent(path: string): (r: string)
    ensures |r| < |path| ==> r == path[..|r|]
    ensures '/' !in path ==> r == ""
    ensures '/' in path ==> |r| < |path| && path[|r|] == '/'
  {
    match SlashBefore(path, |path|)
    case Some(pos) => path[..pos]
    case None => assert path[..|path|] == path; ""
  }

  /** A path with a '/' is its parent, a '/', and its file name. */
  lemma ParentSlashFilename(path: string)
    requires '/' in path
    ensures Parent(path) + "/" + Filename(path) == path
  {
    assert path[..|path|] == path;
    var pos := SlashBefore(path, |path|).value;
    assert path == path[..pos] + [path[pos]] + path[pos + 1..];
  }

  /** The last '/' of the unit tests' path is the one before "hello.txt". */
  lemma ExamplePathSlash()
    ensures SlashBefore("/foo/bar/hello.txt", 18) == Some(8)
  {
    var p := "/foo/bar/hello.txt";
    assert p[..|p|][8] == '/';
    assert SlashBefore(p, |p|).value == 8 by {
      assert '/' !in p[9..];
    }
  }

  /** The unit tests' cases for a path with directories. */
  lemma PathExamples()
    ensures Filename("/foo/bar/hello.txt") == "hello.txt"
    ensures Parent("/foo/bar/hello.txt") == "/foo/bar"
  {
    ExamplePathSlash();
  }

  /** The unit tests' cases for a bare file name. */
  lemma BareNameExamples()
    ensures Filename("hello.txt") == "hello.txt"
    ensures Parent("hello.txt") == ""
  {
    assert '/' !in "hello.txt";
  }
}
