/** `os::mkdir` on Windows.

    The file system is a `FileSystem` object: the set of paths that exist,
    the log of `CreateDirectoryW` calls in the order they were made, and the
    paths whose creation the operating system refuses, with the Win32 error
    code it reports. The non-recursive mode creates one directory unless it
    already exists; the recursive mode strips the long-path prefix, splits the
    path on back-slashes and creates every cumulative prefix in turn,
    stopping at the first error. */
module WindowsMkdir {
  import opened Wrappers
  import opened Strings

  /** `os::PATH_SEPARATOR` on Windows. */
  const PathSeparator: char := '\\'

  /** `os::LONGPATH_PREFIX`, the text `\\?\`. */
  const LongPathPrefix: string := "\\\\?\\"

  /** `WindowsError()`: the Win32 error code `CreateDirectoryW` left behind. */
  datatype MkdirError = WindowsError(code: nat)

  /** The observable state of the file system: what exists and which
      creations were attempted. */
  datatype Disk = Disk(dirs: set<string>, attempts: seq<string>)

  /** The value of the local `path` after each round of the recursive loop:
      `t1\`, `t1\t2\`, ... — each the previous one plus the next token plus
      the separator. */
  function CumulativePaths(tokens: seq<string>): (paths: seq<string>)
    ensures |paths| == |tokens|
    ensures |tokens| > 0 ==> paths[0] == tokens[0] + [PathSeparator]
    ensures forall i :: 0 < i < |tokens| ==> paths[i] == paths[i - 1] + tokens[i] + [PathSeparator]
  {
    if tokens == [] then []
    else
      var earlier := CumulativePaths(tokens[..|tokens| - 1]);
      var last := if |earlier| == 0 then [] else earlier[|earlier| - 1];
      var paths := earlier + [last + tokens[|tokens| - 1] + [PathSeparator]];
      assert forall i :: 0 <= i < |earlier| ==> paths[i] == earlier[i] && tokens[..|tokens| - 1][i] == tokens[i];
      paths
  }

  /** The prefixes the recursive mode creates for `directory`. */
  function RecursivePaths(directory: string): seq<string>
  {
    CumulativePaths(Tokenize(RemovePrefix(directory, LongPathPrefix), PathSeparator))
  }

  /** `mkdir(path, false)` on a disk: success without any call when the path
      exists, otherwise one `CreateDirectoryW` call that either creates the
      path or fails with the code the system reports. */
  function CreateOne(d: Disk, path: string, refused: map<string, nat>): (Outcome<MkdirError>, Disk)
  {
    if path in d.dirs then (Pass, d)
    else if path in refused then (Fail(WindowsError(refused[path])), Disk(d.dirs, d.attempts + [path]))
    else (Pass, Disk(d.dirs + {path}, d.attempts + [path]))
  }

  /** The recursive loop over `paths`: create each in order and return the
      first error. */
  function CreateAll(paths: seq<string>, d: Disk, refused: map<string, nat>): (Outcome<MkdirError>, Disk)
    decreases |paths|
  {
    if paths == [] then (Pass, d)
    else
      var (result, d') := CreateOne(d, paths[0], refused);
      if result.Fail? then (result, d') else CreateAll(paths[1..], d', refused)
  }

  /** The file system `os::mkdir` works on. */
  class FileSystem {
    var dirs: set<string>
    var attempts: seq<string>
    const refused: map<string, nat>

    constructor (dirs: set<string>, refused: map<string, nat>)
      ensures this.dirs == dirs && this.attempts == [] && this.refused == refused
    {
      this.dirs := dirs;
      this.attempts := [];
      this.refused := refused;
    }

    function State(): Disk
      reads this
    {
      Disk(dirs, attempts)
    }

    /** `os::exists(path)`. */
    predicate Exists(path: string)
      reads this
    {
      path in dirs
    }

    /** `::CreateDirectoryW(path)`: logs the call, and creates the path
        unless it exists already (`ERROR_ALREADY_EXISTS`, 183) or the system
        refuses it. */
    method CreateDirectory(path: string) returns (r: Outcome<MkdirError>)
      modifies this
      ensures attempts == old(attempts) + [path]
      ensures path in old(dirs) ==> r == Fail(WindowsError(183)) && dirs == old(dirs)
      ensures path !in old(dirs) && path in refused ==> r == Fail(WindowsError(refused[path])) && dirs == old(dirs)
      ensures path !in old(dirs) && path !in refused ==> r == Pass && dirs == old(dirs) + {path}
    {
      attempts := attempts + [path];
      if path in dirs {
        r := Fail(WindowsError(183));
      } else if path in refused {
        r := Fail(WindowsError(refused[path]));
      } else {
        dirs := dirs + {path};
        r := Pass;
      }
    }
  }

  /** `os::mkdir(directory, recursive)`. */
  method Mkdir(fs: FileSystem, directory: string, recursive: bool) returns (r: Outcome<MkdirError>)
    modifies fs
    decreases recursive
    ensures !recursive ==> (r, fs.State()) == CreateOne(old(fs.State()), directory, fs.refused)
    ensures recursive ==> (r, fs.State()) == CreateAll(RecursivePaths(directory), old(fs.State()), fs.refused)
  {
    if !recursive {
      if fs.Exists(directory) {
        return Pass;
      }
      r := fs.CreateDirectory(directory);
      if r.Fail? {
        return r;
      }
    } else {
      var tokens := Tokenize(RemovePrefix(directory, LongPathPrefix), PathSeparator);
      ghost var paths := CumulativePaths(tokens);
      var path := "";
      var i := 0;
      while i < |tokens|
        invariant 0 <= i <= |tokens|
        invariant path == if i == 0 then [] else paths[i - 1]
        invariant CreateAll(paths, old(fs.State()), fs.refused) == CreateAll(paths[i..], fs.State(), fs.refused)
      {
        path := path + tokens[i] + [PathSeparator];
        assert path == paths[i] by {
          if i == 0 {
            assert path == tokens[0] + [PathSeparator];
          }
        }
        var result := Mkdir(fs, path, false);
        if result.Fail? {
          return result;
        }
        i := i + 1;
      }
    }
    return Pass;
  }

  /** Non-recursive mode on an existing path: success, and the disk is left
      exactly as it was (no call is made). */
  lemma ExistingPathIsNoOp(d: Disk, path: string, refused: map<string, nat>)
    requires path in d.dirs
    ensures CreateOne(d, path, refused) == (Pass, d)
  {
  }

  /** Non-recursive mode on a missing path: exactly one creation is
      attempted, and its refusal is returned as the error. */
  lemma MissingPathOneAttempt(d: Disk, path: string, refused: map<string, nat>)
    requires path !in d.dirs
    ensures CreateOne(d, path, refused).1.attempts == d.attempts + [path]
    ensures CreateOne(d, path, refused).0 == if path in refused then Fail(WindowsError(refused[path])) else Pass
    ensures CreateOne(d, path, refused).0.Pass? <==> path in CreateOne(d, path, refused).1.dirs
  {
  }

  /** When the recursive loop succeeds, every prefix exists afterwards and
      nothing else was created. */
  lemma {:induction false} SuccessCreatesEveryPath(paths: seq<string>, d: Disk, refused: map<string, nat>)
    requires CreateAll(paths, d, refused).0.Pass?
    ensures CreateAll(paths, d, refused).1.dirs == d.dirs + Members(paths)
  {
    if paths != [] {
      var (result, d') := CreateOne(d, paths[0], refused);
      assert d'.dirs == d.dirs + {paths[0]};
      SuccessCreatesEveryPath(paths[1..], d', refused);
      assert Members(paths) == {paths[0]} + Members(paths[1..]);
    }
  }

  /** When every prefix exists already, the loop succeeds and attempts
      nothing: after a successful run, running it again creates nothing new. */
  lemma {:induction false} AllExistingIsNoOp(paths: seq<string>, d: Disk, refused: map<string, nat>)
    requires forall p :: p in paths ==> p in d.dirs
    ensures CreateAll(paths, d, refused) == (Pass, d)
  {
    if paths != [] {
      AllExistingIsNoOp(paths[1..], d, refused);
    }
  }

  /** Recursive mode is idempotent: a second run after a successful one
      returns success and leaves the disk unchanged. */
  lemma RerunAfterSuccessIsNoOp(paths: seq<string>, d: Disk, refused: map<string, nat>)
    requires CreateAll(paths, d, refused).0.Pass?
    ensures var d' := CreateAll(paths, d, refused).1; CreateAll(paths, d', refused) == (Pass, d')
  {
    SuccessCreatesEveryPath(paths, d, refused);
    AllExistingIsNoOp(paths, CreateAll(paths, d, refused).1, refused);
  }

  /** The set of strings a sequence holds. */
  function Members(ps: seq<string>): set<string>
  {
    set p | p in ps
  }

  /** The index of the prefix whose creation made the loop fail. */
  function FailedAt(paths: seq<string>, d: Disk, refused: map<string, nat>): (k: nat)
    requires CreateAll(paths, d, refused).0.Fail?
    ensures k < |paths|
    decreases |paths|
  {
    var (first, d1) := CreateOne(d, paths[0], refused);
    if first.Fail? then 0 else 1 + FailedAt(paths[1..], d1, refused)
  }

  /** When the loop fails at `paths[k]`, that prefix did not exist, was
      refused, and its error is the one returned; every earlier prefix
      existed by the time it was reached or was not refused, so `paths[k]`
      is the first refusal; only the prefixes before it were created. */
  lemma {:induction false} FailureIsFirstRefusal(paths: seq<string>, d: Disk, refused: map<string, nat>)
    requires CreateAll(paths, d, refused).0.Fail?
    ensures var k := FailedAt(paths, d, refused);
            var (result, d') := CreateAll(paths, d, refused);
      && paths[k] !in d'.dirs && paths[k] in refused
      && result == Fail(WindowsError(refused[paths[k]]))
      && d'.dirs == d.dirs + Members(paths[..k])
      && forall j :: 0 <= j < k ==> paths[j] in d.dirs + Members(paths[..j]) || paths[j] !in refused
  {
    var (first, d1) := CreateOne(d, paths[0], refused);
    if first.Pass? {
      FailureIsFirstRefusal(paths[1..], d1, refused);
      var k := FailedAt(paths[1..], d1, refused);
      assert paths[..k + 1] == [paths[0]] + paths[1..][..k];
      assert Members(paths[..k + 1]) == {paths[0]} + Members(paths[1..][..k]);
    } else {
      assert paths[..0] == [];
    }
    EarlierPrefixesPassed(paths, d, refused);
  }

  /** Every prefix before the failing one existed by the time the loop
      reached it, or was not refused. */
  lemma {:induction false} EarlierPrefixesPassed(paths: seq<string>, d: Disk, refused: map<string, nat>)
    requires CreateAll(paths, d, refused).0.Fail?
    ensures var k := FailedAt(paths, d, refused);
      forall j :: 0 <= j < k ==> paths[j] in d.dirs + Members(paths[..j]) || paths[j] !in refused
  {
    var (first, d1) := CreateOne(d, paths[0], refused);
    if first.Pass? {
      EarlierPrefixesPassed(paths[1..], d1, refused);
      var k := FailedAt(paths[1..], d1, refused);
      assert d1.dirs <= d.dirs + {paths[0]};
      forall j | 0 < j < k + 1
        ensures paths[j] in d.dirs + Members(paths[..j]) || paths[j] !in refused
      {
        assert paths[j] == paths[1..][j - 1];
        assert paths[..j] == [paths[0]] + paths[1..][..j - 1];
        assert Members(paths[..j]) == {paths[0]} + Members(paths[1..][..j - 1]);
      }
    }
  }

  /** When the loop fails at `paths[k]`, that was the last creation
      attempted, and every attempt the run made was for one of
      `paths[0..k]`: no later prefix was attempted. */
  lemma {:induction false} FailureAttemptsNothingLater(paths: seq<string>, d: Disk, refused: map<string, nat>)
    requires CreateAll(paths, d, refused).0.Fail?
    ensures var k := FailedAt(paths, d, refused);
            var d' := CreateAll(paths, d, refused).1;
      && d.attempts < d'.attempts
      && d'.attempts[|d'.attempts| - 1] == paths[k]
      && forall j :: |d.attempts| <= j < |d'.attempts| ==> d'.attempts[j] in paths[..k + 1]
  {
    var (first, d1) := CreateOne(d, paths[0], refused);
    if first.Pass? {
      FailureAttemptsNothingLater(paths[1..], d1, refused);
      var k := FailedAt(paths[1..], d1, refused);
      assert paths[..k + 2] == [paths[0]] + paths[1..][..k + 1];
    } else {
      assert paths[..1] == [paths[0]];
    }
  }

  /** The long-path prefix is stripped before tokenizing. */
  lemma LongPathPrefixIgnored(directory: string)
    requires !(LongPathPrefix <= directory)
    ensures RecursivePaths(LongPathPrefix + directory) == RecursivePaths(directory)
  {
    assert (LongPathPrefix + directory)[|LongPathPrefix|..] == directory;
  }

  /** Tokenizing a drive path splits at each back-slash. */
  lemma TokenizeDrivePath()
    ensures Tokenize("C:\\t1\\t2", PathSeparator) == ["C:", "t1", "t2"]
  {
    var parts := ["C:", "t1", "t2"];
    assert Join(parts, PathSeparator) == "C:\\t1\\t2" by {
      assert Join(parts[2..], PathSeparator) == "t2";
      assert Join(parts[1..], PathSeparator) == "t1" + [PathSeparator] + "t2";
    }
    TokenizeJoin(parts, PathSeparator);
  }

  /** The cumulative prefixes of the drive path's tokens. */
  lemma DrivePathPrefixes()
    ensures CumulativePaths(["C:", "t1", "t2"]) == ["C:\\", "C:\\t1\\", "C:\\t1\\t2\\"]
  {
    var paths := CumulativePaths(["C:", "t1", "t2"]);
    assert paths[0] == "C:" + [PathSeparator] == "C:\\";
    assert paths[1] == "C:\\" + "t1" + [PathSeparator] == "C:\\t1\\";
    assert paths[2] == "C:\\t1\\" + "t2" + [PathSeparator] == "C:\\t1\\t2\\";
    assert paths == [paths[0], paths[1], paths[2]];
  }

  /** The prefixes built for a drive path given in long-path form. */
  lemma LongDrivePathPrefixes()
    ensures RecursivePaths("\\\\?\\C:\\t1\\t2") == ["C:\\", "C:\\t1\\", "C:\\t1\\t2\\"]
  {
    var path := "C:\\t1\\t2";
    assert LongPathPrefix + path == "\\\\?\\C:\\t1\\t2";
    assert RemovePrefix(LongPathPrefix + path, LongPathPrefix) == path by {
      assert (LongPathPrefix + path)[|LongPathPrefix|..] == path;
    }
    TokenizeDrivePath();
    DrivePathPrefixes();
  }

  /** Tokenizing drops empty tokens, so a leading separator is lost: a
      root-relative path is created relative to the working directory. */
  lemma LeadingSeparatorDropped()
    ensures RecursivePaths("\\a") == ["a\\"]
  {
    var path := "\\a";
    assert !(LongPathPrefix <= path);
    assert path == [] + [PathSeparator] + "a";
    TokenizeSplits([], "a", PathSeparator);
    TokenizeEmpty(PathSeparator);
    TokenizeWithoutSeparator("a", PathSeparator);
    assert Tokenize(path, PathSeparator) == ["a"];
    var paths := CumulativePaths(["a"]);
    assert |paths| == 1 && paths[0] == "a" + [PathSeparator];
    assert "a" + [PathSeparator] == "a\\";
    assert paths == [paths[0]];
  }
}
