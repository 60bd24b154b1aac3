/** `os::copyfile` on POSIX: three guard checks on the two paths, then the
    external `cp` command, whose wait status decides the outcome.

    The file system enters as the set of paths that are existing
    directories (`stat::isdir`), and `os::spawn` as a function from the
    argument vector to the wait status it would report. */
module PosixCopyFile {
  import opened Wrappers

  /** The errors `os::copyfile` returns, one per `return Error` site. */
  datatype CopyError =
    | DirectoryPath(source: string, destination: string)  // either path is, or looks like, a directory
    | RelativePath(source: string, destination: string)   // either path is relative
    | SpawnFailed(source: string, destination: string)    // `os::spawn` itself returned -1
    | BadExit(source: string, status: int)                // `cp` ran but did not exit with 0

  /** `path::absolute` on POSIX: the path starts at the root. */
  predicate IsAbsolute(path: string)
  {
    |path| > 0 && path[0] == '/'
  }

  /** `WIFEXITED(status)`: the low seven bits (the terminating signal) are
      zero. Dafny's `%` is Euclidean, so for a power of two it agrees with
      masking the two's-complement value. */
  predicate WIfExited(status: int)
    // the -1 of a failed spawn is not a normal exit
    ensures status == -1 ==> !WIfExited(status)
  {
    status % 0x80 == 0
  }

  /** `WEXITSTATUS(status)`: bits 8 to 15 of the wait status. */
  function WExitStatus(status: int): (code: int)
    ensures 0 <= code < 0x100
    ensures 0 <= status < 0x10000 ==> code == status / 0x100
  {
    (status / 0x100) % 0x100
  }

  /** The last character is a slash, which names a directory. */
  predicate EndsInSlash(path: string)
    requires path != []
  {
    path[|path| - 1] == '/'
  }

  /** All three guards of `os::copyfile` pass. */
  predicate GuardsPass(source: string, destination: string, dirs: set<string>)
    requires source != [] && destination != []
  {
    && source !in dirs && destination !in dirs
    && !EndsInSlash(source) && !EndsInSlash(destination)
    && IsAbsolute(source) && IsAbsolute(destination)
  }

  /** The argument vector handed to `os::spawn`. */
  function CopyCommand(source: string, destination: string): seq<string>
  {
    ["cp", source, destination]
  }

  /** `os::copyfile(source, destination)`. Both paths must be non-empty:
      the source reads their last character. */
  function CopyFile(source: string, destination: string, dirs: set<string>,
                    spawn: seq<string> -> int): (r: Outcome<CopyError>)
    requires source != [] && destination != []
    // an existing directory on either side is refused
    ensures source in dirs || destination in dirs ==> r == Fail(DirectoryPath(source, destination))
    // so is a trailing slash, even when no such directory exists
    ensures EndsInSlash(source) || EndsInSlash(destination) ==> r == Fail(DirectoryPath(source, destination))
    // a relative path on either side is refused, by the third guard if the first two passed
    ensures !IsAbsolute(source) || !IsAbsolute(destination) ==> r.Fail? && !r.error.SpawnFailed? && !r.error.BadExit?
    ensures (&& source !in dirs && destination !in dirs
             && !EndsInSlash(source) && !EndsInSlash(destination)
             && (!IsAbsolute(source) || !IsAbsolute(destination)))
            ==> r == Fail(RelativePath(source, destination))
    // once the guards pass, a spawn status of -1 is a spawn error
    ensures GuardsPass(source, destination, dirs) && spawn(CopyCommand(source, destination)) == -1 ==>
      r == Fail(SpawnFailed(source, destination))
    // success only when every guard passed and `cp` exited normally with status 0
    ensures r.Pass? <==>
      GuardsPass(source, destination, dirs) && spawn(CopyCommand(source, destination)) % 0x10000 in {0, 0x80}
    ensures r.Fail? && r.error.BadExit? ==>
      GuardsPass(source, destination, dirs) && r.error.status == spawn(CopyCommand(source, destination)) != -1
    // every other status after the guards is an exit error carrying that status
    ensures GuardsPass(source, destination, dirs) && spawn(CopyCommand(source, destination)) != -1
            && spawn(CopyCommand(source, destination)) % 0x10000 !in {0, 0x80}
            ==> r == Fail(BadExit(source, spawn(CopyCommand(source, destination))))
  {
    if source in dirs || destination in dirs then
      Fail(DirectoryPath(source, destination))
    else if EndsInSlash(source) || EndsInSlash(destination) then
      Fail(DirectoryPath(source, destination))
    else if !IsAbsolute(source) || !IsAbsolute(destination) then
      Fail(RelativePath(source, destination))
    else
      var status := spawn(CopyCommand(source, destination));
      ExitStatusIsZero(status);
      if status == -1 then
        Fail(SpawnFailed(source, destination))
      else if !(WIfExited(status) && WExitStatus(status) == 0) then
        Fail(BadExit(source, status))
      else
        Pass
  }

  /** The wait-status test passes exactly for statuses whose low sixteen
      bits are zero apart from the core-dump flag (0x80), which `WIFEXITED`
      does not look at; -1 is never among them. */
  lemma ExitStatusIsZero(status: int)
    ensures WIfExited(status) && WExitStatus(status) == 0 <==> status % 0x10000 in {0, 0x80}
    ensures status == -1 ==> !(WIfExited(status) && WExitStatus(status) == 0)
  {
    var q := status / 0x10000;
    var m := status % 0x10000;
    assert status == q * 0x10000 + m;
    assert status / 0x100 == q * 0x100 + m / 0x100;
    assert (status / 0x100) % 0x100 == (m / 0x100) % 0x100;
    assert status % 0x80 == m % 0x80;
  }

  /** Whenever a guard fails, `cp` is never consulted: the outcome is the
      same whatever the spawned command would have reported. */
  lemma GuardFailureSkipsSpawn(source: string, destination: string, dirs: set<string>,
                               spawn1: seq<string> -> int, spawn2: seq<string> -> int)
    requires source != [] && destination != []
    requires !GuardsPass(source, destination, dirs)
    ensures CopyFile(source, destination, dirs, spawn1) == CopyFile(source, destination, dirs, spawn2)
    ensures CopyFile(source, destination, dirs, spawn1).Fail?
  {
  }

  /** Once every guard has passed, the outcome depends on the status of
      `cp source destination` and on nothing else that `spawn` might do. */
  lemma OutcomeDependsOnlyOnCopyCommand(source: string, destination: string, dirs: set<string>,
                                        spawn1: seq<string> -> int, spawn2: seq<string> -> int)
    requires source != [] && destination != []
    requires spawn1(CopyCommand(source, destination)) == spawn2(CopyCommand(source, destination))
    ensures CopyFile(source, destination, dirs, spawn1) == CopyFile(source, destination, dirs, spawn2)
  {
  }

  /** The four scenarios of the unit tests: a plain copy succeeds when `cp`
      exits with 0, and a directory destination, a destination ending in a
      slash and a relative destination are refused. */
  lemma UnitTestCases(spawn: seq<string> -> int)
    requires spawn(CopyCommand("/tmp/source-file", "/tmp/dest-file")) == 0
    ensures CopyFile("/tmp/source-file", "/tmp/dest-file", {"/tmp"}, spawn) == Pass
    ensures CopyFile("/tmp/source-file", "/tmp/dest-dir", {"/tmp", "/tmp/dest-dir"}, spawn).Fail?
    ensures CopyFile("/tmp/source-file", "/tmp/dest-file/", {"/tmp"}, spawn).Fail?
    ensures CopyFile("/tmp/source-file", "dest-file", {"/tmp"}, spawn).Fail?
  {
  }
}
