/** Making the SQLite extension libraries loadable: on Windows the extensions directory is
    added to the process's PATH, once. */
module LoadSqliteExtensions {
  import opened Wrappers
  import opened Sequences
  import opened Strings

  /** `Path.PathSeparator` on Windows, the only platform that reaches the PATH update. */
  const PathSeparator: char := ';'

  const NotWindowsMessage: string :=
    "Modifying the path at runtime only works on Windows. On Linux and Mac, set LD_LIBRARY_PATH or DYLD_LIBRARY_PATH before running the app."

  /** The directories a PATH value lists, empty entries included. */
  function PathEntries(path: string): set<string>
  {
    set p | p in Split(path, [PathSeparator])
  }

  /** The elements of `s` in the order of their first occurrence: the order in which a hash
      set built from `s` enumerates them when nothing has been removed from it. */
  function Distinct(s: seq<string>): (r: seq<string>)
    ensures NoDuplicates(r)
    ensures forall x :: x in r <==> x in s
    decreases |s|
  {
    if s == [] then []
    else
      var init := Distinct(s[..|s| - 1]);
      assert forall x :: x in s <==> x in s[..|s| - 1] || x == s[|s| - 1];
      if s[|s| - 1] in init then init else init + [s[|s| - 1]]
  }

  /** The separator never occurs inside an entry. */
  lemma EntriesFree(path: string)
    ensures forall p :: p in Split(path, [PathSeparator]) ==> PathSeparator !in p
  {
    SplitPiecesFree(path, [PathSeparator]);
    forall p | p in Split(path, [PathSeparator])
      ensures PathSeparator !in p
    {
      if PathSeparator in p {
        var j :| 0 <= j < |p| && p[j] == PathSeparator;
        OccursAtChar(p, PathSeparator, j);
      }
    }
  }

  /** The value written when the directory is new: the distinct entries, in order, then the
      directory. */
  function ExtendedPath(path: string, directory: string): string
  {
    Join(Distinct(Split(path, [PathSeparator])) + [directory], [PathSeparator])
  }

  /** The written PATH lists exactly the old entries and the new directory, each once, with
      the directory last; a directory holding the separator would be split into pieces. */
  lemma ExtendedPathEntries(path: string, directory: string)
    requires PathSeparator !in directory && directory !in PathEntries(path)
    ensures PathEntries(ExtendedPath(path, directory)) == PathEntries(path) + {directory}
    ensures NoDuplicates(Split(ExtendedPath(path, directory), [PathSeparator]))
    ensures var entries := Split(ExtendedPath(path, directory), [PathSeparator]); entries[|entries| - 1] == directory
  {
    var xs := Distinct(Split(path, [PathSeparator])) + [directory];
    EntriesFree(path);
    assert forall k :: 0 <= k < |xs| ==> PathSeparator !in xs[k] by {
      forall k | 0 <= k < |xs|
        ensures PathSeparator !in xs[k]
      {
        if k < |xs| - 1 {
          assert xs[k] in Split(path, [PathSeparator]);
        }
      }
    }
    SplitJoinChar(xs, PathSeparator);
    assert forall x :: x in xs <==> x in Split(path, [PathSeparator]) || x == directory;
  }

  /** The PATH variable of the process, and the reads and writes made to it. */
  datatype EnvEvent = PathRead | PathWritten(value: string)

  class ProcessEnvironment {
    var path: Option<string>
    var log: seq<EnvEvent>

    constructor (path: Option<string>)
      ensures this.path == path && log == []
    {
      this.path := path;
      log := [];
    }

    /** `Environment.GetEnvironmentVariable("PATH")`: null when the variable is not set. */
    method GetPath() returns (value: Option<string>)
      modifies this
      ensures value == path && path == old(path)
      ensures log == old(log) + [PathRead]
    {
      value := path;
      log := log + [PathRead];
    }

    /** `Environment.SetEnvironmentVariable("PATH", value)`. */
    method SetPath(value: string)
      modifies this
      ensures path == Some(value)
      ensures log == old(log) + [PathWritten(value)]
    {
      path := Some(value);
      log := log + [PathWritten(value)];
    }
  }

  /** `AddToSystemPath`. Off Windows it throws before touching PATH; an unset PATH makes the
      split throw a null reference; otherwise PATH is rewritten only when the directory is not
      yet one of its entries, and afterwards it is one. */
  method AddToSystemPath(env: ProcessEnvironment, isWindows: bool, extensionsDirectory: string) returns (outcome: Outcome)
    modifies env
    ensures !isWindows ==> outcome == Fail(NotSupported(NotWindowsMessage)) && env.path == old(env.path) && env.log == old(env.log)
    ensures isWindows && old(env.path).None? ==>
              outcome == Fail(NullReference) && env.path == old(env.path) && env.log == old(env.log) + [PathRead]
    ensures isWindows && old(env.path).Some? && extensionsDirectory in PathEntries(old(env.path).value) ==>
              outcome == Pass && env.path == old(env.path) && env.log == old(env.log) + [PathRead]
    ensures isWindows && old(env.path).Some? && extensionsDirectory !in PathEntries(old(env.path).value) ==>
              && outcome == Pass
              && env.path == Some(ExtendedPath(old(env.path).value, extensionsDirectory))
              && env.log == old(env.log) + [PathRead, PathWritten(env.path.value)]
    ensures isWindows && old(env.path).Some? && PathSeparator !in extensionsDirectory ==>
              && env.path.Some?
              && PathEntries(env.path.value) == PathEntries(old(env.path).value) + {extensionsDirectory}
  {
    if !isWindows {
      return Fail(NotSupported(NotWindowsMessage));
    }
    var value := env.GetPath();
    if value.None? {
      return Fail(NullReference);
    }
    var path := Distinct(Split(value.value, [PathSeparator]));
    if extensionsDirectory !in path {
      env.SetPath(Join(path + [extensionsDirectory], [PathSeparator]));
      if PathSeparator !in extensionsDirectory {
        ExtendedPathEntries(value.value, extensionsDirectory);
      }
    }
    outcome := Pass;
  }
}
