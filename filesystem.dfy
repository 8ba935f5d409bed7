/**
  `os_file_exists` and `os_mkdir` of libobs/util/platform-windows.c as
  mappings from the outcomes of the calls they make to what they return.
  The UTF-8 to UTF-16 conversion is an abstract success flag; `FindFirstFileW`
  and `CreateDirectory` are abstract results.
 */
module Filesystem {
  import opened WinTypes

  /** The tri-state result of `os_mkdir`: `MKDIR_SUCCESS`, `MKDIR_EXISTS`, `MKDIR_ERROR`. */
  datatype MkdirResult = MkdirSuccess | MkdirExists | MkdirError

  /** The Win32 error code `ERROR_ALREADY_EXISTS`. */
  const ERROR_ALREADY_EXISTS: uint32 := 183

  /**
    `os_mkdir`: an error when the path does not convert; otherwise success when
    `CreateDirectory` succeeds, "exists" when it fails with
    `ERROR_ALREADY_EXISTS`, and an error for any other failure.
   */
  function MkDir(converted: bool, created: bool, lastError: uint32): (r: MkdirResult)
    ensures r == MkdirSuccess <==> converted && created
    ensures r == MkdirExists <==> converted && !created && lastError == ERROR_ALREADY_EXISTS
    ensures r == MkdirError <==> !converted || (!created && lastError != ERROR_ALREADY_EXISTS)
  {
    if !converted then MkdirError
    else if !created then (if lastError == ERROR_ALREADY_EXISTS then MkdirExists else MkdirError)
    else MkdirSuccess
  }

  /** What `os_file_exists` does: whether it searched, what it returns, whether it closed the handle. */
  datatype FileExistsOutcome = FileExistsOutcome(searched: bool, found: bool, closedHandle: bool)

  /**
    `os_file_exists`: false without a search when the path does not convert;
    otherwise true exactly when `FindFirstFileW` gives a valid handle, which is
    then closed.
   */
  function FileExists(converted: bool, handleValid: bool): (o: FileExistsOutcome)
    ensures o.searched == converted
    ensures o.found <==> converted && handleValid
    ensures o.closedHandle <==> converted && handleValid
  {
    if !converted then FileExistsOutcome(false, false, false)
    else FileExistsOutcome(true, handleValid, handleValid)
  }

  /**
    An idealised file system, used only to state what the two operations
    promise together: `CreateDirectory` fails with `ERROR_ALREADY_EXISTS` on a
    present entry and adds the entry otherwise; `FindFirstFileW` finds present
    entries. Parents, permissions and other failures are not modelled.
   */
  datatype FsState = FsState(entries: set<string>)

  datatype CreateOutcome = CreateOutcome(created: bool, lastError: uint32, after: FsState)

  function CreateDirectoryIn(fs: FsState, path: string): (c: CreateOutcome)
    ensures path in c.after.entries
    ensures c.created <==> path !in fs.entries
  {
    if path in fs.entries then CreateOutcome(false, ERROR_ALREADY_EXISTS, fs)
    else CreateOutcome(true, 0, FsState(fs.entries + {path}))
  }

  /** `os_mkdir` on the idealised file system, for a path that converts. */
  function MkDirIn(fs: FsState, path: string): (res: (MkdirResult, FsState))
    ensures path in res.1.entries
  {
    var c := CreateDirectoryIn(fs, path);
    (MkDir(true, c.created, c.lastError), c.after)
  }

  /**
    Creating a directory twice gives success and then "exists", never an
    error, and afterwards `os_file_exists` reports the path.
   */
  lemma MkDirTwiceThenExists(fs: FsState, path: string)
    requires path !in fs.entries
    ensures var (first, fs1) := MkDirIn(fs, path);
            var (second, fs2) := MkDirIn(fs1, path);
            && first == MkdirSuccess
            && second == MkdirExists
            && FileExists(true, path in fs2.entries).found
  {
  }

  /**
    On the idealised file system a find handle is released exactly when the
    path is present: a search for a present path finds it and closes its
    handle, and a search for an absent one closes nothing.
   */
  lemma FindHandleClosedIffPresent(fs: FsState, path: string)
    ensures var o := FileExists(true, path in fs.entries);
            o.searched && (o.closedHandle <==> path in fs.entries) && (o.found <==> path in fs.entries)
  {
  }

  /** Once `os_mkdir` returns success or "exists", `os_file_exists` finds the path. */
  lemma ExistsAfterMkDir(fs: FsState, path: string)
    ensures var (r, fs1) := MkDirIn(fs, path);
            r != MkdirError && FileExists(true, path in fs1.entries).found
  {
  }
}
