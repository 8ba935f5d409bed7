/**
  `os_dlopen` of libobs/util/platform-windows.c: the library name handed to
  the loader and what the caller gets back. The loader (`LoadLibraryW`) and
  the last error code are abstract inputs.
 */
module DynamicLibrary {
  import opened WinTypes

  /** An `HMODULE`: null, or some loaded module. */
  datatype Handle = Null | Module(id: nat)

  /** The diagnostic logged on a failed load: the caller's path and the native error code. */
  datatype LoadFailure = LoadFailure(path: string, error: uint32)

  /** What one `os_dlopen` call does: the name it asks for, its result and what it logs. */
  datatype DlOpenOutcome = DlOpenOutcome(requested: string, handle: Handle, logged: Option<LoadFailure>)

  const DLL_SUFFIX: string := ".dll"

  /** `dstr_init_copy` of the path followed by `dstr_cat` of ".dll". */
  function DllName(path: string): (name: string)
    ensures |name| == |path| + |DLL_SUFFIX|
    ensures name[..|path|] == path && name[|path|..] == DLL_SUFFIX
  {
    path + DLL_SUFFIX
  }

  /** The logical name back from a library file name that carries the suffix. */
  function StripDllSuffix(name: string): (path: Option<string>)
    ensures path.Some? <==> |name| >= |DLL_SUFFIX| && name[|name| - |DLL_SUFFIX|..] == DLL_SUFFIX
  {
    if |name| >= |DLL_SUFFIX| && name[|name| - |DLL_SUFFIX|..] == DLL_SUFFIX
    then Some(name[..|name| - |DLL_SUFFIX|])
    else None
  }

  /** The suffix is removable again: each logical name has its own library file name. */
  lemma DllNameRoundTrip(path: string)
    ensures StripDllSuffix(DllName(path)) == Some(path)
  {
    var name := DllName(path);
    assert name[|name| - |DLL_SUFFIX|..] == name[|path|..];
  }

  lemma DllNameInjective(a: string, b: string)
    ensures DllName(a) == DllName(b) ==> a == b
  {
    if DllName(a) == DllName(b) {
      DllNameRoundTrip(a);
      DllNameRoundTrip(b);
    }
  }

  /**
    `os_dlopen(path)`: asks the loader for `path` + ".dll" and hands its handle
    back unchanged; only a null handle is logged, with the path as given and
    the last error.
   */
  function DlOpen(path: string, loadLibrary: string -> Handle, lastError: uint32): (o: DlOpenOutcome)
    ensures StripDllSuffix(o.requested) == Some(path)
    ensures o.handle == loadLibrary(o.requested)
    ensures o.logged.Some? <==> o.handle == Null
    ensures o.logged.Some? ==> o.logged.value == LoadFailure(path, lastError)
  {
    var name := DllName(path);
    DllNameRoundTrip(path);
    var h := loadLibrary(name);
    DlOpenOutcome(name, h, if h == Null then Some(LoadFailure(path, lastError)) else None)
  }

  /** A loader that finds nothing makes `os_dlopen` return null and log, never fail otherwise. */
  lemma MissingLibraryGivesNull(path: string, loadLibrary: string -> Handle, lastError: uint32)
    requires loadLibrary(DllName(path)) == Null
    ensures DlOpen(path, loadLibrary, lastError).handle == Null
    ensures DlOpen(path, loadLibrary, lastError).logged == Some(LoadFailure(path, lastError))
  {
  }
}
