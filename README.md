# Windows platform layer of libobs: a verified model

This project models the decision logic of `libobs/util/platform-windows.c`, the
Windows back end of libobs' OS abstraction layer, with the operating system
replaced by abstract inputs and outputs:

- **Process state** (`PlatformWindows.Win32Platform`): a class holding the
  process-wide statics `have_clockfreq`, `clock_freq` and `winver`. It also
  holds the monotonic clock and a log of the durations handed to `Sleep`. The
  clock is a script of the readings `os_gettime_ns` will return, in order, and
  a cursor into it.
- **Deadline sleep** (`os_sleepto_ns`, `os_sleep_ms`): the class methods
  `SleepToNs` and `SleepMs` run the source's control flow: the early return,
  the whole-millisecond coarse wait with its `uint32_t` cast, and the
  `for (;;)` spin loop of `Sleep(1)` calls. `SleepToNs` is proved against
  `PreciseSleep.SleepToTrace`, a function that gives the readings taken and the
  sleeps requested for any clock. Lemmas about that function state what the
  source promises: no sleep when the deadline has passed, a coarse wait only
  above 1 ms that never exceeds the time left, one `Sleep(1)` for each spin
  reading still short of the deadline, and a return at the first reading at or
  past the deadline.
- **Version tag and sleep correction** (`get_winver`, `os_sleep_ms`):
  `WinVersion` packs `(major << 16) | minor` in 32-bit `DWORD` arithmetic and
  decides when `os_sleep_ms` takes one millisecond off.
- **Outcome mappings**: `Filesystem.MkDir` and `Filesystem.FileExists` give
  `os_mkdir`'s tri-state result and `os_file_exists`'s answer and handle
  closing. `DynamicLibrary.DlOpen` gives the library name `os_dlopen` asks for
  and its pass-through result.

What the model shows about the source as written:

- `get_winver` zeroes an `OSVERSIONINFO` and never fills it in. The packed tag
  is therefore 0, `winver` keeps its initial 0, the packing is redone on every
  call, and the correction in `os_sleep_ms` never applies
  (`GetWinverKeepsCache`, `CorrectionNeverApplies`, `CoarseSleepUncorrected`).
- The threshold `0x0602` reads as version 6.2 in a byte-per-field packing,
  but the tag puts the major version in the upper 16 bits. Any major version
  of 1 or more passes it, Windows 7 (6.1) included
  (`AnyMajorVersionPassesThreshold`, `Windows7PassesThreshold`).
- `have_clockfreq` is never set. `QueryPerformanceFrequency` therefore runs on
  every `get_clockfreq` call, and so on every clock reading
  (`GetClockFreq`, `GetTimeNs`, `SleepToNs`). The flag's name and the
  `if (!winver)` test in `get_winver` show that both values were meant to be
  computed once, but `have_clockfreq` is never set and `winver` is only ever
  assigned 0 (platform-windows.c:50).
- The `uint32_t` cast of the coarse wait drops whole multiples of 2^32 ms. A
  wait of exactly 2^32 ms is coarsened to 0 and spun out in 1 ms sleeps
  (`CoarseWaitWraps`).
- When the whole milliseconds left, taken modulo 2^32, are more than 1, that
  many are slept in the coarse phase (platform-windows.c:99-101), and no margin
  is kept for the spin phase; only the correction in `os_sleep_ms`, which the
  comment at platform-windows.c:118 gives as the reason for the threshold,
  would take one off, and it never applies. When they are 0 or 1 (less than
  2 ms left, or a non-zero multiple of 2^32 ms plus less than 2 ms), the coarse
  phase sleeps nothing and the whole wait is spun out in 1 ms sleeps.
- Nothing checks for a zero frequency before the division at
  platform-windows.c:133. That division is floating point and is not modelled.

## Model

| member | source | states |
|---|---|---|
| `WinTypes.TruncateToUint32` | libobs/util/platform-windows.c:99 | the `uint32_t` cast never increases a value, keeps it when it fits in 32 bits, and differs from it by a multiple of 2^32 |
| `WinTypes.Int64AsUint64` | libobs/util/platform-windows.c:42 | `clock_freq.QuadPart` returned as `uint64_t` keeps its 64 bits: congruent modulo 2^64, and unchanged when non-negative |
| `WinVersion.PackVersion` | libobs/util/platform-windows.c:50 | the lower 16 bits of the tag are those of the minor version; the upper 16 bits are the major version modulo 2^16, overlapped by any minor bits above 16 |
| `WinVersion.UnpackPackVersion` | libobs/util/platform-windows.c:50 | packing the major version shifted left by 16 with the minor version keeps the major version in the upper half and the minor in the lower half: both read back when each fits in 16 bits |
| `WinVersion.PackedVersionIsZeroIff` | libobs/util/platform-windows.c:47-50 | the packed tag is 0 exactly when the minor field and the low 16 bits of the major field are 0 |
| `WinVersion.CachedWinver` | libobs/util/platform-windows.c:45-54 | a non-zero cache is returned as it is; a zero cache is replaced by a tag that reads back as the major and minor version of the zeroed `OSVERSIONINFO` |
| `WinVersion.GetWinverKeepsCache` | libobs/util/platform-windows.c:45-54 | with the zeroed `OSVERSIONINFO`, `get_winver` leaves the cache as it was: a cache at 0 stays 0 and is recomputed on every call |
| `WinVersion.SleepMsArgument` | libobs/util/platform-windows.c:116-123 | the duration passed to `Sleep` is one less exactly when the tag is at least 0x0602 and the duration is non-zero, otherwise unchanged; it never underflows |
| `WinVersion.CorrectionNeverApplies` | libobs/util/platform-windows.c:119-120 | with the tag `get_winver` computes from its initial 0, every duration reaches `Sleep` unchanged |
| `WinVersion.AnyMajorVersionPassesThreshold` | libobs/util/platform-windows.c:119 | any tag whose major field is non-zero (modulo 2^16) is at or above 0x0602 |
| `WinVersion.Windows7PassesThreshold` | libobs/util/platform-windows.c:118-119 | version 6.1 packs above the threshold meant for 6.2 and later, and below the packing of 6.2 |
| `PreciseSleep.CoarseWaitMs` | libobs/util/platform-windows.c:99 | for `t < time_target` the coarse wait never exceeds the whole milliseconds left, and equals them while they fit in 32 bits |
| `PreciseSleep.CoarseWaitIsModulo` | libobs/util/platform-windows.c:99 | for every deadline ahead, the coarse wait is the whole milliseconds left modulo 2^32 |
| `PreciseSleep.CoarseWaitWraps` | libobs/util/platform-windows.c:99 | a remaining time of exactly 2^32 ms gives a coarse wait of 0 |
| `PreciseSleep.CoarseRequest` | libobs/util/platform-windows.c:99-101 | `os_sleep_ms` is called once, exactly when the coarse wait exceeds 1 ms, and not at all otherwise; that call sleeps the coarse wait after the `os_sleep_ms` correction for the version tag |
| `PreciseSleep.SpinReads` | libobs/util/platform-windows.c:103-113 | the spin loop takes readings until the first at or past the deadline: it ends on one at or past it, and every earlier reading is short of it |
| `PreciseSleep.SpinReadsIsFirstReach` | libobs/util/platform-windows.c:103-113 | the number of spin readings is fixed by the position of the first reading that reaches the deadline |
| `PreciseSleep.SleepToTrace` | libobs/util/platform-windows.c:91-114 | `os_sleepto_ns` takes at least one reading, returns on the first at or past the deadline, and never reads past it |
| `PreciseSleep.NoSleepWhenDeadlinePassed` | libobs/util/platform-windows.c:93-97 | when the first reading is at or past the deadline, one reading is taken and no sleep at all is requested |
| `PreciseSleep.OneSleepPerMissedReading` | libobs/util/platform-windows.c:103-113 | with the deadline ahead: the optional coarse sleep comes first, then one `Sleep(1)` for each spin reading short of the deadline, and nothing else |
| `PreciseSleep.CoarseSleepWithinDeadline` | libobs/util/platform-windows.c:99-101 | a coarse sleep is issued only above 1 ms; it is the coarse wait or one less, and never asks for more time than is left before the deadline |
| `PreciseSleep.CoarseSleepUncorrected` | libobs/util/platform-windows.c:99-101 | with the version tag at its as-written 0, the coarse sleep is exactly the coarse wait `CoarseWaitMs`: the whole milliseconds left modulo 2^32 |
| `PreciseSleep.SleepToTraceAtFirstReach` | libobs/util/platform-windows.c:91-114 | if reading `k >= 1` is the first at or past the deadline, the call takes `k + 1` readings and requests the coarse sleep followed by `k - 1` sleeps of 1 ms |
| `PreciseSleep.SleepToTraceOfScript` | libobs/util/platform-windows.c:91-114 | the same characterisation for the readings `start` to `start + misses + 1` of a longer clock script |
| `PreciseSleep.DeadlineStaysPassed` | libobs/util/platform-windows.c:103-106 | on a monotonic clock, the reading that ends the call and every later one are at or past the deadline |
| `PlatformWindows.Win32Platform.constructor` | libobs/util/platform-windows.c:34-36 | the statics start zeroed: `have_clockfreq` false, `clock_freq` 0, `winver` 0; no reading taken, no sleep requested; the clock is monotonic, which every later call keeps as part of `Valid` |
| `PlatformWindows.Win32Platform.GetClockFreq` | libobs/util/platform-windows.c:38-43 | the frequency is queried exactly when `have_clockfreq` is clear, the flag is never set, and the result is `clock_freq` after the query |
| `PlatformWindows.Win32Platform.GetTimeNs` | libobs/util/platform-windows.c:125-136 | returns the next clock reading and goes through `get_clockfreq`, which queries the frequency again while the flag is clear |
| `PlatformWindows.Win32Platform.Sleep` | libobs/util/platform-windows.c:122 | the requested duration is appended to the log of `Sleep` requests |
| `PlatformWindows.Win32Platform.GetWinver` | libobs/util/platform-windows.c:45-54 | the cache becomes `CachedWinver` of its old value, which is its old value; the result is the cache |
| `PlatformWindows.Win32Platform.SleepMs` | libobs/util/platform-windows.c:116-123 | exactly one `Sleep` of `SleepMsArgument(winver, duration)` is logged and the version cache is unchanged |
| `PlatformWindows.Win32Platform.SleepToNs` | libobs/util/platform-windows.c:91-114 | the readings taken and the sleeps logged are exactly those of `SleepToTrace` on the clock from the cursor; the frequency is queried once per reading while `have_clockfreq` is clear; on return the last reading and every later one are at or past the deadline |
| `DynamicLibrary.DllName` | libobs/util/platform-windows.c:62-63 | the name is the path followed by ".dll" |
| `DynamicLibrary.DllNameRoundTrip` | libobs/util/platform-windows.c:62-63 | removing the ".dll" suffix from the built name gives back the path |
| `DynamicLibrary.DllNameInjective` | libobs/util/platform-windows.c:62-63 | different paths give different library names |
| `DynamicLibrary.DlOpen` | libobs/util/platform-windows.c:56-75 | the loader is asked for the path plus ".dll", its handle is returned unchanged, and a failure with the caller's path and the last error is logged exactly when the handle is null |
| `DynamicLibrary.MissingLibraryGivesNull` | libobs/util/platform-windows.c:66-74 | a library the loader cannot find gives a null handle and one logged failure |
| `Filesystem.MkDir` | libobs/util/platform-windows.c:168-184 | error when the path does not convert; success exactly when `CreateDirectory` succeeds; "exists" exactly when it fails with `ERROR_ALREADY_EXISTS`; error for any other failure |
| `Filesystem.FileExists` | libobs/util/platform-windows.c:151-166 | false without a search when conversion fails; otherwise true exactly when the find handle is valid, and the handle is closed exactly when valid |
| `Filesystem.MkDirIn` | libobs/util/platform-windows.c:176-183 | on an idealised file system, the path is present after `os_mkdir` |
| `Filesystem.MkDirTwiceThenExists` | libobs/util/platform-windows.c:168-184 | on an idealised file system, creating a new directory twice gives success and then "exists", and `os_file_exists` then finds it |
| `Filesystem.FindHandleClosedIffPresent` | libobs/util/platform-windows.c:157-165 | on an idealised file system, `os_file_exists` searches, reports the path, and closes the find handle exactly when the path is present |
| `Filesystem.ExistsAfterMkDir` | libobs/util/platform-windows.c:151-184 | on an idealised file system, `os_mkdir` never reports an error for a path that converts, and `os_file_exists` finds the path afterwards |

## Left out

- `os_gettime_ns` scaling: the conversion of the raw counter to nanoseconds is floating point, so each reading is an abstract `uint64` from the clock script. The division by a zero frequency is not modelled either.
- `PlatformWindows.Win32Platform.SleepToNs` requires that some reading from the cursor on reaches the deadline. For a target the clock never reaches, such as UINT64_MAX, `os_sleepto_ns` never returns. The model excludes that input so that the spin loop terminates.
- `PlatformWindows.Win32Platform.GetTimeNs` requires a reading left in the script, for the same reason.
- Blocking and scheduling by `Sleep`: only the requested durations are recorded. The clock does not depend on them.
- `os_dlsym` and `os_dlclose`: they pass straight through to `GetProcAddress` and `FreeLibrary`, so there is no logic to model.
- `os_get_home_path`: a shell-folder query and a UTF-16 to UTF-8 conversion, all foreign calls.
- UTF-8 to UTF-16 conversion: an abstract success flag in `os_mkdir` and `os_file_exists`. In `os_dlopen` its result is not checked, and the model passes the name to the loader unchanged.
- Memory management (`bfree`, `dstr_free`) and the text of the log line of `os_dlopen`: only its arguments are recorded.
- `DllMain`: pthread process and thread attach/detach hooks, which are lifecycle plumbing.
- Concurrent first-time initialisation of the caches: the model is single-threaded.
- The idealised file system behind `Filesystem.MkDirIn` has no parent directories, permissions or other failure causes. It only states how the two operations work together.
- obs/settings-basic.hpp: declarations of GUI settings classes with no logic.
