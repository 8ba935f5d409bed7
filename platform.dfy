/**
  The process-wide state of the Windows platform layer and the operations of
  libobs/util/platform-windows.c that read or change it: the clock-frequency
  and version caches, the monotonic clock, `Sleep`, `os_sleep_ms` and
  `os_sleepto_ns`.

  The operating system is abstract. The performance counter is a script of
  the readings `os_gettime_ns` will return, in order; `Sleep` only records the
  duration it was asked for; `QueryPerformanceFrequency` reports `osFreq`.
 */
module PlatformWindows {
  import opened WinTypes
  import opened WinVersion
  import opened PreciseSleep

  class Win32Platform {
    /** What `QueryPerformanceFrequency` stores into `clock_freq`. */
    const osFreq: int64

    /**
      The readings `os_gettime_ns` returns, in order, fixed when the process
      starts, and how many of them have been taken.
     */
    const ticks: seq<uint64>
    var pos: nat

    /** Every duration handed to `Sleep`, in order. */
    var sleeps: seq<uint32>

    /** How many times `QueryPerformanceFrequency` has been called. */
    var freqQueries: nat

    /** The static globals `have_clockfreq`, `clock_freq` and `winver`. */
    var haveClockFreq: bool
    var clockFreq: int64
    var winver: bv32

    /**
      The cursor stays within the script, and the clock never goes backwards.
      It depends only on the cursor and the const script, so a method that
      does not list `pos` in its `modifies` keeps it through its frame.
     */
    ghost predicate Valid()
      reads this
    {
      pos <= |ticks| && Monotone(ticks)
    }

    /** A process at start-up: statics zero-initialised, nothing read or slept yet. */
    constructor (clock: seq<uint64>, freq: int64)
      requires Monotone(clock)
      ensures Valid() && ticks == clock && pos == 0 && osFreq == freq
      ensures sleeps == [] && freqQueries == 0
      ensures !haveClockFreq && clockFreq == 0 && winver == 0
    {
      osFreq := freq;
      ticks, pos := clock, 0;
      sleeps, freqQueries := [], 0;
      haveClockFreq, clockFreq, winver := false, 0, 0;
    }

    /**
      `get_clockfreq`: queries the counter frequency unless `have_clockfreq` is
      set, and returns `clock_freq`. Nothing sets the flag, so a process that
      starts with it clear queries the frequency on every call.
     */
    method GetClockFreq() returns (f: uint64)
      modifies this`clockFreq, this`freqQueries
      ensures haveClockFreq == old(haveClockFreq)
      ensures !old(haveClockFreq) ==> clockFreq == osFreq && freqQueries == old(freqQueries) + 1
      ensures old(haveClockFreq) ==> clockFreq == old(clockFreq) && freqQueries == old(freqQueries)
      ensures f == Int64AsUint64(clockFreq)
    {
      if !haveClockFreq {
        clockFreq := osFreq;
        freqQueries := freqQueries + 1;
      }
      f := Int64AsUint64(clockFreq);
    }

    /**
      `os_gettime_ns`: the next reading of the monotonic clock. The scaling of the
      raw counter by the frequency is floating point and is not modelled; the
      frequency is still fetched through `get_clockfreq` on every reading.
     */
    method GetTimeNs() returns (t: uint64)
      requires pos < |ticks|
      modifies this`pos, this`clockFreq, this`freqQueries
      ensures pos == old(pos) + 1
      ensures t == ticks[old(pos)]
      ensures haveClockFreq == old(haveClockFreq)
      ensures !old(haveClockFreq) ==> clockFreq == osFreq && freqQueries == old(freqQueries) + 1
      ensures old(haveClockFreq) ==> clockFreq == old(clockFreq) && freqQueries == old(freqQueries)
    {
      t := ticks[pos];
      pos := pos + 1;
      var freq := GetClockFreq();
    }

    /** The Win32 `Sleep`: only the requested duration is recorded. */
    method Sleep(ms: uint32)
      modifies this`sleeps
      ensures sleeps == old(sleeps) + [ms]
    {
      sleeps := sleeps + [ms];
    }

    /**
      `get_winver`: when the cache is 0, packs the version fields of a zeroed
      `OSVERSIONINFO` into it. The result is the cache after the call, which is
      the cache before it.
     */
    method GetWinver() returns (w: bv32)
      modifies this`winver
      ensures winver == CachedWinver(old(winver))
      ensures w == winver && winver == old(winver)
    {
      if winver == 0 {
        var osvi := ZeroedVersionInfo;
        winver := PackVersion(osvi.majorVersion, osvi.minorVersion);
      }
      w := winver;
      GetWinverKeepsCache(old(winver));
    }

    /** `os_sleep_ms`: sleeps one millisecond less on a tag at or above 0x0602. */
    method SleepMs(duration: uint32)
      modifies this`winver, this`sleeps
      ensures winver == old(winver)
      ensures sleeps == old(sleeps) + [SleepMsArgument(winver, duration)]
    {
      var w := GetWinver();
      var d := duration;
      if w >= SleepCorrectionThreshold && d > 0 {
        d := d - 1;
      }
      Sleep(d);
    }

    /**
      `os_sleepto_ns`: returns at once when the first reading is at or past the
      deadline; otherwise sleeps the coarse wait (the whole milliseconds
      remaining modulo 2^32) when it is more than 1, then sleeps 1 ms at a time
      until a reading reaches the
      deadline. The clock is assumed to reach the deadline eventually.
     */
    method SleepToNs(target: uint64)
      requires Valid() && ReachesTarget(ticks[pos..], target)
      modifies this
      ensures Valid() && winver == old(winver)
      ensures var tr := SleepToTrace(old(ticks[pos..]), target, old(winver));
              pos == old(pos) + tr.readings && sleeps == old(sleeps) + tr.requests
      ensures old(pos) < pos && forall j :: pos - 1 <= j < |ticks| ==> ticks[j] >= target
      ensures haveClockFreq == old(haveClockFreq)
      ensures !old(haveClockFreq) ==> clockFreq == osFreq && freqQueries == old(freqQueries) + (pos - old(pos))
      ensures old(haveClockFreq) ==> clockFreq == old(clockFreq) && freqQueries == old(freqQueries)
    {
      ghost var start := pos;
      var t := GetTimeNs();
      assert t == ticks[start];
      if t >= target {
        NoSleepWhenDeadlinePassed(ticks[start..], target, winver);
        PassedStaysPassed(ticks, start, target);
        return;
      }

      var milliseconds := CoarseWaitMs(t, target);
      if milliseconds > 1 {
        SleepMs(milliseconds);
      }
      ghost var coarse := CoarseRequest(ticks[start], target, winver);
      ghost var misses: nat := 0;
      assert sleeps == old(sleeps) + (coarse + Ones(misses));

      while true
        invariant pos <= |ticks| && winver == old(winver)
        invariant pos == start + 1 + misses
        invariant forall j :: start <= j < pos ==> ticks[j] < target
        invariant sleeps == old(sleeps) + (coarse + Ones(misses))
        invariant haveClockFreq == old(haveClockFreq)
        invariant !old(haveClockFreq) ==> clockFreq == osFreq && freqQueries == old(freqQueries) + (pos - start)
        invariant old(haveClockFreq) ==> clockFreq == old(clockFreq) && freqQueries == old(freqQueries)
        decreases |ticks| - pos
      {
        t := GetTimeNs();
        if t >= target {
          SleepToTraceOfScript(ticks, start, misses, target, winver);
          PassedStaysPassed(ticks, pos - 1, target);
          return;
        }
        Sleep(1);
        AppendSpinSleep(old(sleeps), coarse, misses);
        misses := misses + 1;
      }
    }
  }
}
