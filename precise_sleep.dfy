/**
  What `os_sleepto_ns` does, as a function of the clock readings it will see:
  how many readings it takes and which durations it hands to `Sleep`
  (libobs/util/platform-windows.c, `os_sleepto_ns` and `os_sleep_ms`).

  The clock is a sequence of `os_gettime_ns` results in the order they are
  read; its first element is the reading taken on entry.
 */
module PreciseSleep {
  import opened WinTypes
  import opened WinVersion

  const NS_PER_MS: nat := 1_000_000

  /** A monotonic clock never goes backwards. */
  ghost predicate Monotone(clock: seq<uint64>)
  {
    forall i, j :: 0 <= i <= j < |clock| ==> clock[i] <= clock[j]
  }

  /** Some reading reaches the deadline: the assumption under which the spin loop ends. */
  ghost predicate ReachesTarget(clock: seq<uint64>, target: uint64)
  {
    exists j :: 0 <= j < |clock| && clock[j] >= target
  }

  lemma ReachesTargetAfterMiss(clock: seq<uint64>, target: uint64)
    requires ReachesTarget(clock, target) && clock[0] < target
    ensures ReachesTarget(clock[1..], target)
  {
    var j :| 0 <= j < |clock| && clock[j] >= target;
    assert clock[1..][j - 1] == clock[j];
  }

  /**
    The coarse wait `(uint32_t)((time_target - t) / 1000000)`, taken only when
    `t < time_target`, so the subtraction stays non-negative. It never asks for
    more whole milliseconds than remain, and it is exact to the millisecond
    while the remaining milliseconds fit in 32 bits.
   */
  function CoarseWaitMs(t: uint64, target: uint64): (ms: uint32)
    requires t < target
    ensures ms * NS_PER_MS <= target - t
    ensures target - t < TWO_TO_32 * NS_PER_MS ==> target - t < (ms + 1) * NS_PER_MS
  {
    TruncateToUint32((target - t) / NS_PER_MS)
  }

  /** For every deadline ahead, the coarse wait is the whole milliseconds left modulo 2^32. */
  lemma CoarseWaitIsModulo(t: uint64, target: uint64)
    requires t < target
    ensures CoarseWaitMs(t, target) == ((target - t) / NS_PER_MS) % TWO_TO_32
  {
  }

  /** The cast drops whole multiples of 2^32 ms: a wait of exactly 2^32 ms is coarsened to 0. */
  lemma CoarseWaitWraps()
    ensures CoarseWaitMs(0, TWO_TO_32 * NS_PER_MS) == 0
  {
  }

  /** `n` requests of `Sleep(1)`. */
  function Ones(n: nat): (s: seq<uint32>)
    ensures |s| == n && forall i :: 0 <= i < n ==> s[i] == 1
  {
    seq(n, _ => 1)
  }

  lemma AppendAssoc<T>(a: seq<T>, b: seq<T>, c: seq<T>)
    ensures a + b + c == a + (b + c)
  {
  }

  lemma OnesSnoc(n: nat)
    ensures Ones(n) + [1] == Ones(n + 1)
  {
    assert forall i :: 0 <= i < n + 1 ==> (Ones(n) + [1])[i] == 1;
  }

  /** One more `Sleep(1)` after the requests `earlier + (coarse + Ones(misses))`. */
  lemma AppendSpinSleep(earlier: seq<uint32>, coarse: seq<uint32>, misses: nat)
    ensures earlier + (coarse + Ones(misses)) + [1] == earlier + (coarse + Ones(misses + 1))
  {
    OnesSnoc(misses);
    AppendAssoc(coarse, Ones(misses), [1]);
    AppendAssoc(earlier, coarse + Ones(misses), [1]);
  }

  /**
    The number of readings the `for (;;)` loop takes: it returns at the first
    reading at or past the deadline.
   */
  function SpinReads(clock: seq<uint64>, target: uint64): (n: nat)
    requires ReachesTarget(clock, target)
    ensures 1 <= n <= |clock| && clock[n - 1] >= target
    ensures forall j :: 0 <= j < n - 1 ==> clock[j] < target
    decreases |clock|
  {
    if clock[0] >= target then 1
    else
      ReachesTargetAfterMiss(clock, target);
      1 + SpinReads(clock[1..], target)
  }

  /** The readings the spin loop takes are determined by the first one that reaches the deadline. */
  lemma SpinReadsIsFirstReach(clock: seq<uint64>, target: uint64, k: nat)
    requires k < |clock| && clock[k] >= target
    requires forall j :: 0 <= j < k ==> clock[j] < target
    ensures ReachesTarget(clock, target) && SpinReads(clock, target) == k + 1
  {
    // SpinReads ends on a reading that reaches the target after only misses,
    // and the only such reading is clock[k].
  }

  /** The sleep of the coarse phase, if `os_sleepto_ns` issues one. */
  function CoarseRequest(clock0: uint64, target: uint64, winver: bv32): (r: seq<uint32>)
    requires clock0 < target
    ensures |r| <= 1
    ensures |r| == 1 <==> CoarseWaitMs(clock0, target) > 1
    ensures |r| == 1 ==> r[0] == SleepMsArgument(winver, CoarseWaitMs(clock0, target))
  {
    var ms := CoarseWaitMs(clock0, target);
    if ms > 1 then [SleepMsArgument(winver, ms)] else []
  }

  /** What one call of `os_sleepto_ns` does: readings taken and `Sleep` durations requested. */
  datatype SleepTrace = SleepTrace(readings: nat, requests: seq<uint32>)

  /**
    The trace of `os_sleepto_ns(target)` on a clock that will read `clock`, with
    `winver` the version tag `os_sleep_ms` sees. It returns at the first reading
    at or past the deadline, having read none past it.
   */
  function SleepToTrace(clock: seq<uint64>, target: uint64, winver: bv32): (tr: SleepTrace)
    requires ReachesTarget(clock, target)
    ensures 1 <= tr.readings <= |clock| && clock[tr.readings - 1] >= target
    ensures forall j :: 0 <= j < tr.readings - 1 ==> clock[j] < target
  {
    if clock[0] >= target then SleepTrace(1, [])
    else
      ReachesTargetAfterMiss(clock, target);
      var spins := SpinReads(clock[1..], target);
      SleepTrace(1 + spins, CoarseRequest(clock[0], target, winver) + Ones(spins - 1))
  }

  /** A deadline already reached on entry: one reading and no sleep at all. */
  lemma NoSleepWhenDeadlinePassed(clock: seq<uint64>, target: uint64, winver: bv32)
    requires |clock| > 0 && clock[0] >= target
    ensures ReachesTarget(clock, target)
    ensures SleepToTrace(clock, target, winver) == SleepTrace(1, [])
  {
  }

  /**
    A deadline still ahead on entry: an optional coarse sleep, then one `Sleep(1)`
    for every spin reading that is still short of the deadline, and no other request.
   */
  lemma OneSleepPerMissedReading(clock: seq<uint64>, target: uint64, winver: bv32)
    requires ReachesTarget(clock, target) && clock[0] < target
    ensures var tr := SleepToTrace(clock, target, winver);
            var coarse := CoarseRequest(clock[0], target, winver);
            && tr.readings >= 2
            && tr.requests[..|coarse|] == coarse
            && |tr.requests| == |coarse| + (tr.readings - 2)
            && forall i :: |coarse| <= i < |tr.requests| ==> tr.requests[i] == 1
  {
  }

  /**
    The coarse sleep is issued only when more than one whole millisecond
    remains, and it never asks for more time than remains before the deadline.
   */
  lemma CoarseSleepWithinDeadline(clock: seq<uint64>, target: uint64, winver: bv32)
    requires ReachesTarget(clock, target) && clock[0] < target
    ensures var tr := SleepToTrace(clock, target, winver);
            var ms := CoarseWaitMs(clock[0], target);
            && (ms > 1 ==> tr.requests[0] * NS_PER_MS <= target - clock[0])
            && (ms > 1 ==> ms - 1 <= tr.requests[0] <= ms)
            && (ms <= 1 ==> forall i :: 0 <= i < |tr.requests| ==> tr.requests[i] == 1)
  {
  }

  /**
    With the version tag left at 0, the coarse sleep is exactly the coarse wait:
    the whole milliseconds remaining modulo 2^32.
   */
  lemma CoarseSleepUncorrected(clock: seq<uint64>, target: uint64)
    requires ReachesTarget(clock, target) && clock[0] < target
    requires CoarseWaitMs(clock[0], target) > 1
    ensures SleepToTrace(clock, target, CachedWinver(0)).requests[0] == CoarseWaitMs(clock[0], target)
    ensures SleepToTrace(clock, target, CachedWinver(0)).requests[0] == ((target - clock[0]) / NS_PER_MS) % TWO_TO_32
  {
    CorrectionNeverApplies(CoarseWaitMs(clock[0], target));
    CoarseWaitIsModulo(clock[0], target);
  }

  /**
    The trace is fixed by the first reading at or past the deadline, `clock[k]`:
    `k + 1` readings, and after the coarse request `k - 1` requests of `Sleep(1)`.
   */
  lemma SleepToTraceAtFirstReach(clock: seq<uint64>, target: uint64, winver: bv32, k: nat)
    requires 1 <= k < |clock| && clock[k] >= target
    requires forall j :: 0 <= j < k ==> clock[j] < target
    ensures ReachesTarget(clock, target)
    ensures SleepToTrace(clock, target, winver)
         == SleepTrace(k + 1, CoarseRequest(clock[0], target, winver) + Ones(k - 1))
  {
    assert clock[1..][k - 1] == clock[k];
    SpinReadsIsFirstReach(clock[1..], target, k - 1);
  }

  /**
    The same, for a call that took the readings `ticks[start..stop]` of a longer
    script and returned at the last of them.
   */
  lemma SleepToTraceOfScript(ticks: seq<uint64>, start: nat, misses: nat, target: uint64, winver: bv32)
    requires start + misses + 2 <= |ticks| && ticks[start + misses + 1] >= target
    requires forall j :: start <= j < start + misses + 1 ==> ticks[j] < target
    ensures ReachesTarget(ticks[start..], target)
    ensures SleepToTrace(ticks[start..], target, winver)
         == SleepTrace(misses + 2, CoarseRequest(ticks[start], target, winver) + Ones(misses))
  {
    var clock := ticks[start..];
    forall j | 0 <= j < misses + 1
      ensures clock[j] < target
    {
      assert clock[j] == ticks[start + j];
    }
    assert clock[misses + 1] == ticks[start + misses + 1];
    SleepToTraceAtFirstReach(clock, target, winver, misses + 1);
  }

  /** On a monotonic clock, once a reading is at or past the deadline, so is every later one. */
  lemma PassedStaysPassed(clock: seq<uint64>, i: nat, target: uint64)
    requires Monotone(clock) && i < |clock| && clock[i] >= target
    ensures forall j :: i <= j < |clock| ==> clock[j] >= target
  {
  }

  /** On a monotonic clock the deadline stays passed for every reading after the call returns. */
  lemma DeadlineStaysPassed(clock: seq<uint64>, target: uint64, winver: bv32)
    requires ReachesTarget(clock, target) && Monotone(clock)
    ensures var tr := SleepToTrace(clock, target, winver);
            forall j :: tr.readings - 1 <= j < |clock| ==> clock[j] >= target
  {
  }
}
