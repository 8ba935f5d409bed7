/**
  The Windows version tag of `get_winver` and the sleep-duration correction
  of `os_sleep_ms` that is keyed on it (libobs/util/platform-windows.c).
 */
module WinVersion {
  import opened WinTypes

  /** The `OSVERSIONINFO` fields that matter here; every field is a `DWORD`. */
  datatype OsVersionInfo = OsVersionInfo(
    majorVersion: bv32,
    minorVersion: bv32,
    buildNumber: bv32,
    platformId: bv32)

  /** The structure after `memset(&osvi, 0, sizeof(osvi))`. No call fills it in afterwards. */
  const ZeroedVersionInfo: OsVersionInfo := OsVersionInfo(0, 0, 0, 0)

  /** The tag value that `os_sleep_ms` compares against ("windows 8+"). */
  const SleepCorrectionThreshold: bv32 := 0x0602

  /** The two halves of `(major << 16) | minor`. */
  lemma ShiftOrHalves(major: bv32, minor: bv32)
    ensures ((major << 16) | minor) & 0xFFFF == minor & 0xFFFF
    ensures ((major << 16) | minor) >> 16 == (major & 0xFFFF) | (minor >> 16)
  {
  }

  /**
    `(major << 16) | minor` in `DWORD` arithmetic: the lower half holds the
    minor version, the upper half the major version modulo 2^16, with any
    minor bits above 16 overlapping it.
   */
  function PackVersion(major: bv32, minor: bv32): (v: bv32)
    ensures v & 0xFFFF == minor & 0xFFFF
    ensures v >> 16 == (major & 0xFFFF) | (minor >> 16)
  {
    ShiftOrHalves(major, minor);
    (major << 16) | minor
  }

  /** The fields of a tag, read back: the major version from the upper half, the minor from the lower. */
  function UnpackVersion(v: bv32): (bv32, bv32)
  {
    (v >> 16, v & 0xFFFF)
  }

  /** Packing keeps both fields when each fits in 16 bits. */
  lemma UnpackPackVersion(major: bv32, minor: bv32)
    requires major < 0x1_0000 && minor < 0x1_0000
    ensures UnpackVersion(PackVersion(major, minor)) == (major, minor)
  {
  }

  /** The packed tag is 0 exactly when both fields are 0 (the major field modulo 2^16). */
  lemma PackedVersionIsZeroIff(major: bv32, minor: bv32)
    ensures PackVersion(major, minor) == 0 <==> major & 0xFFFF == 0 && minor == 0
  {
  }

  /**
    The value `get_winver` returns, and leaves in the cache, when the cache
    holds `cache`: a non-zero cache is returned as it is; a zero cache is
    replaced by the tag of the version fields `get_winver` reads.
   */
  function CachedWinver(cache: bv32): (w: bv32)
    ensures cache != 0 ==> w == cache
    ensures cache == 0 ==> UnpackVersion(w) == (ZeroedVersionInfo.majorVersion, ZeroedVersionInfo.minorVersion)
  {
    if cache != 0 then cache
    else
      UnpackPackVersion(ZeroedVersionInfo.majorVersion, ZeroedVersionInfo.minorVersion);
      PackVersion(ZeroedVersionInfo.majorVersion, ZeroedVersionInfo.minorVersion)
  }

  /**
    Because the version structure is never filled in, `get_winver` packs zeros:
    the cache keeps whatever it held, so from its initial 0 it stays 0 and the
    computation is repeated on every call.
   */
  lemma GetWinverKeepsCache(cache: bv32)
    ensures CachedWinver(cache) == cache
  {
    PackedVersionIsZeroIff(ZeroedVersionInfo.majorVersion, ZeroedVersionInfo.minorVersion);
  }

  /** The duration `os_sleep_ms` hands to `Sleep`: one less when the tag passes the threshold. */
  function SleepMsArgument(winver: bv32, duration: uint32): (d: uint32)
    ensures d <= duration && duration - d <= 1
    ensures d < duration <==> winver >= SleepCorrectionThreshold && duration > 0
  {
    if winver >= SleepCorrectionThreshold && duration > 0 then duration - 1 else duration
  }

  /** As written, the tag is 0, so the duration always reaches `Sleep` unchanged. */
  lemma CorrectionNeverApplies(duration: uint32)
    ensures SleepMsArgument(CachedWinver(0), duration) == duration
  {
    GetWinverKeepsCache(0);
  }

  /**
    With the major version in the upper 16 bits, any major version of 1 or more
    already exceeds the threshold 0x0602.
   */
  lemma AnyMajorVersionPassesThreshold(major: bv32, minor: bv32)
    requires major & 0xFFFF != 0
    ensures PackVersion(major, minor) >= SleepCorrectionThreshold
  {
  }

  /** Windows 7 (version 6.1) would pass the threshold meant for Windows 8 (6.2) and later. */
  lemma Windows7PassesThreshold()
    ensures PackVersion(6, 1) >= SleepCorrectionThreshold
    ensures PackVersion(6, 1) < PackVersion(6, 2)
  {
  }
}
