/** Windows file times (hundreds of nanoseconds since 1601) and unix times.

    The epoch offset is unsigned, so all arithmetic is modulo 2^64. */
module WinTime {
  import opened Bytes

  const FILETIME_JAN_1970: int := 116444736000000000
  const FILETIME_SECOND: int := 10000000
  const NANOSECOND_FILETIME: int := 100

  datatype UnixTime = UnixTime(seconds: u64, nanoseconds: u32)

  /** The two halves in which Windows hands out a file time. */
  datatype FileTime = FileTime(low: u32, high: u32)

  /** A 64-bit signed file time. */
  type LargeInteger = x: int | -TWO_63 <= x < TWO_63

  function Signed(x: u64): LargeInteger
  {
    if x < TWO_63 then x else x - TWO_64
  }

  function LargeIntegerToUnix(filetime: LargeInteger): UnixTime
  {
    var combined := filetime % TWO_64;
    UnixTime((combined - FILETIME_JAN_1970) % TWO_64 / FILETIME_SECOND,
             combined % FILETIME_SECOND * NANOSECOND_FILETIME % TWO_32)
  }

  function FileTimeToUnix(filetime: FileTime): UnixTime
  {
    LargeIntegerToUnix(Signed(filetime.high * TWO_32 + filetime.low))
  }

  function UnixToLargeInteger(t: UnixTime): LargeInteger
  {
    var ticks := t.nanoseconds / NANOSECOND_FILETIME % FILETIME_SECOND;
    Signed((ticks + (t.seconds * FILETIME_SECOND % TWO_64 + FILETIME_JAN_1970) % TWO_64) % TWO_64)
  }

  function UnixToFileTime(t: UnixTime): FileTime
  {
    var combined := UnixToLargeInteger(t) % TWO_64;
    FileTime(combined % TWO_32, combined / TWO_32)
  }

  /** The real instant a file time stands for, in nanoseconds since 1970. */
  function Instant(filetime: LargeInteger): int
  {
    (filetime - FILETIME_JAN_1970) * NANOSECOND_FILETIME
  }

  /** From 1970 on, the conversion is exact: the unix time names the very instant,
      with whole hundreds of nanoseconds below a second. */
  lemma ExactFrom1970(filetime: LargeInteger)
    requires FILETIME_JAN_1970 <= filetime
    ensures var t := LargeIntegerToUnix(filetime);
            && t.seconds * 1_000_000_000 + t.nanoseconds == Instant(filetime)
            && t.nanoseconds < 1_000_000_000
            && t.nanoseconds % 100 == 0
  {
    assert FILETIME_JAN_1970 == 11644473600 * FILETIME_SECOND;
    var since := filetime - FILETIME_JAN_1970;
    assert since / FILETIME_SECOND * FILETIME_SECOND + filetime % FILETIME_SECOND == since;
  }

  /** q seconds and r ticks. */
  lemma Ticks(q: int, r: int)
    requires 0 <= r < FILETIME_SECOND
    ensures (q * FILETIME_SECOND + r) / FILETIME_SECOND == q && (q * FILETIME_SECOND + r) % FILETIME_SECOND == r
  {}

  lemma RoundTripFrom1970(filetime: LargeInteger)
    requires FILETIME_JAN_1970 <= filetime
    ensures UnixToLargeInteger(LargeIntegerToUnix(filetime)) == filetime
  {
    ExactFrom1970(filetime);
    var t := LargeIntegerToUnix(filetime);
    var ticks := filetime % FILETIME_SECOND;
    assert t.nanoseconds == ticks * 100;
    assert t.seconds * FILETIME_SECOND == filetime - FILETIME_JAN_1970 - ticks;
    hide LargeIntegerToUnix, Signed;
    assert t.nanoseconds / 100 % FILETIME_SECOND == ticks by { hide UnixToLargeInteger; }
    assert t.seconds * FILETIME_SECOND % TWO_64 == t.seconds * FILETIME_SECOND by { hide UnixToLargeInteger; }
    SignedSum(filetime - ticks, ticks);
    assert UnixToLargeInteger(t) == Signed((ticks + (filetime - ticks + TWO_64) % TWO_64) % TWO_64);
  }

  /** Before 1970 the difference wraps, and 2^64 is no multiple of a second. */
  lemma LostBefore1970(filetime: LargeInteger)
    requires 0 <= filetime < FILETIME_JAN_1970
    ensures UnixToLargeInteger(LargeIntegerToUnix(filetime)) != filetime
  {
    var wrapped := filetime - FILETIME_JAN_1970 + TWO_64;
    var t := LargeIntegerToUnix(filetime);
    var ticks := filetime % FILETIME_SECOND;
    var r := wrapped % FILETIME_SECOND;
    assert t.seconds == wrapped / FILETIME_SECOND && t.nanoseconds == ticks * 100 by {
      hide UnixToLargeInteger, Signed;
    }
    RemaindersDiffer(filetime);
    SignedSum(filetime - r, ticks);
    hide LargeIntegerToUnix, Signed;
    assert t.seconds * FILETIME_SECOND == wrapped - r;
    assert t.nanoseconds / 100 % FILETIME_SECOND == ticks by { hide UnixToLargeInteger; }
    assert wrapped - r + FILETIME_JAN_1970 == filetime - r + TWO_64;
    assert t.seconds * FILETIME_SECOND % TWO_64 == wrapped - r by { hide UnixToLargeInteger; }
    assert UnixToLargeInteger(t) == filetime - r + ticks;
  }

  lemma RemaindersDiffer(filetime: int)
    ensures (filetime - FILETIME_JAN_1970 + TWO_64) % FILETIME_SECOND != filetime % FILETIME_SECOND
  {
    assert TWO_64 - FILETIME_JAN_1970 == 1833029933770 * FILETIME_SECOND + 9551616;
    var q := filetime / FILETIME_SECOND;
    assert filetime - FILETIME_JAN_1970 + TWO_64
        == (q + 1833029933770) * FILETIME_SECOND + (filetime % FILETIME_SECOND + 9551616);
  }

  lemma SignedSum(x: int, y: int)
    requires -TWO_63 <= x + y < TWO_63 && -TWO_63 <= x < TWO_63 && 0 <= y < TWO_63
    ensures Signed((y + (x + TWO_64) % TWO_64) % TWO_64) == x + y
  {}

  /** A negative file time wraps to a great unsigned one, which the way back wraps
      again. */
  lemma RoundTripNegative(filetime: LargeInteger)
    requires filetime < 0
    ensures UnixToLargeInteger(LargeIntegerToUnix(filetime)) == filetime
  {
    var combined := filetime + TWO_64;
    var q, r := combined / FILETIME_SECOND, combined % FILETIME_SECOND;
    Ticks(q, r);
    Ticks(q - 11644473600, r);
    var t := LargeIntegerToUnix(filetime);
    assert combined - FILETIME_JAN_1970 == (q - 11644473600) * FILETIME_SECOND + r;
    assert t == UnixTime(q - 11644473600, r * NANOSECOND_FILETIME);
    assert t.nanoseconds / NANOSECOND_FILETIME % FILETIME_SECOND == r;
    hide LargeIntegerToUnix;
    assert t.seconds * FILETIME_SECOND % TWO_64 == t.seconds * FILETIME_SECOND by { hide UnixToLargeInteger; }
    assert UnixToLargeInteger(t) == Signed(combined % TWO_64);
  }

  /** There and back is the identity exactly for the times from 1970 on and for
      negative ones. */
  lemma RoundTripIff(filetime: LargeInteger)
    ensures UnixToLargeInteger(LargeIntegerToUnix(filetime)) == filetime <==>
            filetime < 0 || FILETIME_JAN_1970 <= filetime
  {
    if filetime < 0 {
      RoundTripNegative(filetime);
    } else if FILETIME_JAN_1970 <= filetime {
      RoundTripFrom1970(filetime);
    } else {
      LostBefore1970(filetime);
    }
  }

  /** Later file times get later unix times. */
  lemma OrderPreserved(a: LargeInteger, b: LargeInteger)
    requires FILETIME_JAN_1970 <= a && FILETIME_JAN_1970 <= b
    ensures var s, t := LargeIntegerToUnix(a), LargeIntegerToUnix(b);
            a < b <==> s.seconds < t.seconds || (s.seconds == t.seconds && s.nanoseconds < t.nanoseconds)
  {
    ExactFrom1970(a);
    ExactFrom1970(b);
  }

  /** The other way round only the nanoseconds are rounded, down to hundreds, as
      long as the file time fits 64 bits. */
  lemma UnixRoundTrip(t: UnixTime)
    requires t.nanoseconds < 1_000_000_000
    requires t.seconds * FILETIME_SECOND + FILETIME_JAN_1970 + t.nanoseconds / 100 < TWO_64
    ensures LargeIntegerToUnix(UnixToLargeInteger(t)) == UnixTime(t.seconds, t.nanoseconds - t.nanoseconds % 100)
  {
    var ticks := t.nanoseconds / NANOSECOND_FILETIME;
    assert ticks % FILETIME_SECOND == ticks;
    var f := t.seconds * FILETIME_SECOND + FILETIME_JAN_1970 + ticks;
    WrapSum(t.seconds * FILETIME_SECOND, ticks);
    assert f % TWO_64 == f;
    assert UnixToLargeInteger(t) == Signed(f) by { hide Signed; }
    SignedBack(f);
    Ticks(t.seconds, ticks);
    Ticks(t.seconds + 11644473600, ticks);
    hide UnixToLargeInteger, Signed;
    assert (f - FILETIME_JAN_1970) % TWO_64 == t.seconds * FILETIME_SECOND + ticks;
  }

  lemma SignedBack(x: u64)
    ensures Signed(x) % TWO_64 == x
  {}

  /** A file time that does not fit 64 bits comes back as another time. */
  lemma UnixOverflows(t: UnixTime)
    requires t.nanoseconds < 1_000_000_000
    requires t.seconds * FILETIME_SECOND + FILETIME_JAN_1970 + t.nanoseconds / 100 >= TWO_64
    ensures LargeIntegerToUnix(UnixToLargeInteger(t)) != UnixTime(t.seconds, t.nanoseconds - t.nanoseconds % 100)
  {
    var ticks := t.nanoseconds / NANOSECOND_FILETIME;
    assert ticks % FILETIME_SECOND == ticks;
    var y := t.seconds * FILETIME_SECOND + ticks;
    var combined := (y + FILETIME_JAN_1970) % TWO_64;
    WrapSum(t.seconds * FILETIME_SECOND, ticks);
    assert UnixToLargeInteger(t) == Signed(combined);
    SignedBack(combined);
    var back := LargeIntegerToUnix(Signed(combined));
    WrapDifference(y);
    assert back.seconds == y % TWO_64 / FILETIME_SECOND;
    assert back.nanoseconds == combined % FILETIME_SECOND * NANOSECOND_FILETIME;
    hide UnixToLargeInteger, LargeIntegerToUnix, Signed;
    if y < TWO_64 {
      assert combined == y + FILETIME_JAN_1970 - TWO_64;
      RemaindersDiffer(combined);
      Ticks(t.seconds, ticks);
      assert combined - FILETIME_JAN_1970 + TWO_64 == y;
      assert combined % FILETIME_SECOND != ticks;
    } else {
      SecondsWrap(t.seconds, ticks);
    }
  }

  lemma WrapSum(x: nat, ticks: nat)
    ensures (ticks + (x % TWO_64 + FILETIME_JAN_1970) % TWO_64) % TWO_64 == (x + ticks + FILETIME_JAN_1970) % TWO_64
  {}

  lemma WrapDifference(y: nat)
    ensures ((y + FILETIME_JAN_1970) % TWO_64 - FILETIME_JAN_1970) % TWO_64 == y % TWO_64
  {}

  lemma SecondsWrap(q: nat, r: nat)
    requires r < FILETIME_SECOND && q * FILETIME_SECOND + r >= TWO_64
    ensures (q * FILETIME_SECOND + r) % TWO_64 / FILETIME_SECOND != q
  {
    var y := q * FILETIME_SECOND + r;
    assert y % TWO_64 == y - y / TWO_64 * TWO_64;
    assert y % TWO_64 < q * FILETIME_SECOND;
  }

  /** So unix times come back, rounded, exactly when their file time fits 64 bits. */
  lemma UnixRoundTripIff(t: UnixTime)
    requires t.nanoseconds < 1_000_000_000
    ensures LargeIntegerToUnix(UnixToLargeInteger(t)) == UnixTime(t.seconds, t.nanoseconds - t.nanoseconds % 100) <==>
            t.seconds * FILETIME_SECOND + FILETIME_JAN_1970 + t.nanoseconds / 100 < TWO_64
  {
    if t.seconds * FILETIME_SECOND + FILETIME_JAN_1970 + t.nanoseconds / 100 < TWO_64 {
      UnixRoundTrip(t);
    } else {
      UnixOverflows(t);
    }
  }

  /** Splitting into two halves and joining them loses something exactly for the
      times that the conversion loses: those from 1601 up to 1970. */
  lemma HalvesRoundTripIff(filetime: FileTime)
    ensures UnixToFileTime(FileTimeToUnix(filetime)) == filetime <==>
            !(filetime.high * TWO_32 + filetime.low < FILETIME_JAN_1970)
  {
    var whole: int := filetime.high * TWO_32 + filetime.low;
    hide UnixToLargeInteger, LargeIntegerToUnix;
    RoundTripIff(Signed(whole));
    SignedBack(whole);
    var back := UnixToLargeInteger(LargeIntegerToUnix(Signed(whole)));
    SameHalves(back % TWO_64, filetime);
    SameWrap(back, Signed(whole));
    assert Signed(whole) < 0 || FILETIME_JAN_1970 <= Signed(whole) <==> FILETIME_JAN_1970 <= whole;
    hide Signed;
  }

  lemma SameHalves(x: u64, f: FileTime)
    ensures FileTime(x % TWO_32, x / TWO_32) == f <==> x == f.high * TWO_32 + f.low
  {
    var high: int, low: int := f.high, f.low;
    assert (high * TWO_32 + low) % TWO_32 == low && (high * TWO_32 + low) / TWO_32 == high;
  }

  /** Handed out in two halves, a file time from 1970 on is converted to the instant
      that the halves, the high one in front, stand for. */
  lemma HalvesExact(filetime: FileTime)
    requires FILETIME_JAN_1970 <= filetime.high * TWO_32 + filetime.low < TWO_63
    ensures var t := FileTimeToUnix(filetime);
            && t.seconds * 1_000_000_000 + t.nanoseconds == Instant(filetime.high * TWO_32 + filetime.low)
            && t.nanoseconds < 1_000_000_000
  {
    ExactFrom1970(filetime.high * TWO_32 + filetime.low);
    hide LargeIntegerToUnix;
  }

  lemma SameWrap(a: LargeInteger, b: LargeInteger)
    ensures a % TWO_64 == b % TWO_64 ==> a == b
  {}
}
