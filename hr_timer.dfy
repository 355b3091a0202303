/**
  The portable (gettimeofday) branch of hr_timer.c and its wraparound-safe
  subtraction `diff_time`.

  The single process-wide timer is an object of class `HrTimer` whose two
  fields are the static reference timestamp.  The clock is not called: each
  operation that reads the clock takes that reading, a `Timeval`, as a
  parameter.  Elapsed time is exact (integer microseconds, or a real number
  of seconds); the `double` arithmetic of the source is not modelled.
*/
module HrTimer {

  import opened CInt

  // ---------------------------------------------------------------------
  // diff_time
  // ---------------------------------------------------------------------

  /** `diff_time(a, b)`: computes `a + (~b + 1)` in `uint64_t` and returns it as `int64_t`. */
  function DiffTime(a: UInt64, b: UInt64): (d: Int64)
    ensures (d - (a - b)) % TWO_64 == 0
  {
    var r := AddU64(a, AddU64(Not64(b), 1));
    ToInt64(r)
  }

  /** `~b + 1` is the two's-complement negation of `b`: adding it to `b` gives 0 modulo 2^64. */
  lemma NegationIsTwosComplement(b: UInt64)
    ensures AddU64(b, AddU64(Not64(b), 1)) == 0
    ensures AddU64(Not64(b), 1) == (TWO_64 - b) % TWO_64
  {
  }

  /**
    `diff_time(a, b)` is the true difference `a - b` exactly when that
    difference lies in the `int64_t` range, that is when `a` and `b` are
    within 2^63 of each other (2^63 below, less than 2^63 above).
  */
  lemma DiffTimeExact(a: UInt64, b: UInt64)
    ensures DiffTime(a, b) == a - b <==> -TWO_63 <= a - b < TWO_63
  {
  }

  /** Adding `diff_time(a, b)` back to `b` in `uint64_t` arithmetic gives `a` again, for all operands. */
  lemma DiffTimeRoundTrip(a: UInt64, b: UInt64)
    ensures AddU64(b, FromInt64(DiffTime(a, b))) == a
  {
  }

  /** A timestamp minus itself is 0. */
  lemma DiffTimeSelf(a: UInt64)
    ensures DiffTime(a, a) == 0
  {
  }

  /** Swapping the operands negates the result, except at -2^63, which has no `int64_t` negation. */
  lemma DiffTimeAntisymmetric(a: UInt64, b: UInt64)
    requires DiffTime(a, b) != -TWO_63
    ensures DiffTime(b, a) == -DiffTime(a, b)
  {
  }

  /** With no wraparound, a later reading minus an earlier one is exact and non-negative. */
  lemma DiffTimeNoWrap(a: UInt64, b: UInt64)
    requires b <= a && a - b < TWO_63
    ensures DiffTime(a, b) == a - b
    ensures DiffTime(a, b) >= 0
  {
  }

  /** Wraparound is recovered: from 2^64-6 to 5 the counter advanced by 11. */
  lemma DiffTimeWrapExample()
    ensures DiffTime(5, TWO_64 - 6) == 11
  {
  }

  /** The demonstration's microsecond duration, 2009981 us measured from 0. */
  lemma DiffTimeSampleDuration()
    ensures DiffTime(2_009_981, 0) == 2_009_981
  {
  }

  /** Timestamps exactly 2^63 apart, later minus earlier, come out negative. */
  lemma DiffTimeHalfRangeBoundary()
    ensures DiffTime(TWO_63, 0) == -TWO_63
    ensures DiffTime(0, TWO_63) == -TWO_63
  {
  }

  // ---------------------------------------------------------------------
  // The reset/read timer
  // ---------------------------------------------------------------------

  /** A `struct timeval` reading of the clock: whole seconds and microseconds. */
  datatype Timeval = Timeval(sec: int, usec: int)

  /** A well-formed reading: the microsecond field is in 0 .. 999999, as gettimeofday produces. */
  predicate ValidTimeval(tv: Timeval)
  {
    0 <= tv.usec < 1_000_000
  }

  /** The instant a reading denotes, in microseconds since the epoch. */
  function InstantUs(tv: Timeval): int
  {
    tv.sec * 1_000_000 + tv.usec
  }

  /**
    The reference timestamp of the timer: `hr_timer_init_time_sec` and
    `hr_timer_init_time_usec`.
  */
  class HrTimer {
    var initSec: int
    var initUsec: int

    /** The static initialisers: both fields start at 0. */
    constructor ()
      ensures initSec == 0 && initUsec == 0
      ensures Valid()
    {
      initSec := 0;
      initUsec := 0;
    }

    /** The stored reference timestamp, as a reading. */
    function Reference(): Timeval
      reads this
    {
      Timeval(initSec, initUsec)
    }

    /** The stored reference came from a well-formed clock reading. */
    predicate Valid()
      reads this
    {
      ValidTimeval(Reference())
    }

    /** `init_HR_Timer`: stores both parts of the one clock reading `tv` as the new reference. */
    method Init(tv: Timeval)
      modifies this
      ensures initSec == tv.sec && initUsec == tv.usec
      ensures Reference() == tv
      ensures ValidTimeval(tv) ==> Valid()
    {
      initSec := tv.sec;
      initUsec := tv.usec;
    }

    /**
      `now - reference` in microseconds, computed field by field as the
      source does: the whole-second delta and the signed microsecond delta.
    */
    function ElapsedUs(now: Timeval): (e: int)
      reads this
      ensures e == InstantUs(now) - InstantUs(Reference())
    {
      (now.sec - initSec) * 1_000_000 + (now.usec - initUsec)
    }

    /** `read_HR_Timer`: seconds from the reference to `now`, as an exact real. */
    function ReadSeconds(now: Timeval): (s: real)
      reads this
      ensures s * 1_000_000.0 == (InstantUs(now) - InstantUs(Reference())) as real
    {
      (now.sec - initSec) as real + (now.usec - initUsec) as real / 1_000_000.0
    }

    /**
      `read_HR_Timer_ms`: `1000.0 * read_HR_Timer()` converted to `uint64_t`,
      which truncates toward zero and is defined only when the value lies
      strictly between -1 and 2^64.
    */
    function ReadMs(now: Timeval): (r: UInt64)
      reads this
      requires -1000 < ElapsedUs(now) < 1000 * TWO_64
      ensures ReadSeconds(now) >= 0.0 ==> r as real <= 1000.0 * ReadSeconds(now) < r as real + 1.0
      ensures ReadSeconds(now) < 0.0 ==> r == 0
    {
      var e := ElapsedUs(now);
      if e >= 0 then e / 1000 else 0
    }

    /**
      `read_HR_Timer_us`: `1e6 * read_HR_Timer()` converted to `uint64_t`;
      defined while the elapsed time is under 2^64 microseconds.
    */
    function ReadUs(now: Timeval): (r: UInt64)
      reads this
      requires 0 <= ElapsedUs(now) < TWO_64
      ensures r as real == 1_000_000.0 * ReadSeconds(now)
    {
      ElapsedUs(now)
    }
  }

  /** Reading at the reference instant itself gives zero in every unit. */
  lemma ReadAtReference(timer: HrTimer)
    ensures timer.ReadSeconds(timer.Reference()) == 0.0
    ensures timer.ReadMs(timer.Reference()) == 0
    ensures timer.ReadUs(timer.Reference()) == 0
  {
  }

  /** With both microsecond fields well-formed, the signed microsecond delta lies strictly inside (-1e6, 1e6). */
  lemma UsecDeltaBounded(timer: HrTimer, now: Timeval)
    requires timer.Valid() && ValidTimeval(now)
    ensures -1_000_000 < now.usec - timer.initUsec < 1_000_000
  {
  }

  /** The millisecond read is the microsecond read truncated to whole milliseconds. */
  lemma ReadMsIsReadUsTruncated(timer: HrTimer, now: Timeval)
    requires 0 <= timer.ElapsedUs(now) < TWO_64
    ensures timer.ReadMs(now) * 1000 <= timer.ReadUs(now) < timer.ReadMs(now) * 1000 + 1000
  {
  }

  /** Without an intervening reset, a later clock reading never gives a smaller elapsed time. */
  lemma ReadsMonotonic(timer: HrTimer, t1: Timeval, t2: Timeval)
    requires InstantUs(t1) <= InstantUs(t2)
    ensures timer.ReadSeconds(t1) <= timer.ReadSeconds(t2)
    ensures 0 <= timer.ElapsedUs(t1) && timer.ElapsedUs(t2) < TWO_64 ==> timer.ReadUs(t1) <= timer.ReadUs(t2)
    ensures 0 <= timer.ElapsedUs(t1) && timer.ElapsedUs(t2) < 1000 * TWO_64 ==> timer.ReadMs(t1) <= timer.ReadMs(t2)
  {
  }

  /**
    The demonstration's measurement: two microsecond reads taken at `t1`
    and `t2`, subtracted with `diff_time`, give the exact time between the
    two clock readings, whatever the reference was.
  */
  lemma MeasuredDurationUs(timer: HrTimer, t1: Timeval, t2: Timeval)
    requires 0 <= timer.ElapsedUs(t1) < TWO_64 && 0 <= timer.ElapsedUs(t2) < TWO_64
    requires -TWO_63 <= InstantUs(t2) - InstantUs(t1) < TWO_63
    ensures DiffTime(timer.ReadUs(t2), timer.ReadUs(t1)) == InstantUs(t2) - InstantUs(t1)
  {
  }

  /**
    The same measurement in milliseconds is off by less than one
    millisecond, because each read truncates.
  */
  lemma MeasuredDurationMs(timer: HrTimer, t1: Timeval, t2: Timeval)
    requires 0 <= timer.ElapsedUs(t1) < TWO_64 && 0 <= timer.ElapsedUs(t2) < TWO_64
    ensures -1000 < DiffTime(timer.ReadMs(t2), timer.ReadMs(t1)) * 1000 - (InstantUs(t2) - InstantUs(t1)) < 1000
  {
  }

  /**
    The demonstration's sample run: reset at 1768000000.995000 s, read
    2.009981 s later across a second boundary.  The microsecond field
    delta is negative (-990019), which is why it is kept signed.
  */
  method SampleRun(timer: HrTimer) returns (seconds: real, millis: UInt64, micros: UInt64)
    modifies timer
    ensures seconds == 2.009981 && millis == 2009 && micros == 2_009_981
    ensures timer.Reference() == Timeval(1_768_000_000, 995_000)
  {
    timer.Init(Timeval(1_768_000_000, 995_000));
    var later := Timeval(1_768_000_003, 4_981);
    assert later.usec - timer.initUsec == -990_019;
    seconds := timer.ReadSeconds(later);
    millis := timer.ReadMs(later);
    micros := timer.ReadUs(later);
  }
}
