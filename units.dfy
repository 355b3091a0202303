/**
  The postfix scaling macros of hr_timer.h.  `x ms`, `x us` and `x sec`
  expand textually to `x *1000`, `x *1` and `x *1000000`, turning a count of
  milliseconds, microseconds or seconds into a count of microseconds.  Each
  macro is modelled as a function of the (already evaluated) operand.
*/
module Units {

  import opened CInt

  /** `x ms`: x milliseconds, in microseconds. */
  function Ms(x: int): (r: int)
    ensures r % 1000 == 0 && r / 1000 == x
  {
    x * 1000
  }

  /** `x us`: the microsecond count itself. */
  function Us(x: int): (r: int)
    ensures r == x
  {
    x * 1
  }

  /** `x sec`: x seconds, in microseconds. */
  function Sec(x: int): (r: int)
    ensures r % 1_000_000 == 0 && r / 1_000_000 == x
  {
    x * 1000000
  }

  /** The three scales agree with each other: a second is a thousand milliseconds. */
  lemma SecIsThousandMs(x: int)
    ensures Sec(x) == Ms(x * 1000)
    ensures Sec(1) == Ms(1000)
    ensures Ms(x) == Us(x * 1000)
  {
  }

  /** The demonstration's `usleep(sleep_ms ms)` with `sleep_ms` = 2000 sleeps two seconds. */
  lemma TwoThousandMsIsTwoSec()
    ensures Ms(2000) == Sec(2) == 2_000_000
  {
  }

  /** A Julian year (365.25 days), in seconds. */
  const YEAR_SECONDS: int := 31_557_600

  /**
    A `uint64_t` microsecond count holds every duration up to 584 thousand
    years, and runs out before 585 thousand years.
  */
  lemma MicrosecondCounterSpan()
    ensures Sec(584_000 * YEAR_SECONDS) < TWO_64 <= Sec(585_000 * YEAR_SECONDS)
  {
  }
}
