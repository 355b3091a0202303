# hr_timer in Dafny

A model of `hr_timer`, a small C utility for measuring elapsed wall-clock
time. It holds one process-wide timer. `init_HR_Timer` resets it by storing
the current time as a reference point. `read_HR_Timer`, `read_HR_Timer_ms`
and `read_HR_Timer_us` return the time since that reference in seconds,
milliseconds or microseconds. `diff_time` subtracts two unsigned 64-bit
timestamps and returns a signed result, correct across wraparound.

The project has three modules:

- `CInt` (c_int.dfy): the C99 integer rules the code relies on. `uint64_t`
  and `int64_t` are integer ranges. Unsigned addition is reduced modulo
  2^64. `~` flips each of the 64 bits, and is proved equal to
  `UINT64_MAX - b`. The conversion of `uint64_t` to `int64_t` reinterprets
  the two's-complement bit pattern.
- `Units` (units.dfy): the `ms`, `us` and `sec` macros of hr_timer.h.
- `HrTimer` (hr_timer.dfy): `diff_time` and the portable (gettimeofday)
  branch of hr_timer.c. The static reference timestamp is the class
  `HrTimer` with fields `initSec` and `initUsec`. The clock is injected:
  each operation that reads the clock takes the reading, a `Timeval`, as a
  parameter.

Elapsed time is exact. It is a whole number of microseconds, or a real
number of seconds. `uint64_t` is modelled as integers modulo 2^64 rather
than as Dafny's `bv64`. The verifier cannot relate `bv64` values to their
integer values, and the core property of `diff_time` is a statement about
integers.

`diff_time` returns the true difference exactly when that difference lies
in `[-2^63, 2^63)` (`DiffTimeExact`). So "within 2^63 of each other" in the
source comment must be read as strict when `a > b`: at `a - b == 2^63` the
result is `-2^63` (`DiffTimeHalfRangeBoundary`). Outside the range the
code's result is still fully determined: it is `a - b` reduced into the
`int64_t` range. It is never unspecified, given the two's-complement
conversion.

## Model

| member | source | states |
|---|---|---|
| `CInt.Not64` | hr_timer.c:154 | `~b` on a `uint64_t` equals `2^64 - 1 - b`; it is computed by flipping each of the 64 bits |
| `CInt.BitComplementValue` | hr_timer.c:154 | flipping every bit of a `width`-bit number `x` gives `2^width - 1 - x` |
| `CInt.AddU64` | hr_timer.c:154 | unsigned 64-bit addition gives the true sum, less 2^64 when it wraps |
| `CInt.ToInt64` | hr_timer.c:155 | the `uint64_t`-to-`int64_t` conversion on return gives the unique `int64_t` congruent to `r` modulo 2^64; it is negative exactly when the top bit of `r` is set |
| `HrTimer.DiffTime` | hr_timer.c:147-155 | `diff_time(a, b)` is congruent to `a - b` modulo 2^64, and lies in the `int64_t` range |
| `HrTimer.NegationIsTwosComplement` | hr_timer.c:154 | `~b + 1` is the additive inverse of `b` modulo 2^64: `b + (~b + 1)` wraps to 0 |
| `HrTimer.DiffTimeExact` | hr_timer.c:147-155 | `diff_time(a, b) == a - b` if and only if `-2^63 <= a - b < 2^63` |
| `HrTimer.DiffTimeRoundTrip` | hr_timer.c:147-155 | for all operands, adding `diff_time(a, b)` (as `uint64_t`) back to `b` gives `a` |
| `HrTimer.DiffTimeSelf` | hr_timer.c:154 | `diff_time(a, a) == 0` |
| `HrTimer.DiffTimeAntisymmetric` | hr_timer.c:147-155 | `diff_time(b, a) == -diff_time(a, b)` unless the latter is `-2^63` |
| `HrTimer.DiffTimeNoWrap` | hr_timer.c:147-155 | when `b <= a < b + 2^63`, the result is exactly `a - b` and non-negative |
| `HrTimer.DiffTimeWrapExample` | hr_timer.c:154 | `diff_time(5, 2^64 - 6) == 11`: wraparound is recovered |
| `HrTimer.DiffTimeSampleDuration` | test.c:12 | `diff_time(2009981, 0) == 2009981` |
| `HrTimer.DiffTimeHalfRangeBoundary` | hr_timer.h:52-53 | operands exactly 2^63 apart give `-2^63` in both orders, so the validity bound is strict for `a > b` |
| `HrTimer.HrTimer.constructor` | hr_timer.c:53-54 | the reference fields start at 0, as the static initialisers set them |
| `HrTimer.HrTimer.Init` | hr_timer.c:56-63 | sets `initSec := tv.sec` and `initUsec := tv.usec` from one clock reading and changes nothing else |
| `HrTimer.HrTimer.ElapsedUs` | hr_timer.c:69 | the field-by-field difference (seconds delta times 10^6 plus the signed microsecond delta) equals the difference of the two instants in microseconds |
| `HrTimer.HrTimer.ReadSeconds` | hr_timer.c:65-70 | `read_HR_Timer` times 10^6 equals the microseconds from the reference to `now` |
| `HrTimer.HrTimer.ReadMs` | hr_timer.c:72-76 | `read_HR_Timer_ms` is `1000 * read_HR_Timer()` truncated toward zero: for a non-negative reading `r <= 1000*s < r + 1`, and a reading in (-1 ms, 0) gives 0; defined only where C defines the conversion |
| `HrTimer.HrTimer.ReadUs` | hr_timer.c:78-82 | `read_HR_Timer_us` is exactly `10^6 * read_HR_Timer()`, defined while below 2^64 microseconds |
| `HrTimer.ReadAtReference` | hr_timer.c:65-82 | reading at the reference instant gives 0 seconds, 0 ms and 0 us |
| `HrTimer.UsecDeltaBounded` | hr_timer.c:54-69 | with both microsecond fields in 0..999999, the signed microsecond delta is strictly inside (-10^6, 10^6) |
| `HrTimer.ReadMsIsReadUsTruncated` | hr_timer.c:72-82 | the ms read is the us read truncated to whole milliseconds |
| `HrTimer.ReadsMonotonic` | hr_timer.c:65-82 | with no reset in between, a later clock reading gives a seconds, ms and us value at least as large |
| `HrTimer.MeasuredDurationUs` | test.c:62-70 | `diff_time` of two us reads is exactly the time between the two clock readings |
| `HrTimer.MeasuredDurationMs` | test.c:61-70 | `diff_time` of two ms reads, times 1000, is within one millisecond of the time between the readings |
| `HrTimer.SampleRun` | test.c:8-12 | a reset at 1768000000.995000 s and a read 2.009981 s later give 2.009981 s, 2009 ms and 2009981 us, with a negative microsecond field delta |
| `Units.Ms` | hr_timer.h:44 | `x ms` is a whole number of milliseconds in microseconds: divisible by 1000, with quotient `x` |
| `Units.Us` | hr_timer.h:45 | `x us` is `x` itself |
| `Units.Sec` | hr_timer.h:46 | `x sec` is divisible by 10^6 with quotient `x` |
| `Units.SecIsThousandMs` | hr_timer.h:44-46 | `x sec == (1000 x) ms` and `x ms == (1000 x) us`; in particular `1 sec == 1000 ms` |
| `Units.TwoThousandMsIsTwoSec` | test.c:49-51 | the demo's `2000 ms` passed to `usleep` is `2 sec`, 2000000 us |
| `Units.MicrosecondCounterSpan` | hr_timer.h:51 | a `uint64_t` microsecond count holds more than 584 thousand Julian years and less than 585 thousand |

## Left out

- The clock calls (`gettimeofday`, `QueryPerformanceCounter`, `QueryPerformanceFrequency`) are operating-system I/O. Each read takes the clock reading as a parameter instead.
- The `double` arithmetic of the read functions is not modelled. Elapsed time is an exact integer or real. A real `double` computation can round, for example to one microsecond or millisecond below the exact truncation.
- HrTimer.HrTimer.ReadMs: its `requires` is the range in which ISO C99 section 6.3.1.4 paragraph 1 defines converting the floating value to `uint64_t`. Outside it the behaviour is undefined, as for a clock that steps back by a millisecond or more.
- HrTimer.HrTimer.ReadUs: its `requires` is that same range, here a non-negative elapsed time below 2^64 microseconds.
- The Windows branch (hr_timer.c:84-143) is not modelled: its performance counter, its frequency query and its lazily cached scale factors stored behind a `0` sentinel. It depends on a foreign frequency query and exists only to feed floating-point scaling.
- The disabled alternative `return a-b;` (hr_timer.c:157) is dead code under `#if 1`.
- The conversion of `tv_usec` to `int32_t` is taken as the identity. It is the identity for the 0..999999 range that gettimeofday produces. Overflow of the `time_t` seconds difference is not modelled; it cannot occur for real clock readings.
- The unit macros are textual and unparenthesised, so `a+b ms` would scale only `b`. The model takes the operand as an already evaluated value. Overflow of the operand's C type is not modelled.
- The single timer is a class instance, not a hidden global. Concurrent access to it is not modelled; the source provides no locking.
- test.c's `Sleep`/`usleep` and `printf` driver is not modelled. Only its sample measurement appears, as `HrTimer.SampleRun` and the `MeasuredDuration` lemmas.
