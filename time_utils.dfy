/** Millisecond durations and `struct timespec` arithmetic (FeabhOS POSIX time utilities).
    `time_t` and `long` are modelled as unbounded integers; a duration is a `uint32_t`. */
module TimeUtils {

  const MsPerSec: int := 1000
  const NsPerMs: int := 1000000
  const NsPerSec: int := 1000000000

  /** `duration_mSec_t`, a `uint32_t` count of milliseconds. */
  type DurationMs = x: int | 0 <= x < 0x1_0000_0000

  datatype Timespec = Timespec(tvSec: int, tvNsec: int)

  /** The instant a timespec denotes, in nanoseconds. */
  function TotalNanos(t: Timespec): int
  {
    t.tvSec * NsPerSec + t.tvNsec
  }

  /** A timespec whose nanosecond field is in [0, 1e9). */
  predicate Normalized(t: Timespec)
  {
    0 <= t.tvNsec < NsPerSec
  }

  /** C's `/` on `long`: the quotient is truncated toward zero. */
  function CQuot(a: int, b: int): int
    requires b > 0
  {
    if a >= 0 then a / b else -((-a) / b)
  }

  /** C's `%` on `long`: the remainder takes the sign of the dividend. */
  function CRem(a: int, b: int): (r: int)
    requires b > 0
    ensures a == b * CQuot(a, b) + r
    ensures a >= 0 ==> 0 <= r < b
    ensures a < 0 ==> -b < r <= 0
  {
    if a >= 0 then a % b
    else
      var x := -a;
      assert x == b * (x / b) + x % b;
      assert b * CQuot(a, b) == -(b * (x / b));
      -(x % b)
  }

  // ---------------------------------------------------------------------------
  // to_timespec

  /** `to_timespec(period)`: whole seconds, and the leftover milliseconds as nanoseconds. */
  function ToTimespec(period: DurationMs): (t: Timespec)
    ensures 0 <= t.tvSec && t.tvSec * MsPerSec <= period < (t.tvSec + 1) * MsPerSec
    ensures Normalized(t) && t.tvNsec % NsPerMs == 0
  {
    var sec := period / MsPerSec;
    Timespec(sec, (period - sec * MsPerSec) * NsPerMs)
  }

  /** The conversion loses nothing: seconds and milliseconds add back up to the period. */
  lemma ToTimespecLossless(period: DurationMs)
    ensures ToTimespec(period).tvSec * MsPerSec + ToTimespec(period).tvNsec / NsPerMs == period
    ensures TotalNanos(ToTimespec(period)) == period * NsPerMs
  {
    var t := ToTimespec(period);
    var ms := period - t.tvSec * MsPerSec;
    assert t.tvNsec == ms * NsPerMs;
    assert t.tvNsec / NsPerMs == ms;
    assert TotalNanos(t) == (t.tvSec * MsPerSec + ms) * NsPerMs;
  }

  // ---------------------------------------------------------------------------
  // timespec_add, as written

  /** `timespec_add(lhs, rhs)`: seconds are added; nanoseconds are added and reduced modulo 1e9,
      with no carry into the seconds. */
  function TimespecAdd(lhs: Timespec, rhs: Timespec): (r: Timespec)
    ensures r.tvSec == lhs.tvSec + rhs.tvSec
    ensures lhs.tvNsec + rhs.tvNsec == NsPerSec * CQuot(lhs.tvNsec + rhs.tvNsec, NsPerSec) + r.tvNsec
    ensures lhs.tvNsec + rhs.tvNsec >= 0 ==> Normalized(r)
  {
    Timespec(lhs.tvSec + rhs.tvSec, CRem(lhs.tvNsec + rhs.tvNsec, NsPerSec))
  }

  /** For normalized operands the sum is exact precisely when the nanoseconds do not
      overflow a second; otherwise exactly one second is lost. */
  lemma TimespecAddExactness(lhs: Timespec, rhs: Timespec)
    requires Normalized(lhs) && Normalized(rhs)
    ensures lhs.tvNsec + rhs.tvNsec < NsPerSec ==>
              TotalNanos(TimespecAdd(lhs, rhs)) == TotalNanos(lhs) + TotalNanos(rhs)
    ensures lhs.tvNsec + rhs.tvNsec >= NsPerSec ==>
              TotalNanos(TimespecAdd(lhs, rhs)) == TotalNanos(lhs) + TotalNanos(rhs) - NsPerSec
  {
    var n := lhs.tvNsec + rhs.tvNsec;
    if n >= NsPerSec {
      assert CRem(n, NsPerSec) == n - NsPerSec;
    } else {
      assert CRem(n, NsPerSec) == n;
    }
  }

  /** 0.6 s + 0.6 s comes out as 0.2 s: the carried second is dropped. */
  lemma TimespecAddDropsCarry()
    ensures TimespecAdd(Timespec(0, 600000000), Timespec(0, 600000000)) == Timespec(0, 200000000)
    ensures TotalNanos(TimespecAdd(Timespec(0, 600000000), Timespec(0, 600000000)))
            != TotalNanos(Timespec(0, 600000000)) + TotalNanos(Timespec(0, 600000000))
  {
    var half := Timespec(0, 600000000);
    assert CRem(1200000000, NsPerSec) == 200000000;
    assert TotalNanos(half) == 600000000;
    assert TotalNanos(Timespec(0, 200000000)) == 200000000;
  }

  // ---------------------------------------------------------------------------
  // timespec_add, corrected

  /** Addition that carries the overflowing second, so that the result is exactly lhs + rhs. */
  function TimespecAddCarry(lhs: Timespec, rhs: Timespec): (r: Timespec)
    ensures TotalNanos(r) == TotalNanos(lhs) + TotalNanos(rhs)
    ensures Normalized(r)
  {
    var n := lhs.tvNsec + rhs.tvNsec;
    Timespec(lhs.tvSec + rhs.tvSec + n / NsPerSec, n % NsPerSec)
  }

  /** When no second overflows, the written addition and the corrected one agree. */
  lemma TimespecAddAgreesWithoutCarry(lhs: Timespec, rhs: Timespec)
    requires 0 <= lhs.tvNsec + rhs.tvNsec < NsPerSec
    ensures TimespecAdd(lhs, rhs) == TimespecAddCarry(lhs, rhs)
  {
    var n := lhs.tvNsec + rhs.tvNsec;
    assert n / NsPerSec == 0;
  }
}
