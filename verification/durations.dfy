/**
 * `std::time::Duration` and its division by a `u32`, as the compression
 * benchmark uses it to turn the wall time of a parallel pass into a per-call
 * duration. Clock readings are not modelled: elapsed durations are inputs.
 */
module Durations {
  import opened Wrappers
  import opened Bytes

  const NanosPerSec: nat := 1_000_000_000

  type Nanos = n: nat | n < 1_000_000_000

  /** Whole seconds and the nanoseconds below one second. */
  datatype Duration = Duration(secs: u64, nanos: Nanos)

  /** The length of a duration in nanoseconds. */
  function TotalNanos(d: Duration): nat
  {
    d.secs * NanosPerSec + d.nanos
  }

  /**
   * `Duration::checked_div`: seconds and nanoseconds are divided separately
   * and both remainders are carried into the nanoseconds. `None` for a zero
   * divisor, which `Duration / u32` turns into a panic.
   */
  function CheckedDiv(d: Duration, rhs: u32): (r: Option<Duration>)
    ensures r.None? <==> rhs == 0
    ensures r.Some? ==> TotalNanos(r.value) == TotalNanos(d) / rhs
  {
    if rhs == 0 then None
    else
      DivAtMost(d.secs, rhs);
      Some(Duration(d.secs / rhs, CarriedNanos(d.secs, d.nanos, rhs)))
  }

  /**
   * The nanoseconds of the quotient: `nanos / rhs` plus the remainders of the
   * seconds (scaled to nanoseconds) and of the nanoseconds, divided by `rhs`.
   */
  function CarriedNanos(secs: nat, nanos: Nanos, rhs: nat): (c: Nanos)
    requires rhs > 0
    ensures (secs / rhs) * NanosPerSec + c == (secs * NanosPerSec + nanos) / rhs
  {
    CarryIsExact(secs, nanos, rhs);
    Carry(secs, nanos, rhs)
  }

  /** `nanos / rhs` plus `(extra_secs * NANOS_PER_SEC + extra_nanos) / rhs`. */
  function Carry(secs: nat, nanos: nat, rhs: nat): nat
    requires rhs > 0
  {
    nanos / rhs + ((secs % rhs) * NanosPerSec + nanos % rhs) / rhs
  }

  lemma DivAtMost(x: nat, d: nat)
    requires d > 0
    ensures x / d <= x
  {
    DivBelow(x, d, x + 1);
  }

  lemma DivBelow(x: nat, d: nat, k: nat)
    requires d > 0 && x < d * k
    ensures x / d < k
  {
    var q := x / d;
    assert x == d * q + x % d;
    if q >= k {
      MulLe(d, k, q);
      assert false;
    }
  }

  /** The carried nanoseconds stay below one second and the quotient is exact. */
  lemma CarryIsExact(s: nat, n: nat, r: nat)
    requires r > 0 && n < NanosPerSec
    ensures Carry(s, n, r) < NanosPerSec
    ensures (s / r) * NanosPerSec + Carry(s, n, r) == (s * NanosPerSec + n) / r
  {
    var sq, es := s / r, s % r;
    var nq, nm := n / r, n % r;
    var x := es * NanosPerSec + nm;
    var xq, xm := x / r, x % r;
    assert n == r * nq + nm;
    assert x == r * xq + xm;
    // The remainder of the seconds, in nanoseconds, plus `n`, divided by `r`.
    assert es * NanosPerSec + n == r * (nq + xq) + xm;
    DivUnique(es * NanosPerSec + n, r, nq + xq, xm);
    assert es <= r - 1;
    assert es * NanosPerSec <= (r - 1) * NanosPerSec by { MulLe(NanosPerSec, es, r - 1); }
    assert es * NanosPerSec + n < r * NanosPerSec;
    DivBelow(es * NanosPerSec + n, r, NanosPerSec);
    // The whole duration.
    assert s == r * sq + es;
    assert s * NanosPerSec == r * (sq * NanosPerSec) + es * NanosPerSec;
    assert s * NanosPerSec + n == r * (sq * NanosPerSec + nq + xq) + xm;
    DivUnique(s * NanosPerSec + n, r, sq * NanosPerSec + nq + xq, xm);
  }

  /** A quotient `q` of `total` by `k` satisfies `q * k <= total < (q + 1) * k`. */
  lemma QuotientBounds(total: nat, k: nat)
    requires k > 0
    ensures (total / k) * k <= total < (total / k + 1) * k
  {
  }
}
