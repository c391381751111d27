/** Absolute timeouts from a clock in units of 100 ns and a wait in nanoseconds. */
module Timespec {
  import opened Bits

  class Abstime {
    var tvSec: nat
    var tvNsec: nat

    constructor () {
      tvSec, tvNsec := 0, 0;
    }

    /**
     `set_timespec_nsec` on POSIX: always normalised, and exact to the nanosecond exactly when the
     64-bit sum of clock and wait does not wrap; when it does, the deadline is 2^64 clock units early.
     */
    method SetNsec(systime: nat, nsec: nat)
      requires systime < TWO_64 && nsec < TWO_64
      modifies this
      ensures tvNsec < 1_000_000_000
      ensures var lost := 100 * systime + nsec - (tvSec * 1_000_000_000 + tvNsec);
              lost == if systime + nsec / 100 < TWO_64 then 0 else 100 * TWO_64
    {
      var now := (systime + nsec / 100) % TWO_64;
      tvSec := now / 10_000_000;
      tvNsec := now % 10_000_000 * 100 + nsec % 100;
    }
  }

  /** The Windows structure keeps the deadline in 100 ns units and the longest wait in milliseconds. */
  class WindowsAbstime {
    var i64: int
    var maxTimeoutMsec: int

    constructor () {
      i64, maxTimeoutMsec := 0, 0;
    }

    /**
     `set_timespec_nsec` on Windows, which adds the wait as a signed number: the deadline is early by less
     than one unit exactly when the wait is below 2^63 ns and the signed sum does not wrap. From 2^63 ns on
     it lies before the clock, by the wait's complement. The longest wait is a 32-bit `long`, right exactly
     when the milliseconds fit.
     */
    method SetNsec(systime: nat, nsec: nat)
      requires systime < TWO_63 && nsec < TWO_64
      modifies this
      ensures 100 * i64 <= 100 * systime + nsec < 100 * i64 + 100 <==>
              nsec < TWO_63 && systime + nsec / 100 < TWO_63
      ensures nsec < TWO_63 && systime + nsec / 100 >= TWO_63 ==> i64 == systime + nsec / 100 - TWO_64
      ensures nsec >= TWO_63 ==> i64 == systime - (TWO_64 - nsec) / 100
      ensures -0x8000_0000 <= maxTimeoutMsec < 0x8000_0000
      ensures (nsec / 1_000_000 - maxTimeoutMsec) % 0x1_0000_0000 == 0
      ensures maxTimeoutMsec == nsec / 1_000_000 <==> nsec < 0x8000_0000 * 1_000_000
    {
      Int64Value(nsec);
      Int64Value(systime + DivideTowardZero(Int64(nsec), 100));
      hide Int64;
      i64 := Int64(systime + DivideTowardZero(Int64(nsec), 100));
      var msec := nsec / 1_000_000 % 0x1_0000_0000;
      maxTimeoutMsec := if msec < 0x8000_0000 then msec else msec - 0x1_0000_0000;
    }
  }

  /** The conversion to `__int64`. */
  function Int64(x: int): int {
    var u := x % TWO_64;
    if u < TWO_63 then u else u - TWO_64
  }

  lemma Int64Value(x: int)
    requires -TWO_63 <= x < TWO_63 + TWO_64
    ensures Int64(x) == if x < TWO_63 then x else x - TWO_64
  {
  }

  /** C's `/` on signed numbers. */
  function DivideTowardZero(x: int, y: int): int
    requires y > 0
  {
    if x >= 0 then x / y else -(-x / y)
  }
}
