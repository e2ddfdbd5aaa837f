/**
 * Windows FILETIME to Unix time (`FileTime2Time_T`, libjtv.cpp). A
 * FILETIME counts 100-ns ticks since 1601-01-01; `TIME_T_ZERO` is the tick
 * count of 1970-01-01 00:00:00.
 *
 * The C expression subtracts in `unsigned long long`, so a tick count
 * before 1970 wraps around to a date about 58,000 years ahead, and the
 * final cast to `time_t` (a `long`: 64 bits under LP64, 32 under ILP32)
 * truncates, so under ILP32 dates from 2038-01-19 on wrap to 1901. The
 * decoder uses `FileTimeToTimeT`, which reports such tick counts as
 * `InvalidTimestamp` and `TimeOutOfRange`; `FileTimeToTimeTAsWritten`
 * keeps the C arithmetic so that the wraps can be stated.
 */
module FileTime {

  import opened Wrappers
  import opened JtvFormat

  const FILETIME_PER_SEC: nat := 10_000_000
  const TIME_T_ZERO: nat := 0x19DB1F7FA8BB800
  const HOUR_SEC: nat := 3600

  const U64_MODULUS: nat := 0x1_0000_0000_0000_0000

  /** `2^(bits - 1)` for the width of `time_t` (a `long`) under `abi`. */
  function TimeTHalf(abi: Abi): (h: nat)
    ensures 2 * h == Pow256(ULongSize(abi))
  {
    Pow256ULong(abi);
    match abi
    case LP64 => 0x8000_0000_0000_0000
    case ILP32 => 0x8000_0000
  }

  lemma Pow256ULong(abi: Abi)
    ensures Pow256(ULongSize(abi)) == if abi == LP64 then U64_MODULUS else 0x1_0000_0000
  {
    Pow256Eight();
    assert Pow256(4) == 0x1_0000_0000;
  }

  /** The range of `time_t` under `abi`. */
  predicate IsTimeT(abi: Abi, t: int)
  {
    -(TimeTHalf(abi) as int) <= t < TimeTHalf(abi)
  }

  /** A 32-bit `int`. */
  predicate IsInt32(x: int)
  {
    -0x8000_0000 <= x < 0x8000_0000
  }

  /** `correctTZ * HOUR_SEC` is evaluated in `int`: it must not overflow. */
  predicate ValidCorrection(correctTZ: int)
  {
    IsInt32(correctTZ) && IsInt32(correctTZ * HOUR_SEC)
  }

  datatype TimeError =
    | InvalidTimestamp  // the tick count lies before 1970
    | TimeOutOfRange    // the seconds do not fit `time_t`

  /**
   * Seconds since 1970 of the tick count `ftime`, shifted by `correctTZ`
   * whole hours; tick counts before 1970, and times `time_t` cannot hold,
   * are errors. Only a 32-bit `time_t` can be too narrow.
   */
  function FileTimeToTimeT(ftime: nat, correctTZ: int, abi: Abi): (r: Result<int, TimeError>)
    requires ftime < U64_MODULUS && ValidCorrection(correctTZ)
    ensures r == Failure(InvalidTimestamp) <==> ftime < TIME_T_ZERO
    ensures r.Success? ==> IsTimeT(abi, r.value)
    ensures r == Failure(TimeOutOfRange) ==> abi == ILP32
  {
    if ftime < TIME_T_ZERO then Failure(InvalidTimestamp)
    else
      var t := (ftime - TIME_T_ZERO) / FILETIME_PER_SEC + correctTZ * HOUR_SEC;
      if IsTimeT(abi, t) then Success(t) else Failure(TimeOutOfRange)
  }

  /** With a 64-bit `time_t` every tick count from 1970 on converts. */
  lemma Lp64FromEpochConverts(ftime: nat, correctTZ: int)
    requires TIME_T_ZERO <= ftime < U64_MODULUS && ValidCorrection(correctTZ)
    ensures FileTimeToTimeT(ftime, correctTZ, LP64).Success?
  {
  }

  /** With a 32-bit `time_t`, 2^31 seconds after 1970 (2038-01-19 03:14:08) no longer converts. */
  lemma Ilp32RejectsFrom2038(ftime: nat)
    requires TIME_T_ZERO + 0x8000_0000 * FILETIME_PER_SEC <= ftime < U64_MODULUS
    ensures FileTimeToTimeT(ftime, 0, ILP32) == Failure(TimeOutOfRange)
  {
    DivMonotonic(0x8000_0000 * FILETIME_PER_SEC, ftime - TIME_T_ZERO, FILETIME_PER_SEC);
  }

  /**
   * The result counts the whole seconds elapsed since 1970 plus the
   * correction: the ticks since `TIME_T_ZERO`, shifted by the correction,
   * fall within that second.
   */
  lemma WholeSecondsSince1970(ftime: nat, correctTZ: int, abi: Abi)
    requires ftime < U64_MODULUS && ValidCorrection(correctTZ)
    requires FileTimeToTimeT(ftime, correctTZ, abi).Success?
    ensures var t := FileTimeToTimeT(ftime, correctTZ, abi).value;
      t * FILETIME_PER_SEC <= ftime - TIME_T_ZERO + correctTZ * HOUR_SEC * FILETIME_PER_SEC
                            < (t + 1) * FILETIME_PER_SEC
  {
  }

  /** 1970-01-01 00:00:00 with no correction is Unix time 0. */
  lemma EpochIsZero(abi: Abi)
    ensures FileTimeToTimeT(TIME_T_ZERO, 0, abi) == Success(0)
  {
  }

  /** Every further `FILETIME_PER_SEC` ticks add exactly one second. */
  lemma OneSecondPerTenMillionTicks(ftime: nat, correctTZ: int, abi: Abi)
    requires ftime + FILETIME_PER_SEC < U64_MODULUS && ValidCorrection(correctTZ)
    requires FileTimeToTimeT(ftime, correctTZ, abi).Success?
    requires FileTimeToTimeT(ftime + FILETIME_PER_SEC, correctTZ, abi).Success?
    ensures FileTimeToTimeT(ftime + FILETIME_PER_SEC, correctTZ, abi).value
            == FileTimeToTimeT(ftime, correctTZ, abi).value + 1
  {
    var d := ftime - TIME_T_ZERO;
    assert (d + FILETIME_PER_SEC) / FILETIME_PER_SEC == d / FILETIME_PER_SEC + 1;
  }

  /** Each hour of correction shifts the result by `HOUR_SEC` seconds. */
  lemma OneHourPerCorrection(ftime: nat, correctTZ: int, abi: Abi)
    requires ftime < U64_MODULUS
    requires ValidCorrection(correctTZ) && ValidCorrection(correctTZ + 1)
    requires FileTimeToTimeT(ftime, correctTZ, abi).Success?
    requires FileTimeToTimeT(ftime, correctTZ + 1, abi).Success?
    ensures FileTimeToTimeT(ftime, correctTZ + 1, abi).value
            == FileTimeToTimeT(ftime, correctTZ, abi).value + HOUR_SEC
  {
  }

  /** Later tick counts never give earlier times. */
  lemma Monotonic(f1: nat, f2: nat, correctTZ: int, abi: Abi)
    requires f1 <= f2 < U64_MODULUS && ValidCorrection(correctTZ)
    requires FileTimeToTimeT(f1, correctTZ, abi).Success? && FileTimeToTimeT(f2, correctTZ, abi).Success?
    ensures FileTimeToTimeT(f1, correctTZ, abi).value <= FileTimeToTimeT(f2, correctTZ, abi).value
  {
    DivMonotonic(f1 - TIME_T_ZERO, f2 - TIME_T_ZERO, FILETIME_PER_SEC);
  }

  lemma DivMonotonic(a: nat, b: nat, d: nat)
    requires a <= b && d > 0
    ensures a / d <= b / d
  {
    var qa, qb := a / d, b / d;
    assert qa * d <= a;
    assert b < (qb + 1) * d;
    assert qa * d < (qb + 1) * d;
  }

  /**
   * The `(time_t)` cast of a 64-bit pattern: its low `time_t` bits read in
   * two's complement, as GCC converts to a narrower signed type.
   */
  function ToTimeT(bits: nat, abi: Abi): (t: int)
    requires bits < U64_MODULUS
    ensures IsTimeT(abi, t)
    ensures (t - bits) % (2 * TimeTHalf(abi)) == 0
  {
    var low := bits % (2 * TimeTHalf(abi));
    if low < TimeTHalf(abi) then low else low - 2 * TimeTHalf(abi)
  }

  /**
   * `FileTime2Time_T` exactly as the C code evaluates it: the subtraction
   * and the addition of the correction wrap modulo 2^64 (the correction
   * is converted to `unsigned long long`), then the sum is cast to `time_t`.
   */
  function FileTimeToTimeTAsWritten(ftime: nat, correctTZ: int, abi: Abi): (t: int)
    requires ftime < U64_MODULUS && ValidCorrection(correctTZ)
    ensures IsTimeT(abi, t)
  {
    var elapsed := (ftime - TIME_T_ZERO) % U64_MODULUS;
    ToTimeT((elapsed / FILETIME_PER_SEC + correctTZ * HOUR_SEC) % U64_MODULUS, abi)
  }

  /** Wherever the checked conversion succeeds, the C arithmetic agrees with it. */
  lemma AsWrittenAgreesWhereDefined(ftime: nat, correctTZ: int, abi: Abi)
    requires ftime < U64_MODULUS && ValidCorrection(correctTZ)
    requires FileTimeToTimeT(ftime, correctTZ, abi).Success?
    ensures FileTimeToTimeTAsWritten(ftime, correctTZ, abi) == FileTimeToTimeT(ftime, correctTZ, abi).value
  {
    var sum := (ftime - TIME_T_ZERO) / FILETIME_PER_SEC + correctTZ * HOUR_SEC;
    assert (ftime - TIME_T_ZERO) % U64_MODULUS == ftime - TIME_T_ZERO;
    WrappedSumCast(sum, abi);
  }

  /** A sum in `time_t`'s range survives the wrap modulo 2^64 and the cast. */
  lemma WrappedSumCast(sum: int, abi: Abi)
    requires IsTimeT(abi, sum)
    ensures ToTimeT(sum % U64_MODULUS, abi) == sum
  {
    Pow256ULong(abi);
    if sum >= 0 {
      assert sum % U64_MODULUS == sum;
    } else {
      assert sum % U64_MODULUS == sum + U64_MODULUS;
      if abi == ILP32 {
        assert sum + U64_MODULUS == (sum + 0x1_0000_0000) + 0x1_0000_0000 * 0xFFFF_FFFF;
      }
    }
  }

  /**
   * One second before 1970 the C arithmetic wraps: the result lies after
   * the result for 1970 itself, so the conversion is not monotonic.
   */
  lemma AsWrittenWrapsBefore1970()
    ensures FileTimeToTimeTAsWritten(TIME_T_ZERO - FILETIME_PER_SEC, 0, LP64) == 1844674407369
    ensures FileTimeToTimeTAsWritten(TIME_T_ZERO, 0, LP64) == 0
    ensures FileTimeToTimeTAsWritten(TIME_T_ZERO - FILETIME_PER_SEC, 0, LP64)
            > FileTimeToTimeTAsWritten(TIME_T_ZERO, 0, LP64)
  {
    var elapsed := (TIME_T_ZERO - FILETIME_PER_SEC - TIME_T_ZERO) % U64_MODULUS;
    assert elapsed == U64_MODULUS - FILETIME_PER_SEC;
  }

  /**
   * With a 32-bit `time_t` the cast wraps 2^31 seconds after 1970: that
   * second comes out as the earliest time `time_t` holds, before the
   * second just ahead of it.
   */
  lemma AsWrittenWrapsIn2038()
    ensures FileTimeToTimeTAsWritten(TIME_T_ZERO + 0x7FFF_FFFF * FILETIME_PER_SEC, 0, ILP32) == 0x7FFF_FFFF
    ensures FileTimeToTimeTAsWritten(TIME_T_ZERO + 0x8000_0000 * FILETIME_PER_SEC, 0, ILP32) == -0x8000_0000
  {
  }
}
