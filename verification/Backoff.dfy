/** The retry delays of rust/src/resilience.rs:163-169 in exact arithmetic, in milliseconds. */
module Backoff {

  import opened Words

  function Pow2(n: nat): (r: nat)
    ensures r >= 1
  {
    if n == 0 then 1 else 2 * Pow2(n - 1)
  }

  /** 2u64.pow(attempt - 1), which overflows to zero in a release build from attempt 65 on, and for a
      counter that wrapped to zero. */
  function Factor(attempt: nat): nat {
    if 1 <= attempt <= 64 then Pow2(attempt - 1) else 0
  }

  /** The jitter in hundredths. */
  function Jitter(attempt: nat): (j: nat)
    ensures 75 <= j <= 124
  {
    75 + (137 * attempt) % 50
  }

  function Times(a: nat, b: nat): nat {
    a * b
  }

  /** The delay before rounding, in hundredths of a millisecond. */
  function Raw(base: nat, attempt: nat): nat {
    Times(Times(base, Factor(attempt)), Jitter(attempt))
  }

  /** The conversion to u64 drops the fraction and saturates. */
  function Delay(base: nat, attempt: nat): nat {
    if Raw(base, attempt) / 100 > U64_MAX then U64_MAX else Raw(base, attempt) / 100
  }

  /** The value of the attempt counter after r attempts: a u32, which wraps around in a release build. */
  function Counted(r: nat): (n: nat)
    ensures r < TWO32 ==> n == r
  {
    r % TWO32
  }

  /** The sleep of r retries. */
  function TotalSleep(base: nat, r: nat): nat {
    if r == 0 then 0 else TotalSleep(base, r - 1) + Delay(base, Counted(r))
  }

  lemma SleepStep(base: nat, r: nat)
    requires 1 <= r < TWO32
    ensures TotalSleep(base, r) == TotalSleep(base, r - 1) + Delay(base, r)
  {
    hide Counted, Delay;
  }

  /** The retries among r whose factor is not zero, before the counter wraps. */
  function Doublings(r: nat): nat {
    if r <= 64 then r else 64
  }

  lemma ScaleLess(x: nat, a: nat, b: nat)
    requires a <= b
    ensures x * a <= x * b
  {
  }

  /** Within 64 retries the jitter never undoes the doubling. */
  lemma RawGrows(base: nat, attempt: nat)
    requires 1 <= attempt < 64
    ensures Raw(base, attempt) <= Raw(base, attempt + 1)
  {
    assert Factor(attempt + 1) == 2 * Factor(attempt);
    hide Pow2, Factor, Jitter;
    var f, j, next := Factor(attempt), Jitter(attempt), Jitter(attempt + 1);
    Doubled(base, f, next);
    ScaleLess(base * f, j, 2 * next);
  }

  lemma Doubled(base: nat, f: nat, j: nat)
    ensures base * (2 * f) * j == (base * f) * (2 * j)
  {
    var x := base * f;
    assert base * (2 * f) == 2 * x;
    assert (2 * x) * j == x * (2 * j);
  }

  lemma Pow2Grows(m: nat, n: nat)
    requires m <= n
    ensures Pow2(m) <= Pow2(n)
  {
  }

  lemma LongestDelayIsPositive(base: nat)
    requires base > 0
    ensures Raw(base, 64) >= 128 * 75
  {
    Pow2Grows(7, 63);
    hide Jitter;
    ScaleLess(Factor(64), 1, base);
    ScaleLess(base * Factor(64), 75, Jitter(64));
  }

  /** Delays never decrease, except from attempt 64 to attempt 65, where the factor overflows (and
      except that a zero base never sleeps at all). */
  lemma DelaysNeverDecrease(base: nat, attempt: nat)
    requires attempt >= 1
    ensures Delay(base, attempt) <= Delay(base, attempt + 1) <==> attempt != 64 || base == 0
  {
    if attempt < 64 {
      RawGrows(base, attempt);
    } else if attempt == 64 && base > 0 {
      LongestDelayIsPositive(base);
    }
  }

  lemma Doubling(base: nat, r: nat)
    requires 1 <= r <= 64
    ensures base * (Pow2(r) - 1) == base * (Pow2(r - 1) - 1) + base * Factor(r)
  {
    var p := Pow2(r - 1);
    assert base * (2 * p - 1) == base * (p - 1) + base * p;
  }

  /** The exact delay is never exceeded, and it is only rounded down, exactly while it fits a u64:
      beyond that the conversion saturates. */
  lemma DelayIsRoundedIff(base: nat, attempt: nat)
    ensures 100 * Delay(base, attempt) <= Raw(base, attempt)
    ensures Raw(base, attempt) < 100 * (Delay(base, attempt) + 1) <==> Raw(base, attempt) / 100 <= U64_MAX
  {
    hide Raw;
    var raw := Raw(base, attempt);
    assert 100 * (raw / 100) <= raw < 100 * (raw / 100 + 1);
  }

  lemma NoDelay(base: nat, attempt: nat)
    requires attempt == 0 || attempt > 64
    ensures Raw(base, attempt) == Delay(base, attempt) == 0
  {
    hide Pow2, Jitter;
    assert base * Factor(attempt) == 0;
  }

  lemma DelayIsScaled(base: nat, attempt: nat)
    requires 1 <= attempt <= 64
    ensures 100 * Delay(base, attempt) <= 124 * (base * Factor(attempt))
    ensures Raw(base, attempt) / 100 <= U64_MAX ==> 100 * (Delay(base, attempt) + 1) >= 75 * (base * Factor(attempt))
  {
    DelayIsRoundedIff(base, attempt);
    ScaleLess(base * Factor(attempt), Jitter(attempt), 124);
    ScaleLess(base * Factor(attempt), 75, Jitter(attempt));
    hide Pow2, Factor, Jitter, Delay;
  }

  /** From the 65th retry on nobody sleeps any more. */
  lemma {:induction false} NoSleepBeyond(base: nat, r: nat)
    requires 64 <= r < TWO32
    ensures TotalSleep(base, r) == TotalSleep(base, 64)
  {
    if r > 64 {
      SleepStep(base, r);
      NoSleepBeyond(base, r - 1);
      NoDelay(base, r);
      hide TotalSleep, Delay;
    }
  }

  lemma Sum(t: int, d: int, a: int, f: int, scale: int)
    requires 100 * t <= scale * a && 100 * d <= scale * f
    ensures 100 * (t + d) <= scale * (a + f)
  {
    assert scale * (a + f) == scale * a + scale * f;
  }

  lemma {:induction false} SleepAtMost(base: nat, r: nat)
    requires r <= 64
    ensures 100 * TotalSleep(base, r) <= 124 * (base * (Pow2(r) - 1))
  {
    if r > 0 {
      SleepAtMost(base, r - 1);
      SleepStep(base, r);
      Doubling(base, r);
      DelayIsScaled(base, r);
      hide TotalSleep, Delay, Pow2, Factor, Jitter;
      var a, f := base * (Pow2(r - 1) - 1), base * Factor(r);
      Sum(TotalSleep(base, r - 1), Delay(base, r), a, f, 124);
      assert base * (Pow2(r) - 1) == a + f;
    }
  }

  /** The total sleep of r retries stays below 1.24 * base * (2^r - 1) milliseconds, and from the 64th
      on it does not grow. */
  lemma TotalSleepAtMost(base: nat, r: nat)
    requires r < TWO32
    ensures 100 * TotalSleep(base, r) <= 124 * (base * (Pow2(Doublings(r)) - 1))
  {
    SleepAtMost(base, Doublings(r));
    if r > 64 {
      NoSleepBeyond(base, r);
    }
    hide Pow2, TotalSleep;
  }

  lemma {:induction false} SleepAtLeast(base: nat, r: nat)
    requires r <= 64
    requires r > 0 ==> Raw(base, r) / 100 <= U64_MAX
    ensures 100 * (TotalSleep(base, r) + r) >= 75 * (base * (Pow2(r) - 1))
  {
    if r > 0 {
      if r > 1 {
        RawGrows(base, r - 1);
      }
      assert r == 1 || Raw(base, r - 1) / 100 <= Raw(base, r) / 100;
      SleepAtLeast(base, r - 1);
      SleepStep(base, r);
      Doubling(base, r);
      DelayIsScaled(base, r);
      hide TotalSleep, Delay, Pow2, Factor, Jitter, Raw;
    }
  }

  /** It is at least 0.75 * base * (2^r - 1) - r while the longest delay fits a u64; a longer delay
      alone sleeps the largest u64. */
  lemma TotalSleepAtLeast(base: nat, r: nat)
    requires r < TWO32
    ensures var n := Doublings(r);
            if Raw(base, n) / 100 <= U64_MAX
            then 100 * (TotalSleep(base, r) + n) >= 75 * (base * (Pow2(n) - 1))
            else TotalSleep(base, r) >= U64_MAX
  {
    var n := Doublings(r);
    if r > 64 {
      NoSleepBeyond(base, r);
    }
    if Raw(base, n) / 100 <= U64_MAX {
      SleepAtLeast(base, n);
      hide Pow2, Raw, TotalSleep;
    } else {
      NoDelay(base, 0);
      SleepStep(base, n);
      hide Raw, TotalSleep;
    }
  }

  /** Past that point the lower bound is lost: with a base of 2^63 ms the third delay saturates and
      three retries sleep less than 0.75 * base * (2^3 - 1) - 3 ms. */
  lemma SaturatedSleepIsShort()
    ensures var base := 0x8000_0000_0000_0000;
            && base <= U64_MAX
            && Raw(base, 3) / 100 > U64_MAX
            && 100 * (TotalSleep(base, 3) + 3) < 75 * (base * (Pow2(3) - 1))
  {
    var base := 0x8000_0000_0000_0000;
    SleepStep(base, 3);
    SleepStep(base, 2);
    SleepStep(base, 1);
    assert Pow2(3) == 8 && Factor(1) == 1 && Factor(2) == 2 && Factor(3) == 4;
    assert Jitter(1) == 112 && Jitter(2) == 99 && Jitter(3) == 86;
    hide Pow2, Factor, Jitter, TotalSleep;
    assert TotalSleep(base, 0) == 0 by { EmptySleep(base); }
    assert Raw(base, 1) == 112 * base && Raw(base, 2) == 198 * base && Raw(base, 3) == 344 * base;
    hide Raw;
  }

  lemma EmptySleep(base: nat)
    ensures TotalSleep(base, 0) == 0
  {
  }

  /** Every delay in numbers: attempt n sleeps base * 2^(n-1) milliseconds times 0.75 plus the hundredths
      of 37n modulo 50, rounded down, and never more than the largest u64. */
  lemma DelayInNumbers(base: nat, n: nat)
    requires 1 <= n <= 64
    ensures var d := base * Pow2(n - 1) * (75 + (37 * n) % 50) / 100;
            Delay(base, n) == if d <= 18_446_744_073_709_551_615 then d else 18_446_744_073_709_551_615
  {
    assert 137 * n == 37 * n + 50 * (2 * n);
    SameRemainder(37 * n, 2 * n);
    hide Pow2;
  }

  lemma SameRemainder(a: nat, k: nat)
    ensures (a + 50 * k) % 50 == a % 50
  {
    var q, r := a / 50, a % 50;
    assert a + 50 * k == 50 * (q + k) + r;
  }

  /** Pow2 is the power of two. */
  lemma {:induction false} Pow2Adds(m: nat, n: nat)
    ensures Pow2(1) == 2 && Pow2(m + n) == Pow2(m) * Pow2(n)
  {
    if n > 0 {
      Pow2Adds(m, n - 1);
      assert Pow2(m + n) == 2 * Pow2(m + (n - 1)) && Pow2(n) == 2 * Pow2(n - 1);
      hide Pow2;
      TimesTwice(Pow2(m), Pow2(n - 1));
    }
  }

  lemma TimesTwice(a: nat, b: nat)
    ensures a * (2 * b) == 2 * (a * b)
  {
  }

  /** The first delays for a base that a caller would choose. */
  lemma FirstDelays(base: nat)
    requires base <= 1_000_000_000_000
    ensures Delay(base, 1) == 112 * base / 100
    ensures Delay(base, 2) == 198 * base / 100
    ensures Delay(base, 3) == 344 * base / 100
    ensures Delay(base, 4) == 984 * base / 100
  {
    assert Factor(1) == 1 && Factor(2) == 2 && Factor(3) == 4 && Factor(4) == 8;
    assert Jitter(1) == 112 && Jitter(2) == 99 && Jitter(3) == 86 && Jitter(4) == 123;
    hide Factor, Jitter, Pow2;
    assert Raw(base, 1) == 112 * base && Raw(base, 2) == 198 * base;
    assert Raw(base, 3) == 344 * base && Raw(base, 4) == 984 * base;
  }
}
