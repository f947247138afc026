/** The retry delays of go/resilience.go:152, 179-188 in exact arithmetic, in nanoseconds. The jitter is
    random, so it is an input; so is what the conversion of a product that does not fit an int64 gives,
    which Go leaves to the implementation. */
module GoBackoff {
  import opened Words
  import Backoff

  /** One draw of the jitter, and the implementation's answer should the conversion overflow. */
  datatype Draw = Draw(jitter: real, converted: int)

  predicate Fair(d: Draw) {
    0.75 <= d.jitter < 1.25
  }

  /** int(1) << (attempt - 1) on 64 bits. */
  function Factor(attempt: nat): int {
    if 1 <= attempt <= 63 then Backoff.Pow2(attempt - 1)
    else if attempt == 64 then -MAX_INT64 - 1
    else 0
  }

  /** The delay before the conversion to a duration. */
  function Exact(base: int, attempt: nat, d: Draw): real {
    Jittered(base * Factor(attempt), d.jitter)
  }

  function Jittered(n: int, jitter: real): real {
    n as real * jitter
  }

  /** The conversion to an int64 drops the fraction; a timer that is not positive fires at once. */
  function Rounded(x: real, converted: int): nat {
    var ns := if Fits(x) then x.Floor else converted;
    if ns < 0 then 0 else ns
  }

  predicate Fits(x: real) {
    (-MAX_INT64 - 2) as real < x < (MAX_INT64 + 1) as real
  }

  /** How long the loop waits. */
  function Wait(base: int, attempt: nat, d: Draw): nat {
    Rounded(Exact(base, attempt, d), d.converted)
  }

  /** The wait of n retries. */
  function TotalWait(base: int, draws: nat -> Draw, n: nat): nat {
    if n == 0 then 0 else TotalWait(base, draws, n - 1) + Wait(base, n, draws(n))
  }

  lemma Scaled(n: nat, j: real)
    requires 0.75 <= j < 1.25
    ensures 0.75 * (n as real) <= Jittered(n, j) <= 1.25 * (n as real)
  {
    var x := n as real;
    NotNegative(x, j - 0.75);
    NotNegative(x, 1.25 - j);
    assert x * (j - 0.75) == x * j - 0.75 * x && x * (1.25 - j) == 1.25 * x - x * j;
  }

  lemma NotNegative(x: real, y: real)
    requires x >= 0.0 && y >= 0.0
    ensures x * y >= 0.0
  {
  }

  lemma RoundedWithin(x: real, p: real, converted: int)
    requires x >= 0.0 && 0.75 * x <= p <= 1.25 * x && 5.0 * x <= 4.0 * (MAX_INT64 as real)
    ensures 0.75 * x - 1.0 <= Rounded(p, converted) as real <= 1.25 * x
  {
    assert 0.0 <= p < (MAX_INT64 + 1) as real;
  }

  /** The wait is the exact product without its fraction, whatever the implementation does on overflow,
      if and only if the product fits an int64; a product below zero does not wait. */
  lemma WaitIsRoundedIff(base: int, attempt: nat, jitter: real)
    ensures var x := Exact(base, attempt, Draw(jitter, 0));
            (forall converted :: Wait(base, attempt, Draw(jitter, converted)) == if x < 0.0 then 0 else x.Floor) <==> Fits(x)
  {
    hide Factor, Jittered;
    var x := Exact(base, attempt, Draw(jitter, 0));
    var other := (if x < 0.0 then 0 else x.Floor) + 1;
    assert !Fits(x) ==> Wait(base, attempt, Draw(jitter, other)) == other;
    assert forall converted :: Exact(base, attempt, Draw(jitter, converted)) == x;
  }

  lemma WaitIsRounded(base: nat, n: nat, d: Draw, doubled: nat)
    requires 1 <= n <= 63 && doubled == base * Backoff.Pow2(n - 1)
    ensures Wait(base, n, d) == Rounded(Jittered(doubled, d.jitter), d.converted)
  {
    hide Jittered, Rounded, Backoff.Pow2;
  }

  lemma JitteredProduct(m: nat, j: real)
    requires j >= 0.0
    ensures Jittered(m, j) == m as real * j >= 0.0
  {
    NotNegative(m as real, j);
  }

  lemma RoundedFits(x: real, converted: int)
    requires 0.0 <= x
    ensures x < 9_223_372_036_854_775_808.0 ==> Rounded(x, converted) == x.Floor
    ensures x >= 9_223_372_036_854_775_808.0 ==> Rounded(x, converted) == if converted < 0 then 0 else converted
  {
  }

  /** Every wait in numbers: before retry n, base * 2^(n-1) nanoseconds times the jitter drawn, rounded
      down, if that fits an int64. */
  lemma WaitInNumbers(base: nat, n: nat, d: Draw, x: real)
    requires 1 <= n <= 63 && d.jitter >= 0.0
    requires x == (base * Backoff.Pow2(n - 1)) as real * d.jitter
    ensures x < 9_223_372_036_854_775_808.0 ==> Wait(base, n, d) == x.Floor
    ensures x >= 9_223_372_036_854_775_808.0 ==> Wait(base, n, d) == if d.converted < 0 then 0 else d.converted
  {
    NonNegative(base, Backoff.Pow2(n - 1));
    WaitOfProduct(base, n, d, base * Backoff.Pow2(n - 1), x);
    hide *;
  }

  lemma WaitOfProduct(base: nat, n: nat, d: Draw, doubled: nat, x: real)
    requires 1 <= n <= 63 && d.jitter >= 0.0
    requires doubled == base * Backoff.Pow2(n - 1) && x == doubled as real * d.jitter
    ensures x < 9_223_372_036_854_775_808.0 ==> Wait(base, n, d) == x.Floor
    ensures x >= 9_223_372_036_854_775_808.0 ==> Wait(base, n, d) == if d.converted < 0 then 0 else d.converted
  {
    JitteredProduct(doubled, d.jitter);
    hide Jittered, Backoff.Pow2;
    WaitIsRounded(base, n, d, doubled);
    hide Wait, Rounded;
    RoundedFits(x, d.converted);
  }

  /** Before retry 64 the factor is the least int64, so the product is negative: no wait while it fits.
      From retry 65 on the factor is zero. */
  lemma LateWaits(base: nat, n: nat, d: Draw, x: real)
    requires n >= 64 && x == (base * -9_223_372_036_854_775_808) as real * d.jitter
    ensures n == 64 && -9_223_372_036_854_775_809.0 < x <= 0.0 ==> Wait(base, n, d) == 0
    ensures n == 64 && x <= -9_223_372_036_854_775_809.0 ==> Wait(base, n, d) == if d.converted < 0 then 0 else d.converted
    ensures n > 64 ==> Wait(base, n, d) == 0
  {
    if n > 64 {
      assert base * Factor(n) == 0;
    } else {
      assert Exact(base, n, d) == x;
      hide Exact;
    }
  }

  /** A base of 100 ms and a jitter of 1.2 wait 120, 240 and 480 ms. */
  lemma FirstWaits(d: Draw)
    requires d.jitter == 1.2
    ensures Wait(100_000_000, 1, d) == 120_000_000
    ensures Wait(100_000_000, 2, d) == 240_000_000
    ensures Wait(100_000_000, 3, d) == 480_000_000
  {
    assert Factor(1) == 1 && Factor(2) == 2 && Factor(3) == 4;
    hide Factor;
  }

  /** A base that overflowed to a negative number does not wait. */
  function Positive(base: int): nat {
    if base < 0 then 0 else base
  }

  /** The product fits whatever jitter is drawn. */
  predicate Sure(base: int, attempt: nat) {
    attempt <= 63 && 5 * (Positive(base) * Factor(attempt)) <= 4 * MAX_INT64 && 5 * (Positive(-base) * Factor(attempt)) <= 4 * MAX_INT64
  }

  /** The first waits of n whose products surely fit. */
  function SureWaits(base: int, n: nat): (m: nat)
    ensures m <= n && m <= 63 && (m > 0 ==> Sure(base, m))
  {
    if n == 0 then 0
    else
      var m := SureWaits(base, n - 1);
      if m == n - 1 && Sure(base, n) then n else m
  }

  lemma NegativeProduct(base: int, f: nat, d: Draw)
    requires Fair(d) && base <= 0 && 5 * ((-base) * f) <= 4 * MAX_INT64
    ensures Rounded(Jittered(base * f, d.jitter), d.converted) == 0
  {
    NonNegative(-base, f);
    var n: int := (-base) * f;
    Scaled(n, d.jitter);
    assert base * f == -n;
    assert Jittered(-n, d.jitter) == -Jittered(n, d.jitter);
    hide Jittered;
    var p := Jittered(n, d.jitter);
    assert 0.0 <= p <= 1.25 * (n as real) <= MAX_INT64 as real;
    assert Rounded(-p, d.converted) == 0 by { RoundedNegative(p, d.converted); }
  }

  lemma RoundedNegative(p: real, converted: int)
    requires 0.0 <= p <= MAX_INT64 as real
    ensures Rounded(-p, converted) == 0
  {
  }

  lemma WaitIsScaled(base: int, attempt: nat, d: Draw)
    requires Fair(d) && attempt >= 1 && Sure(base, attempt)
    ensures var x := (Positive(base) * Factor(attempt)) as real;
            0.75 * x - 1.0 <= Wait(base, attempt, d) as real <= 1.25 * x
  {
    var f := Factor(attempt);
    assert f >= 0;
    hide Factor, Rounded, Jittered;
    if base <= 0 {
      NegativeProduct(base, f, d);
      assert Positive(base) * f == 0;
    } else {
      NonNegative(base, f);
      var n := base * f;
      Scaled(n, d.jitter);
      RoundedWithin(n as real, Jittered(n, d.jitter), d.converted);
    }
  }

  lemma NonNegative(a: int, b: int)
    requires a >= 0 && b >= 0
    ensures a * b >= 0
  {
  }

  lemma Sum(t: int, w: int, n: int, a: int, f: int)
    requires 0.75 * (a as real) - (n - 1) as real <= t as real <= 1.25 * (a as real)
    requires 0.75 * (f as real) - 1.0 <= w as real <= 1.25 * (f as real)
    ensures 0.75 * ((a + f) as real) - n as real <= (t + w) as real <= 1.25 * ((a + f) as real)
  {
  }

  lemma FactorGrows(base: nat, attempt: nat)
    requires 1 <= attempt <= 63
    ensures 0 <= base * Factor(attempt - 1) <= base * Factor(attempt)
    ensures base * (Backoff.Pow2(attempt) - 1) == base * (Backoff.Pow2(attempt - 1) - 1) + base * Factor(attempt)
  {
    Backoff.Doubling(base, attempt);
    Backoff.ScaleLess(base, 0, Factor(attempt - 1));
    Backoff.ScaleLess(base, Factor(attempt - 1), Factor(attempt));
  }

  lemma {:induction false} SureWaitBounds(base: int, draws: nat -> Draw, n: nat)
    requires SureWaits(base, n) == n && forall i | 1 <= i <= n :: Fair(draws(i))
    ensures var x := (Positive(base) * (Backoff.Pow2(n) - 1)) as real;
            0.75 * x - n as real <= TotalWait(base, draws, n) as real <= 1.25 * x
  {
    if n >= 1 {
      var b := Positive(base);
      FactorGrows(b, n);
      SureWaitBounds(base, draws, n - 1);
      WaitIsScaled(base, n, draws(n));
      hide Wait, Factor, Fair, Backoff.Pow2, Positive, Sure;
      Sum(TotalWait(base, draws, n - 1), Wait(base, n, draws(n)), n, b * (Backoff.Pow2(n - 1) - 1), b * Factor(n));
    }
  }

  lemma {:induction false} SureWaitsAreFirst(base: int, n: nat)
    ensures var m := SureWaits(base, n); SureWaits(base, m) == m
  {
    if n > 0 {
      SureWaitsAreFirst(base, n - 1);
    }
  }

  lemma {:induction false} WaitsAddUp(base: int, draws: nat -> Draw, m: nat, n: nat)
    requires m <= n
    ensures TotalWait(base, draws, m) <= TotalWait(base, draws, n)
    ensures m >= 64 ==> TotalWait(base, draws, m) == TotalWait(base, draws, n)
  {
    if m < n {
      WaitsAddUp(base, draws, m, n - 1);
      if m >= 64 {
        assert base * Factor(n) == 0;
        assert Wait(base, n, draws(n)) == 0;
      }
      hide Wait;
    }
  }

  /** Whatever jitter is drawn and however an overflow is converted: the first m of n waits, those whose
      products surely fit an int64, take between 0.75 * base * (2^m - 1) - m and 1.25 * base * (2^m - 1)
      nanoseconds, the rest never shortens the total, and from the 65th on nobody waits. */
  lemma TotalWaitBounds(base: int, draws: nat -> Draw, n: nat)
    requires forall i | 1 <= i <= n :: Fair(draws(i))
    ensures var m := SureWaits(base, n);
            var x := (Positive(base) * (Backoff.Pow2(m) - 1)) as real;
            && 0.75 * x - m as real <= TotalWait(base, draws, m) as real <= 1.25 * x
            && TotalWait(base, draws, m) <= TotalWait(base, draws, n)
    ensures n >= 64 ==> TotalWait(base, draws, n) == TotalWait(base, draws, 64)
  {
    var m := SureWaits(base, n);
    SureWaitsAreFirst(base, n);
    SureWaitBounds(base, draws, m);
    WaitsAddUp(base, draws, m, n);
    if n >= 64 {
      WaitsAddUp(base, draws, 64, n);
    }
    hide TotalWait, SureWaits, Backoff.Pow2;
  }
}
