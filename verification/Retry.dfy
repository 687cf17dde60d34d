/** The retry loop with full-jitter exponential backoff. */
module Retry {
  import opened Types

  datatype Attempt<+T, +E> = Success(value: T) | Transient(error: E) | Fatal(error: E)

  /** Delays in milliseconds. */
  datatype Config = Config(maxAttempts: nat, baseDelay: nat, maxDelay: nat)

  function Min(a: nat, b: nat): nat {
    if a < b then a else b
  }

  function Pow2(k: nat): (p: nat)
    ensures p >= 1
  {
    if k == 0 then 1 else 2 * Pow2(k - 1)
  }

  /** u64 saturating multiplication. */
  function SaturatingMul(a: nat, b: nat): nat {
    Min(a * b, U64_SIZE - 1)
  }

  /** The jitter window of a 1-based attempt: u64 arithmetic, the shift capped at 10, and
      both durations cut to u64 milliseconds. */
  function Window(c: Config, attempt: nat): nat
    requires attempt >= 1
  {
    Min(SaturatingMul(c.baseDelay % U64_SIZE, Pow2(Min(attempt - 1, 10))), c.maxDelay % U64_SIZE)
  }

  /** Neither saturation nor the cut shows, for delays that fit 64 bits. */
  lemma WindowIsExact(c: Config, attempt: nat)
    requires attempt >= 1 && c.baseDelay < U64_SIZE && c.maxDelay < U64_SIZE
    ensures Window(c, attempt) == Min(c.maxDelay, c.baseDelay * Pow2(Min(attempt - 1, 10)))
  {
    assert c.baseDelay % U64_SIZE == c.baseDelay && c.maxDelay % U64_SIZE == c.maxDelay;
  }

  lemma {:induction false} Pow2Grows(a: nat, b: nat)
    requires a <= b
    ensures Pow2(a) <= Pow2(b)
  {
    if a < b { Pow2Grows(a, b - 1); }
  }

  lemma ScaleGrows(x: nat, a: nat, b: nat)
    requires a <= b
    ensures x * a <= x * b
  {
  }

  lemma WindowsGrow(c: Config, a: nat, b: nat)
    requires 1 <= a <= b
    ensures Window(c, a) <= Window(c, b)
  {
    Pow2Grows(Min(a - 1, 10), Min(b - 1, 10));
    ScaleGrows(c.baseDelay % U64_SIZE, Pow2(Min(a - 1, 10)), Pow2(Min(b - 1, 10)));
  }

  /** What the first `n` sleeps can add up to. */
  function Sleeps(c: Config, n: nat): nat {
    if n == 0 then 0 else Sleeps(c, n - 1) + Window(c, n)
  }

  lemma MinusOne(x: nat, p: nat)
    requires p >= 1
    ensures x * (2 * p - 1) == x * (p - 1) + x * p
  {
  }

  lemma WindowBounded(c: Config, attempt: nat)
    requires attempt >= 1
    ensures Window(c, attempt) <= c.maxDelay
    ensures Window(c, attempt) <= c.baseDelay * Pow2(attempt - 1)
  {
    var b, p := c.baseDelay % U64_SIZE, Pow2(Min(attempt - 1, 10));
    Pow2Grows(Min(attempt - 1, 10), attempt - 1);
    ScaleGrows(b, p, Pow2(attempt - 1));
    ScaleGrows(Pow2(attempt - 1), b, c.baseDelay);
  }

  lemma {:induction false} SleepsLinear(c: Config, n: nat)
    ensures Sleeps(c, n) <= n * c.maxDelay
  {
    if n > 0 {
      SleepsLinear(c, n - 1);
      WindowBounded(c, n);
      assert n * c.maxDelay == (n - 1) * c.maxDelay + c.maxDelay;
    }
  }

  lemma {:induction false} SleepsGeometric(c: Config, n: nat)
    ensures Sleeps(c, n) <= c.baseDelay * (Pow2(n) - 1)
  {
    if n > 0 {
      SleepsGeometric(c, n - 1);
      WindowBounded(c, n);
      MinusOne(c.baseDelay, Pow2(n - 1));
    }
  }

  lemma {:induction false} SleepsGrow(c: Config, m: nat, n: nat)
    requires m <= n
    ensures Sleeps(c, m) <= Sleeps(c, n)
  {
    if m < n { SleepsGrow(c, m, n - 1); }
  }

  function ResultOf<T, E>(a: Attempt<T, E>): Result<T, E> {
    match a
    case Success(v) => Ok(v)
    case Transient(e) => Err(e)
    case Fatal(e) => Err(e)
  }

  /** A draw from the whole window, its end included. */
  function Cut(draw: nat, window: nat): nat {
    draw % (window + 1)
  }

  /** What the sleeps after the first `n` calls add up to: each is a draw cut to its window. */
  function Slept(c: Config, draws: nat -> nat, n: nat): nat {
    if n == 0 then 0 else Slept(c, draws, n - 1) + Cut(draws(n), Window(c, n))
  }

  lemma {:induction false} SleptWithin(c: Config, draws: nat -> nat, n: nat)
    ensures Slept(c, draws, n) <= Sleeps(c, n)
  {
    if n > 0 { SleptWithin(c, draws, n - 1); }
  }

  /** The longest that `n` sleeps can take. */
  function Budget(c: Config, n: nat): nat {
    Min(n * c.maxDelay, c.baseDelay * (Pow2(n) - 1))
  }

  lemma SleptBounded(c: Config, draws: nat -> nat, n: nat, attempts: nat)
    requires n <= attempts
    ensures Slept(c, draws, n) <= Budget(c, attempts)
  {
    SleptWithin(c, draws, n);
    SleepsGrow(c, n, attempts);
    SleepsLinear(c, attempts);
    SleepsGeometric(c, attempts);
  }

  /** `attempts(i)` is what the i-th call answers and `draws(i)` the i-th random number. The
      source computes max_attempts + 1 in u32. */
  method RetryWithBackoff<T, E>(c: Config, attempts: nat -> Attempt<T, E>, draws: nat -> nat)
    returns (r: Result<T, E>, calls: nat, slept: nat)
    requires c.maxAttempts < 0xFFFF_FFFF
    ensures 1 <= calls <= c.maxAttempts + 1
    ensures forall i | 1 <= i < calls :: attempts(i).Transient?
    ensures attempts(calls).Transient? ==> calls == c.maxAttempts + 1
    ensures r == ResultOf(attempts(calls))
    ensures slept == Slept(c, draws, calls - 1)
    ensures slept <= Budget(c, c.maxAttempts)
  {
    var maxTotal := c.maxAttempts + 1;
    calls, slept := 0, 0;
    while calls < maxTotal
      invariant calls < maxTotal && slept == Slept(c, draws, calls)
      invariant forall i | 1 <= i <= calls :: attempts(i).Transient?
    {
      calls := calls + 1;
      SleptBounded(c, draws, calls - 1, c.maxAttempts);
      match attempts(calls) {
        case Success(v) => return Ok(v), calls, slept;
        case Fatal(e) => return Err(e), calls, slept;
        case Transient(e) =>
          if calls == maxTotal { return Err(e), calls, slept; }
          var window := Window(c, calls);
          slept := slept + if window > 0 then Cut(draws(calls), window) else 0;
      }
    }
    assert false;
  }
}
