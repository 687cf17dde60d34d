/** Endpoint selection by weight, over exact rationals. */
module Selection {
  import opened Types

  datatype Health = Healthy | Degraded | Unhealthy

  /** A health snapshot of one endpoint; `breakerExpired` is None when no circuit breaker is set. */
  datatype Endpoint = Endpoint(health: Health, averageMs: real, breakerExpired: Option<bool>)

  function TrafficMultiplier(h: Health): real {
    match h
    case Healthy => 1.0
    case Degraded => 0.5
    case Unhealthy => 0.0
  }

  predicate IsAvailable(x: Endpoint) {
    x.health != Unhealthy
  }

  function Score(x: Endpoint): real {
    var m := TrafficMultiplier(x.health);
    if m == 0.0 then 0.0 else 1000.0 / (if x.averageMs < 1.0 then 1.0 else x.averageMs) * m
  }

  lemma PositiveDivision(a: real, b: real)
    requires a > 0.0 && b > 0.0
    ensures a / b > 0.0
  {
  }

  /** An endpoint has weight exactly when it is available. */
  lemma ScoreSign(x: Endpoint)
    ensures Score(x) >= 0.0 && (Score(x) > 0.0 <==> IsAvailable(x))
  {
    PositiveDivision(1000.0, if x.averageMs < 1.0 then 1.0 else x.averageMs);
  }

  /** A degraded endpoint weighs half of an equally fast healthy one. */
  lemma DegradedWeighsHalf(x: Endpoint, y: Endpoint)
    requires x.health.Degraded? && y.health.Healthy? && x.averageMs == y.averageMs
    ensures 2.0 * Score(x) == Score(y)
  {
  }

  lemma Divided(a: real, b: real, m: real)
    requires b > 0.0
    ensures a / b * m * b == a * m
  {
    assert a / b * b == a;
  }

  /** Among endpoints of the same health, weight is inverse to response time from 1 ms up, and
      the same below. */
  lemma WeightIsInverse(x: Endpoint, y: Endpoint)
    requires x.health == y.health
    ensures x.averageMs >= 1.0 && y.averageMs >= 1.0 ==> Score(x) * x.averageMs == Score(y) * y.averageMs
    ensures x.averageMs <= 1.0 && y.averageMs <= 1.0 ==> Score(x) == Score(y)
    ensures x.averageMs >= 1.0 && x.health.Healthy? ==> Score(x) * x.averageMs == 1000.0
  {
    var m := TrafficMultiplier(x.health);
    if x.averageMs >= 1.0 { Divided(1000.0, x.averageMs, m); }
    if y.averageMs >= 1.0 { Divided(1000.0, y.averageMs, m); }
  }

  /** Weight of the first `n` endpoints. */
  function Cumulative(xs: seq<Endpoint>, n: nat): real
    requires n <= |xs|
  {
    if n == 0 then 0.0 else Cumulative(xs, n - 1) + Score(xs[n - 1])
  }

  function Total(xs: seq<Endpoint>): real {
    Cumulative(xs, |xs|)
  }

  lemma {:induction false} CumulativeGrows(xs: seq<Endpoint>, m: nat, n: nat)
    requires m <= n <= |xs|
    ensures Cumulative(xs, m) <= Cumulative(xs, n)
    ensures (exists i | m <= i < n :: IsAvailable(xs[i])) ==> Cumulative(xs, m) < Cumulative(xs, n)
  {
    if m < n {
      ScoreSign(xs[n - 1]);
      CumulativeGrows(xs, m, n - 1);
    }
  }

  /** The thresholds that select endpoint `i`: a half-open interval as long as its score,
      and the single point zero for the first endpoint that has weight. */
  predicate Selects(xs: seq<Endpoint>, threshold: real, i: nat) {
    && i < |xs| && IsAvailable(xs[i]) && threshold <= Cumulative(xs, i + 1)
    && (Cumulative(xs, i) < threshold || (threshold == 0.0 && Cumulative(xs, i) == 0.0))
  }

  lemma SelectsNoLater(xs: seq<Endpoint>, threshold: real, i: nat, j: nat)
    requires i < j
    ensures !(Selects(xs, threshold, i) && Selects(xs, threshold, j))
  {
    if Selects(xs, threshold, i) && j < |xs| {
      CumulativeGrows(xs, 0, i);
      ScoreSign(xs[i]);
      assert Cumulative(xs, i + 1) == Cumulative(xs, i) + Score(xs[i]);
      CumulativeGrows(xs, i + 1, j);
    }
  }

  /** Each threshold selects at most one endpoint, so the choice made is the only one. */
  lemma SelectsOne(xs: seq<Endpoint>, threshold: real, i: nat, j: nat)
    ensures Selects(xs, threshold, i) && Selects(xs, threshold, j) ==> i == j
  {
    if i < j {
      SelectsNoLater(xs, threshold, i, j);
    } else if j < i {
      SelectsNoLater(xs, threshold, j, i);
    }
  }

  /** Between two thresholds inside its interval an endpoint keeps being selected, and the
      interval is as long as the score. */
  lemma IntervalIsScore(xs: seq<Endpoint>, i: nat, threshold: real)
    requires i < |xs| && IsAvailable(xs[i])
    ensures Cumulative(xs, i) < threshold <= Cumulative(xs, i) + Score(xs[i]) ==> Selects(xs, threshold, i)
    ensures threshold > 0.0 && Selects(xs, threshold, i) ==>
              Cumulative(xs, i) < threshold <= Cumulative(xs, i) + Score(xs[i])
    ensures 0.0 <= Cumulative(xs, i) && Cumulative(xs, i) + Score(xs[i]) <= Total(xs)
  {
    CumulativeGrows(xs, 0, i);
    CumulativeGrows(xs, i + 1, |xs|);
  }

  /** The first endpoint whose breaker expired, else the first of all. */
  predicate Recovers(xs: seq<Endpoint>, i: nat) {
    && i < |xs|
    && (forall j | 0 <= j < i :: xs[j].breakerExpired != Some(true))
    && (xs[i].breakerExpired == Some(true)
        || (i == 0 && forall j | 0 <= j < |xs| :: xs[j].breakerExpired != Some(true)))
  }

  /** The endpoint that a draw comes to: by weight if any has one, else for recovery. */
  predicate Drawn(xs: seq<Endpoint>, draw: real, i: nat) {
    if exists j | 0 <= j < |xs| :: IsAvailable(xs[j]) then Selects(xs, draw * Total(xs), i) else Recovers(xs, i)
  }

  method SelectCircuitBreakerRecovery(xs: seq<Endpoint>) returns (choice: Option<nat>)
    ensures xs == [] <==> choice.None?
    ensures choice.Some? ==> Recovers(xs, choice.value)
  {
    for idx := 0 to |xs|
      invariant forall j | 0 <= j < idx :: xs[j].breakerExpired != Some(true)
    {
      if xs[idx].breakerExpired == Some(true) { return Some(idx); }
    }
    choice := if xs == [] then None else Some(0);
  }

  datatype Entry = Entry(idx: nat, score: real)

  /** The endpoints among the first `n` that have weight, with their scores. */
  function Weighted(xs: seq<Endpoint>, n: nat): seq<Entry>
    requires n <= |xs|
  {
    if n == 0 then []
    else if Score(xs[n - 1]) > 0.0 then Weighted(xs, n - 1) + [Entry(n - 1, Score(xs[n - 1]))]
    else Weighted(xs, n - 1)
  }

  function Sum(entries: seq<Entry>): real {
    if entries == [] then 0.0 else Sum(entries[..|entries| - 1]) + entries[|entries| - 1].score
  }

  lemma {:induction false} SumIsCumulative(xs: seq<Endpoint>, n: nat)
    requires n <= |xs|
    ensures Sum(Weighted(xs, n)) == Cumulative(xs, n)
  {
    if n > 0 {
      SumIsCumulative(xs, n - 1);
      ScoreSign(xs[n - 1]);
      var before, all := Weighted(xs, n - 1), Weighted(xs, n);
      assert all != before ==> all[..|all| - 1] == before;
    }
  }

  lemma {:induction false} EntryAt(xs: seq<Endpoint>, n: nat, k: nat)
    requires n <= |xs| && k < |Weighted(xs, n)|
    ensures var x := Weighted(xs, n)[k];
            && x.idx < n && IsAvailable(xs[x.idx]) && x.score == Score(xs[x.idx])
            && Weighted(xs, n)[..k] == Weighted(xs, x.idx)
  {
    var before := Weighted(xs, n - 1);
    if k < |before| {
      EntryAt(xs, n - 1, k);
      assert Weighted(xs, n)[..k] == before[..k];
    } else {
      ScoreSign(xs[n - 1]);
      assert Weighted(xs, n)[..k] == before;
    }
  }

  lemma {:induction false} NoEntry(xs: seq<Endpoint>, n: nat)
    requires n <= |xs| && Weighted(xs, n) == []
    ensures forall i | 0 <= i < n :: !IsAvailable(xs[i])
  {
    if n > 0 {
      ScoreSign(xs[n - 1]);
      NoEntry(xs, n - 1);
    }
  }

  /** The wheel stops at the first entry whose running total reaches the threshold; the last
      entry stands in should none do. */
  method Spin(xs: seq<Endpoint>, scored: seq<Entry>, threshold: real) returns (selected: nat, fellBack: bool)
    requires scored == Weighted(xs, |xs|) != [] && 0.0 <= threshold <= Total(xs)
    ensures Selects(xs, threshold, selected)
    ensures !fellBack
  {
    EntryAt(xs, |xs|, |scored| - 1);
    SumIsCumulative(xs, |xs|);
    var last := scored[|scored| - 1].idx;
    assert scored[..|scored|] == scored;
    var cumulative, k := 0.0, 0;
    selected, fellBack := 0, false;
    var found := false;
    while k < |scored| && !found
      invariant 0 <= k <= |scored|
      invariant !found ==> cumulative == Sum(scored[..k]) && (k > 0 ==> cumulative < threshold)
      invariant found ==> Selects(xs, threshold, selected) && cumulative >= threshold
      decreases |scored| - k, !found
    {
      EntryAt(xs, |xs|, k);
      SumIsCumulative(xs, scored[k].idx);
      assert scored[..k + 1][..k] == scored[..k];
      cumulative := cumulative + scored[k].score;
      if cumulative >= threshold {
        selected, found := scored[k].idx, true;
      } else {
        k := k + 1;
      }
    }
    if cumulative < threshold {
      selected, fellBack := last, true;
    }
  }

  /** Lists the endpoints that have weight and adds their scores up. */
  method Collect(xs: seq<Endpoint>) returns (scored: seq<Entry>, total: real)
    ensures scored == Weighted(xs, |xs|) && total == Total(xs) >= 0.0
    ensures scored == [] ==> forall i | 0 <= i < |xs| :: !IsAvailable(xs[i])
  {
    scored, total := [], 0.0;
    for idx := 0 to |xs|
      invariant total == Cumulative(xs, idx) && scored == Weighted(xs, idx)
    {
      var score := Score(xs[idx]);
      ScoreSign(xs[idx]);
      if score > 0.0 { scored := scored + [Entry(idx, score)]; }
      total := total + score;
    }
    CumulativeGrows(xs, 0, |xs|);
    if scored == [] { NoEntry(xs, |xs|); }
  }

  /** Roulette wheel. `draw` is the random number in [0, 1). */
  method SelectByWeightedScore(xs: seq<Endpoint>, draw: real) returns (choice: Option<nat>, fellBack: bool)
    requires 0.0 <= draw < 1.0
    ensures xs == [] <==> choice.None?
    ensures choice.Some? ==> Drawn(xs, draw, choice.value)
    ensures !fellBack
  {
    fellBack := false;
    if xs == [] { return None, false; }
    var scored, total := Collect(xs);
    if scored == [] {
      choice := SelectCircuitBreakerRecovery(xs);
    } else {
      choice, fellBack := SpinAt(xs, scored, draw, total);
    }
  }

  /** Turns a draw into a threshold below the total. */
  method SpinAt(xs: seq<Endpoint>, scored: seq<Entry>, draw: real, total: real)
    returns (choice: Option<nat>, fellBack: bool)
    requires 0.0 <= draw < 1.0 && scored == Weighted(xs, |xs|) != [] && total == Total(xs) >= 0.0
    ensures choice.Some? && choice.value < |xs| && Selects(xs, draw * Total(xs), choice.value) && !fellBack
  {
    BelowTotal(draw, total);
    var selected;
    selected, fellBack := Spin(xs, scored, draw * total);
    choice := Some(selected);
  }

  lemma BelowTotal(draw: real, total: real)
    requires 0.0 <= draw < 1.0 && total >= 0.0
    ensures 0.0 <= draw * total <= total
  {
  }

  /** Keep to the given endpoint while it is available, else weigh. */
  method SelectBySticky(xs: seq<Endpoint>, sticky: nat, draw: real) returns (choice: Option<nat>)
    requires 0.0 <= draw < 1.0
    ensures xs == [] <==> choice.None?
    ensures sticky < |xs| && IsAvailable(xs[sticky]) ==> choice == Some(sticky)
    ensures choice.Some? && !(sticky < |xs| && IsAvailable(xs[sticky])) ==> Drawn(xs, draw, choice.value)
    ensures (exists i | 0 <= i < |xs| :: IsAvailable(xs[i])) ==> choice.Some? && IsAvailable(xs[choice.value])
  {
    if xs == [] { return None; }
    if sticky < |xs| && IsAvailable(xs[sticky]) { return Some(sticky); }
    var fellBack;
    choice, fellBack := SelectByWeightedScore(xs, draw);
  }
}
