/** The dispatch loop as a clocked state machine over the scheduler's queue, and how late its
    transactions start. Times are integer nanoseconds. */
module Lateness {
  import opened Sums
  import opened DueDates

  /** One pass of the loop: the time spent on status resets before it sleeps, and on the transaction. */
  datatype Cycle = Cycle(prep: nat, cost: nat)

  /** The clock after a pass, and the earliest time at which the next transaction may start. */
  datatype Clock = Clock(now: int, earliest: int)

  function Max(a: int, b: int): int { if a < b then b else a }

  /** Sleeps until the trigger time and then until the earliest start; neither shortens the wait. */
  function StartTime(c: Clock, trigger: int, prep: nat): int {
    Max(Max(c.now + prep, trigger), c.earliest)
  }

  function Tick(c: Clock, trigger: int, cycle: Cycle, gap: nat): Clock {
    var finish := StartTime(c, trigger, cycle.prep) + cycle.cost;
    Clock(finish, finish + gap)
  }

  /** A run of the loop: the due dates it serves, the gap kept between transactions, the clock at its
      first pass and what each pass costs. */
  datatype Run = Run(triggers: nat -> int, gap: nat, clock: Clock, cycles: nat -> Cycle)

  function ClockAt(r: Run, k: nat): Clock {
    if k == 0 then r.clock else Tick(ClockAt(r, k - 1), r.triggers(k - 1), r.cycles(k - 1), r.gap)
  }

  /** When the k-th transaction starts. */
  function Start(r: Run, k: nat): int {
    StartTime(ClockAt(r, k), r.triggers(k), r.cycles(k).prep)
  }

  /** The due dates are those that the scheduler hands out for a list of actions. */
  ghost predicate Scheduled(r: Run, intervals: seq<int>, base: int) {
    ValidIntervals(intervals) && forall k: nat :: r.triggers(k) == Dispatched(intervals, base, k).trigger
  }

  predicate OnTime(r: Run, k: nat) {
    Start(r, k) == r.triggers(k)
  }

  /** The k-th transaction, and the gap or the next pass's resets that overlap it, take at most period. */
  predicate PassFits(r: Run, k: nat, period: int) {
    r.cycles(k).cost + Max(r.gap, r.cycles(k + 1).prep) <= period
  }

  /** So do all from the j-th on. */
  ghost predicate PassesWithin(r: Run, j: nat, period: int) {
    forall k: nat | j <= k :: PassFits(r, k, period)
  }

  /** A transaction starts at the earliest time at which the resets are done, it is due, and the gap since
      the last one is over; the next gap begins when it ends. */
  lemma StartIsEarliest(r: Run, k: nat)
    ensures var (c, s) := (ClockAt(r, k), Start(r, k));
            && c.now + r.cycles(k).prep <= s && r.triggers(k) <= s && c.earliest <= s
            && (s == c.now + r.cycles(k).prep || s == r.triggers(k) || s == c.earliest)
    ensures ClockAt(r, k + 1) == Clock(Start(r, k) + r.cycles(k).cost, Start(r, k) + r.cycles(k).cost + r.gap)
  {}

  /** How long after its due date the k-th transaction starts. */
  function Delay(r: Run, k: nat): int {
    Start(r, k) - r.triggers(k)
  }

  lemma NeverEarly(r: Run, k: nat)
    ensures r.triggers(k) <= Start(r, k)
  {}

  /** A transaction starts on its due date unless the previous one is still holding it up. */
  lemma NextStart(r: Run, j: nat, k: nat, period: int)
    requires j <= k
    requires PassesWithin(r, j, period)
    ensures Start(r, k + 1) <= Max(r.triggers(k + 1), Start(r, k) + period)
  {
    assert PassFits(r, k, period);
  }

  /** Counting the dispatches j..k: they fit between the two due dates. */
  lemma DispatchesFit(r: Run, intervals: seq<int>, base: int, j: nat, k: nat)
    requires Scheduled(r, intervals, base) && j <= k
    ensures (k + 1 - j - |intervals|) as real <= Load(r.triggers(k) - r.triggers(j), intervals)
  {
    DispatchesBetween(intervals, base, j, k);
  }

  /** Each transaction belongs to a busy period that began with one on its due date, at or after the j-th. */
  lemma {:induction false} BusyPeriod(r: Run, j: nat, k: nat, period: int) returns (b: nat)
    requires j <= k
    requires PassesWithin(r, j, period)
    requires OnTime(r, j)
    ensures j <= b <= k
    ensures OnTime(r, b)
    ensures Start(r, k) <= r.triggers(b) + (k - b) * period
    decreases k
  {
    NeverEarly(r, k);
    if OnTime(r, k) {
      b := k;
    } else {
      NextStart(r, j, k - 1, period);
      b := BusyPeriod(r, j, k - 1, period);
      Distribute(k - 1 - b, 1, period);
    }
  }

  /** What fits into a window, at a load of at most one due date per pass, takes no more passes than the window. */
  lemma Scale(count: int, window: int, period: int, intervals: seq<int>)
    requires ValidIntervals(intervals)
    requires 0 <= period && 0 <= window
    requires Load(period, intervals) <= 1.0
    requires count as real <= Load(window, intervals)
    ensures count * period <= window
  {
    RatePositive(intervals);
    ScaleReal(count as real, window as real, period as real, Rate(intervals));
    assert (count * period) as real == count as real * period as real;
  }

  lemma ScaleReal(c: real, w: real, p: real, rate: real)
    requires 0.0 <= p && 0.0 <= w
    requires p * rate <= 1.0
    requires c <= w * rate
    ensures c * p <= w
  {
    assert c * p <= (w * rate) * p by {
      assert (w * rate) * p - c * p == (w * rate - c) * p;
    }
    assert (w * rate) * p == w * (p * rate);
    assert w * (1.0 - p * rate) >= 0.0;
    assert w * (1.0 - p * rate) == w - w * (p * rate);
  }

  /** Bounded lateness: if a pass never takes longer than the mean time between due dates, then once
      a transaction has started on its due date, none after it starts later than n-1 passes after its own. */
  lemma BoundedLateness(r: Run, intervals: seq<int>, base: int, j: nat, k: nat, period: nat)
    requires Scheduled(r, intervals, base) && j <= k
    requires PassesWithin(r, j, period)
    requires Load(period, intervals) <= 1.0
    requires OnTime(r, j)
    ensures r.triggers(k) <= Start(r, k) <= r.triggers(k) + (|intervals| - 1) * period
  {
    var b := BusyPeriod(r, j, k, period);
    NeverEarly(r, k);
    DispatchesFit(r, intervals, base, b, k);
    TriggersNonDecreasing(intervals, base, b, k);
    Scale(k + 1 - b - |intervals|, r.triggers(k) - r.triggers(b), period, intervals);
    Distribute(k + 1 - b - |intervals|, |intervals| - 1, period);
  }

  lemma Distribute(a: int, b: int, p: int)
    ensures (a + b) * p == a * p + b * p
  {}

  // ---------- recovery from a backlog ----------

  /** As long as no transaction starts on its due date, the loop runs without a pause. */
  lemma {:induction false} Backlogged(r: Run, j: nat, m: nat, period: int)
    requires PassesWithin(r, j, period)
    requires forall i | j < i <= j + m :: !OnTime(r, i)
    ensures Start(r, j + m) <= Start(r, j) + m * period
    decreases m
  {
    if m > 0 {
      assert !OnTime(r, j + m);
      Backlogged(r, j, m - 1, period);
      NextStart(r, j, j + m - 1, period);
      NeverEarly(r, j + m);
      Distribute(m - 1, 1, period);
    }
  }

  /** How many due dates fewer than m, on average, fall into m passes. */
  function Slack(m: nat, period: int, intervals: seq<int>): real
    requires ValidIntervals(intervals)
  {
    m as real * (1.0 - Load(period, intervals))
  }

  /** Backlog recovery: whatever the lateness of the j-th transaction, if a pass takes strictly less
      than the mean time between due dates, one of the next m starts on its due date, where m is any
      number with Load(lateness) + n - 1 <= m * (1 - Load(period)). */
  lemma BacklogRecovery(r: Run, intervals: seq<int>, base: int, j: nat, m: nat, period: nat)
    requires Scheduled(r, intervals, base) && 1 <= m
    requires PassesWithin(r, j, period)
    requires Load(Start(r, j) - r.triggers(j), intervals) + (|intervals| - 1) as real
             <= Slack(m, period, intervals)
    ensures exists k | j < k <= j + m :: OnTime(r, k)
  {
    if forall k | j < k <= j + m :: !OnTime(r, k) {
      Backlogged(r, j, m, period);
      assert !OnTime(r, j + m);
      NeverEarly(r, j + m);
      DispatchesFit(r, intervals, base, j, j + m);
      CatchUp(Start(r, j) - r.triggers(j), r.triggers(j + m) - r.triggers(j), m, |intervals|, period, intervals);
      assert false;
    }
  }

  lemma CatchUp(late: int, window: int, m: nat, n: int, period: nat, intervals: seq<int>)
    requires ValidIntervals(intervals)
    requires (m + 1 - n) as real <= Load(window, intervals)
    requires Load(late, intervals) + (n - 1) as real <= Slack(m, period, intervals)
    ensures late + m * period <= window
  {
    RatePositive(intervals);
    CatchUpReal(late as real, window as real, m as real, n as real, period as real, Rate(intervals));
    assert m as real * period as real == (m * period) as real;
  }

  lemma CatchUpReal(l: real, w: real, x: real, n: real, p: real, u: real)
    requires 0.0 < u
    requires x + 1.0 - n <= w * u
    requires l * u + n - 1.0 <= x * (1.0 - p * u)
    ensures l + x * p <= w
  {
    var q := x * p;
    var lu, qu, wu := l * u, q * u, w * u;
    TakeShare(x, p, u);
    assert lu + qu <= wu;
    assert (l + q) * u == lu + qu by {
      DistributeReal(l, q, u);
    }
    CancelReal(l + q, w, u, lu + qu, wu);
  }

  lemma TakeShare(x: real, p: real, u: real)
    ensures x * (1.0 - p * u) == x - (x * p) * u
  {
    assert x * (p * u) == (x * p) * u;
  }

  lemma DistributeReal(a: real, b: real, u: real)
    ensures (a + b) * u == a * u + b * u
  {}

  lemma CancelReal(a: real, b: real, u: real, au: real, bu: real)
    requires 0.0 < u && au == a * u && bu == b * u && au <= bu
    ensures a <= b
  {
    assert bu - au == (b - a) * u;
  }

  /** Such an m exists whenever a pass takes strictly less than the mean time between due dates. */
  lemma RecoveryBoundExists(lateness: int, period: nat, intervals: seq<int>) returns (m: nat)
    requires ValidIntervals(intervals)
    requires Load(period, intervals) < 1.0
    ensures 1 <= m
    ensures Load(lateness, intervals) + (|intervals| - 1) as real <= Slack(m, period, intervals)
  {
    m := Multiple(Load(lateness, intervals) + (|intervals| - 1) as real, 1.0 - Load(period, intervals));
  }

  lemma Multiple(need: real, slack: real) returns (m: nat)
    requires 0.0 < slack
    ensures 1 <= m && need < m as real * slack
  {
    var q := need / slack;
    m := if q <= 0.0 then 1 else q.Floor + 1;
    assert q * slack == need;
    assert (m as real - q) * slack > 0.0;
    assert m as real * slack == q * slack + (m as real - q) * slack;
  }

  /** Lateness never grows by more than n-1 passes, wherever it started: no transaction has to be on time. */
  lemma LatenessGrowth(r: Run, intervals: seq<int>, base: int, j: nat, k: nat, period: nat)
    requires Scheduled(r, intervals, base) && j <= k
    requires PassesWithin(r, j, period)
    requires Load(period, intervals) <= 1.0
    ensures 0 <= Delay(r, j) && 0 <= Delay(r, k) <= Delay(r, j) + (|intervals| - 1) * period
  {
    NeverEarly(r, j);
    NeverEarly(r, k);
    if i :| j < i <= k && OnTime(r, i) {
      BoundedLateness(r, intervals, base, i, k, period);
    } else {
      Backlogged(r, j, k - j, period);
      DispatchesFit(r, intervals, base, j, k);
      TriggersNonDecreasing(intervals, base, j, k);
      Scale(k + 1 - j - |intervals|, r.triggers(k) - r.triggers(j), period, intervals);
      Distribute(k + 1 - j - |intervals|, |intervals| - 1, period);
    }
  }

  /** So the damage of a stalled transaction is limited: after finitely many dispatches the lateness
      is within the bound of an undisturbed run again, and stays there. */
  lemma RecoversForGood(r: Run, intervals: seq<int>, base: int, j: nat, period: nat) returns (k: nat)
    requires Scheduled(r, intervals, base)
    requires PassesWithin(r, j, period)
    requires Load(period, intervals) < 1.0
    ensures j < k && OnTime(r, k)
    ensures forall i | k <= i :: Start(r, i) <= r.triggers(i) + (|intervals| - 1) * period
  {
    var m := RecoveryBoundExists(Start(r, j) - r.triggers(j), period, intervals);
    BacklogRecovery(r, intervals, base, j, m, period);
    k :| j < k <= j + m && OnTime(r, k);
    forall i | k <= i ensures Start(r, i) <= r.triggers(i) + (|intervals| - 1) * period {
      BoundedLateness(r, intervals, base, k, i, period);
    }
  }

  // ---------- overload ----------

  /** Every transaction takes at least so long. */
  ghost predicate CostsAtLeast(r: Run, cost: nat) {
    forall k: nat :: cost <= r.cycles(k).cost
  }

  lemma {:induction false} BusyStart(r: Run, k: nat, cost: nat)
    requires CostsAtLeast(r, cost)
    ensures Start(r, 0) + k * (cost + r.gap) <= Start(r, k)
  {
    if k > 0 {
      BusyStart(r, k - 1, cost);
      assert cost <= r.cycles(k - 1).cost;
      Distribute(k - 1, 1, cost + r.gap);
    }
  }

  /** Overload: if every pass takes longer than the mean time between due dates, the lateness exceeds any bound. */
  lemma OverloadDiverges(r: Run, intervals: seq<int>, base: int, cost: nat, bound: nat) returns (k: nat)
    requires Scheduled(r, intervals, base) && CostsAtLeast(r, cost)
    requires Load(cost + r.gap, intervals) > 1.0
    ensures bound < Delay(r, k)
  {
    k := Multiple(Load(bound, intervals) + |intervals| as real, Load(cost + r.gap, intervals) - 1.0);
    DispatchesBy(intervals, base, k);
    BusyStart(r, k, cost);
    NeverEarly(r, 0);
    DispatchAfterBase(intervals, base, 0);
    Diverge(Start(r, k) - base, r.triggers(k) - base, k, |intervals|, cost + r.gap, intervals, bound);
  }

  lemma Diverge(s: int, t: int, k: nat, n: nat, p: nat, intervals: seq<int>, bound: nat)
    requires ValidIntervals(intervals)
    requires k * p <= s
    requires Load(t, intervals) <= (k + n) as real
    requires Load(bound, intervals) + n as real < k as real * (Load(p, intervals) - 1.0)
    ensures bound < s - t
  {
    RatePositive(intervals);
    assert (k * p) as real == k as real * p as real;
    DivergeReal(s as real, t as real, k as real, n as real, p as real, Rate(intervals), bound as real);
  }

  lemma DivergeReal(s: real, t: real, k: real, n: real, p: real, u: real, l: real)
    requires 0.0 < u
    requires k * p <= s
    requires t * u <= k + n
    requires l * u + n < k * (p * u - 1.0)
    ensures l < s - t
  {
    assert k * (p * u - 1.0) == (k * p) * u - k;
    assert s * u - (k * p) * u == (s - k * p) * u >= 0.0;
    assert (s - t) * u == s * u - t * u;
    assert (s - t) * u - l * u == (s - t - l) * u;
  }

  ghost predicate LatenessBounded(r: Run, bound: int) {
    forall k: nat :: Delay(r, k) <= bound
  }

  /** Every transaction takes the same time, and the resets before the sleep take no longer than the gap. */
  ghost predicate Uniform(r: Run, cost: nat) {
    forall k: nat :: r.cycles(k).cost == cost && r.cycles(k).prep <= r.gap
  }

  /** Schedulability, both ways: with a constant transaction time, and however late the first
      transaction is, the lateness of the whole run is bounded if and only if a pass takes no longer
      than the mean time between due dates. */
  lemma SchedulableIff(r: Run, intervals: seq<int>, base: int, cost: nat)
    requires Scheduled(r, intervals, base) && Uniform(r, cost)
    ensures (exists bound :: LatenessBounded(r, bound)) <==> Load(cost + r.gap, intervals) <= 1.0
  {
    var period := cost + r.gap;
    if Load(period, intervals) <= 1.0 {
      var bound := Delay(r, 0) + (|intervals| - 1) * period;
      forall k: nat ensures Delay(r, k) <= bound {
        LatenessGrowth(r, intervals, base, 0, k, period);
      }
      assert LatenessBounded(r, bound);
    } else {
      forall bound ensures !LatenessBounded(r, bound) {
        var k := OverloadDiverges(r, intervals, base, cost, Max(bound, 0));
      }
    }
  }
}
