/** What a connection of the master does, as a function of what happens during it: the times of its
    transactions, the history of the process image, and the count of failures in a row. */
module Connections {
  import opened DueDates
  import opened Lateness
  import opened ModbusConfig
  import opened Passes
  import opened ProcessImages
  import opened Scheduler
  import opened StatusBytes
  import opened Sums
  import opened TimeSpecs
  import opened Transactions
  import opened Widths

  const NO_RESPONSE_FROM_DEVICE: bv8 := 0x11
  const INTERNAL_ERROR: bv8 := 0xf0

  const MAX_CONSECUTIVE_ERRORS := 100

  /** A connection made at time init: over TCP or a serial line, with the image at that time. */
  datatype Connection = Connection(
    m: Master, tcp: bool, image: Bytes, init: nat, setup: nat, gap: nat, passes: seq<Pass>)

  function Intervals(m: Master): (r: seq<int>)
    ensures |r| == |m.actions|
  {
    IntervalsNs(Micros(m))
  }

  function Micros(m: Master): (r: seq<nat>)
    ensures |r| == |m.actions|
  {
    seq(|m.actions|, i requires 0 <= i < |m.actions| => m.actions[i].interval_us)
  }

  /** Intervals are configured in microseconds. */
  lemma IntervalsAre(m: Master, i: nat)
    requires i < |m.actions|
    ensures Intervals(m)[i] == m.actions[i].interval_us * 1000
  {}

  ghost predicate ValidMaster(m: Master) {
    && m.actions != []
    && forall i | 0 <= i < |m.actions| :: 0 < m.actions[i].interval_us < UINT32 && CountAllowed(m.actions[i])
  }

  lemma IntervalsValid(m: Master)
    requires ValidMaster(m)
    ensures ValidIntervals(Intervals(m))
  {
    forall i | 0 <= i < |m.actions| ensures 0 < Intervals(m)[i] {
      assert 0 < m.actions[i].interval_us;
    }
  }

  function CycleOf(passes: seq<Pass>, k: nat): Cycle {
    if k < |passes| then Cycle(passes[k].prep, passes[k].cost) else Cycle(0, 0)
  }

  /** The due date of the k-th transaction. */
  function TriggerAt(c: Connection, k: nat): int
    requires c.m.actions != []
  {
    Dispatched(Intervals(c.m), c.init + NANOSECONDS_PER_SECOND, k).trigger
  }

  function Timing(c: Connection): Run
    requires c.m.actions != []
  {
    Run((k: nat) => TriggerAt(c, k), c.gap, Clock(c.init + c.setup, 0), (k: nat) => CycleOf(c.passes, k))
  }

  /** The position of the k-th action dispatched. */
  ghost function ActionAt(c: Connection, k: nat): (p: nat)
    requires ValidMaster(c.m)
    ensures p < |c.m.actions|
  {
    IntervalsValid(c.m);
    DispatchIsDue(Intervals(c.m), c.init + NANOSECONDS_PER_SECOND, k);
    Dispatched(Intervals(c.m), c.init + NANOSECONDS_PER_SECOND, k).pos
  }

  ghost function QueueOf(c: Connection, k: nat): seq<Entry>
    requires ValidMaster(c.m)
  {
    QueueAt(Intervals(c.m), c.init + NANOSECONDS_PER_SECOND, k)
  }

  ghost predicate ValidConnection(c: Connection) {
    && ValidMaster(c.m)
    && forall k | 0 <= k < |c.passes| :: OutcomeFits(c, k)
  }

  ghost predicate OutcomeFits(c: Connection, k: nat)
    requires ValidMaster(c.m) && k < |c.passes|
  {
    ValidOutcome(c.m.actions[ActionAt(c, k)], c.passes[k].outcome)
  }

  /** The k-th action in the order of dispatch, which is the same for every connection. */
  ghost function ActionOf(m: Master, k: nat): (p: nat)
    requires ValidMaster(m)
    ensures p < |m.actions|
  {
    IntervalsValid(m);
    DispatchIsDue(Intervals(m), 0, k);
    Dispatched(Intervals(m), 0, k).pos
  }

  /** The outcomes foreseen for a connection are possible ones for the actions they belong to. */
  ghost predicate Foreseen(m: Master, passes: seq<Pass>) {
    m.actions == [] ||
    (ValidMaster(m) && forall k | 0 <= k < |passes| :: ValidOutcome(m.actions[ActionOf(m, k)], passes[k].outcome))
  }

  lemma ForeseenIsValid(c: Connection)
    requires ValidMaster(c.m) && Foreseen(c.m, c.passes)
    ensures ValidConnection(c)
  {
    forall k | 0 <= k < |c.passes| ensures OutcomeFits(c, k) {
      Rebased(Intervals(c.m), 0, c.init + NANOSECONDS_PER_SECOND, k);
    }
  }

  function PositionsIn(q: seq<Entry>): (r: seq<nat>)
    ensures |r| == |q|
  {
    seq(|q|, i requires 0 <= i < |q| => q[i].pos)
  }

  /** The channels whose resets a pass checks: the dispatched action's, or, on a serial line,
      every action's in the order of the queue; and the master's own. */
  function OrderOf(m: Master, tcp: bool, action: nat, q: seq<Entry>): seq<nat> {
    (if tcp then TcpOrder(action) else PositionsIn(q)) + [|m.actions|]
  }

  lemma OrderFits(m: Master, tcp: bool, action: nat, q: seq<Entry>)
    requires action < |m.actions| && Positions(PositionsIn(q), |m.actions|)
    ensures Positions(OrderOf(m, tcp, action, q), |m.actions| + 1)
  {}

  /** A pass that dispatched an action and left the queue as given has turned one image into another. */
  ghost predicate PassDone(m: Master, tcp: bool, before: Bytes, action: nat, q: seq<Entry>, pass: Pass, after: Bytes) {
    match m case Master(_, _, _) =>
      var t := Turn(OrderOf(m, tcp, action, q), action, pass);
      TurnFits(m, t) && after == PassImage(m, before, t)
  }

  lemma PassIsDone(m: Master, tcp: bool, before: Bytes, checked: Bytes, action: nat, q: seq<Entry>, pass: Pass)
    requires action < |m.actions| && Positions(PositionsIn(q), |m.actions|)
    requires ValidOutcome(m.actions[action], pass.outcome)
    requires Positions(OrderOf(m, tcp, action, q), |m.actions| + 1)
    requires checked == ResetAll(Patch(before, pass.patch), Channels(m), OrderOf(m, tcp, action, q))
    ensures PassDone(m, tcp, before, action, q, pass,
                     Process(Patch(checked, pass.sleepPatch), m.actions[action], pass.outcome).image)
  {}

  /** The channels that the k-th pass checks. */
  ghost function OrderAt(c: Connection, k: nat): (order: seq<nat>)
    requires ValidMaster(c.m)
    ensures Positions(order, |c.m.actions| + 1)
  {
    QueuePositions(c, k + 1);
    OrderOf(c.m, c.tcp, ActionAt(c, k), QueueOf(c, k + 1))
  }

  /** The k-th pass with what it checks and runs. */
  ghost function TurnAt(c: Connection, k: nat): (t: Turn)
    requires ValidConnection(c) && k < |c.passes|
    ensures TurnFits(c.m, t)
  {
    assert OutcomeFits(c, k);
    Turn(OrderAt(c, k), ActionAt(c, k), c.passes[k])
  }

  ghost function TurnsAt(c: Connection): int --> Turn
    requires ValidConnection(c)
  {
    i requires 0 <= i < |c.passes| => TurnAt(c, i)
  }

  ghost function TurnsOf(c: Connection, k: nat): (turns: seq<Turn>)
    requires ValidConnection(c) && k <= |c.passes|
    ensures |turns| == k && TurnsFit(c.m, turns)
  {
    seq(k, TurnsAt(c))
  }

  lemma TurnsGrow(c: Connection, k: nat)
    requires ValidConnection(c) && k < |c.passes|
    ensures TurnsOf(c, k + 1) == TurnsOf(c, k) + [TurnAt(c, k)]
  {
    Tabulate(TurnsAt(c), k);
  }

  lemma Tabulate<T>(f: int --> T, k: nat)
    requires forall i | 0 <= i <= k :: f.requires(i)
    ensures seq(k + 1, f) == seq(k, f) + [f(k)]
  {}

  /** The events of a connection up to its k-th pass. */
  ghost function History(c: Connection, k: nat): (h: seq<Event>)
    requires ValidConnection(c) && k <= |c.passes|
    ensures ValidEvents(c.m, h)
  {
    HistoryOf(c.m, c.image, TurnsOf(c, k))
  }

  lemma QueuePositions(c: Connection, k: nat)
    requires ValidMaster(c.m)
    ensures Positions(PositionsIn(QueueOf(c, k)), |c.m.actions|)
    ensures forall p: nat | p < |c.m.actions| :: p in PositionsIn(QueueOf(c, k))
  {
    IntervalsValid(c.m);
    var q := QueueOf(c, k);
    forall i | 0 <= i < |q| ensures q[i].pos < |c.m.actions| {
      QueueContents(Intervals(c.m), c.init + NANOSECONDS_PER_SECOND, k, q[i]);
    }
    forall p: nat | p < |c.m.actions| ensures p in PositionsIn(q) {
      NextDueQueued(Intervals(c.m), c.init + NANOSECONDS_PER_SECOND, k, p);
      var e :| e in q && e.pos == p;
      var i :| 0 <= i < |q| && q[i] == e;
      assert PositionsIn(q)[i] == p;
    }
  }

  /** The image of the connection after k passes. */
  ghost function ImageAt(c: Connection, k: nat): Bytes
    requires ValidConnection(c) && k <= |c.passes|
  {
    ImageAfter(c.m, c.image, History(c, k))
  }

  lemma HistoryStep(c: Connection, k: nat)
    requires ValidConnection(c) && k < |c.passes|
    ensures Positions(PositionsIn(QueueOf(c, k + 1)), |c.m.actions|)
    ensures ImageAt(c, k + 1) == PassImage(c.m, ImageAt(c, k), TurnAt(c, k))
  {
    QueuePositions(c, k + 1);
    TurnsGrow(c, k);
    ImageOfTurns(c.m, c.image, TurnsOf(c, k), TurnAt(c, k));
  }

  lemma StartState(c: Connection)
    requires ValidMaster(c.m) && Foreseen(c.m, c.passes)
    ensures ValidConnection(c)
    ensures QueueOf(c, 0) == Initial(Intervals(c.m), c.init + NANOSECONDS_PER_SECOND)
    ensures ClockAt(Timing(c), 0) == Clock(c.init + c.setup, 0)
    ensures ImageAt(c, 0) == PutBytes(c.image, c.m.statusByte, [0x00])
  {
    ForeseenIsValid(c);
    AppendEvent(c.m, c.image, [], Announce(NO_ERROR));
    assert [] + [Announce(NO_ERROR)] == [Announce(NO_ERROR)];
  }

  // ---------- the error counter ----------

  ghost predicate FailedAt(c: Connection, k: nat)
    requires ValidMaster(c.m) && k < |c.passes|
  {
    Fails(c.m.actions[ActionAt(c, k)], |c.image|, c.passes[k].outcome)
  }

  ghost function Failures(c: Connection): (f: seq<bool>)
    requires ValidMaster(c.m)
    ensures |f| == |c.passes|
  {
    seq(|c.passes|, k requires 0 <= k < |c.passes| => FailedAt(c, k))
  }

  /** The counter after k passes: a failure adds one, a success resets it. */
  function Errors(failures: seq<bool>, k: nat): nat
    requires k <= |failures|
  {
    if k == 0 then 0 else if failures[k - 1] then Errors(failures, k - 1) + 1 else 0
  }

  predicate AllFailed(failures: seq<bool>, i: nat, j: nat)
    requires j <= |failures|
  {
    forall p | i <= p < j :: failures[p]
  }

  /** The counter is the length of the current run of failures. */
  lemma {:induction false} ErrorsAreConsecutive(failures: seq<bool>, k: nat)
    requires k <= |failures|
    ensures Errors(failures, k) <= k
    ensures AllFailed(failures, k - Errors(failures, k), k)
    ensures Errors(failures, k) < k ==> !failures[k - Errors(failures, k) - 1]
  {
    if k > 0 {
      ErrorsAreConsecutive(failures, k - 1);
    }
  }

  predicate Tolerated(failures: seq<bool>, k: nat)
    requires k <= |failures|
  {
    Errors(failures, k) <= MAX_CONSECUTIVE_ERRORS
  }

  /** The counter exceeds its limit for the first time after k passes. */
  predicate AbandonedAt(failures: seq<bool>, k: nat)
    requires k <= |failures|
  {
    !Tolerated(failures, k) && forall j | 0 <= j < k :: Tolerated(failures, j)
  }

  /** The 101 passes before the k-th all failed. */
  predicate Hopeless(failures: seq<bool>, k: nat)
    requires k <= |failures|
  {
    101 <= k && AllFailed(failures, k - 101, k)
  }

  predicate NeverHopeless(failures: seq<bool>, n: nat)
    requires n <= |failures|
  {
    forall k | 0 <= k < n :: !Hopeless(failures, k)
  }

  /** A connection is abandoned exactly at the 101st failure in a row, the first time that happens. */
  lemma AbandonedAfter101(failures: seq<bool>, k: nat)
    requires k <= |failures|
    ensures AbandonedAt(failures, k) <==> Hopeless(failures, k) && NeverHopeless(failures, k)
  {
    forall j | 0 <= j <= k ensures !Tolerated(failures, j) <==> Hopeless(failures, j) {
      HopelessIsCounted(failures, j);
    }
  }

  lemma HopelessIsCounted(failures: seq<bool>, k: nat)
    requires k <= |failures|
    ensures Tolerated(failures, k) <==> !Hopeless(failures, k)
  {
    ErrorsAreConsecutive(failures, k);
  }

  /** After n passes the connection still runs: over TCP, no 101 passes in a row have failed. */
  ghost predicate Running(c: Connection, n: nat)
    requires ValidMaster(c.m) && n <= |c.passes|
  {
    c.tcp ==> NeverHopeless(Failures(c), n) && !Hopeless(Failures(c), n)
  }

  /** It has just been given up: the last 101 passes are the first so many in a row that failed. */
  ghost predicate GivenUp(c: Connection, n: nat)
    requires ValidMaster(c.m) && n <= |c.passes|
  {
    c.tcp && Hopeless(Failures(c), n) && NeverHopeless(Failures(c), n)
  }

  /** Each of the 101 transactions before the n-th failed. */
  ghost predicate Fails101(c: Connection, n: nat)
    requires ValidMaster(c.m) && n <= |c.passes|
  {
    101 <= n && forall p | n - 101 <= p < n :: FailedAt(c, p)
  }

  /** A connection is given up exactly at the 101st consecutive failure, the first time that happens. */
  lemma GivenUpAt101(c: Connection, n: nat)
    requires ValidMaster(c.m) && n <= |c.passes|
    ensures GivenUp(c, n) <==> c.tcp && Fails101(c, n) && forall j | 0 <= j < n :: !Fails101(c, j)
    ensures Running(c, n) <==> (c.tcp ==> forall j | 0 <= j <= n :: !Fails101(c, j))
  {
    var f := Failures(c);
    assert forall p | 0 <= p < |f| :: f[p] == FailedAt(c, p);
    forall j | 0 <= j <= n ensures Hopeless(f, j) <==> Fails101(c, j) {
    }
  }

  /** A pass either keeps the connection or is the one at which it is given up. */
  lemma KeepOrGiveUp(c: Connection, n: nat)
    requires ValidMaster(c.m) && n < |c.passes|
    requires Running(c, n)
    ensures if c.tcp && Errors(Failures(c), n + 1) > MAX_CONSECUTIVE_ERRORS then GivenUp(c, n + 1)
            else Running(c, n + 1)
    ensures Errors(Failures(c), n + 1) == if FailedAt(c, n) then Errors(Failures(c), n) + 1 else 0
  {
    HopelessIsCounted(Failures(c), n + 1);
  }

  // ---------- the gap ----------

  ghost predicate IsMinimumOf(min: int, intervals: seq<int>) {
    min in intervals && forall i | 0 <= i < |intervals| :: min <= intervals[i]
  }

  /** The timeout for a response: half the shortest interval, but not zero. */
  ghost predicate IsTimeout(sec: int, usec: int, intervals: seq<int>) {
    && 0 <= sec && 0 <= usec < MICROSECONDS_PER_SECOND
    && exists min :: IsMinimumOf(min, intervals)
                     && sec * MICROSECONDS_PER_SECOND + usec == if min < 2000 then 1 else min / 2000
  }

  /** The gap a connection keeps between its transactions. */
  ghost predicate IsGap(tcp: bool, intervals: seq<int>, gap: int)
    requires ValidIntervals(intervals)
  {
    if tcp then gap == TcpGap(intervals)
    else exists min :: IsMinimumOf(min, intervals) && IsShare(gap, min, |intervals|)
  }

  lemma MinimalOfInitial(intervals: seq<int>, base: int, min: int)
    requires ValidIntervals(intervals)
    requires IsMinimalInterval(min, Initial(intervals, base))
    ensures IsMinimumOf(min, intervals)
  {
    InitialInvariant(intervals, base);
    forall i: nat | i < |intervals| ensures min <= intervals[i] {
      assert Due(intervals, base, i, 1) in Initial(intervals, base);
    }
  }

  lemma RtuGapOfInitial(intervals: seq<int>, base: int, gap: int, count: nat)
    requires ValidIntervals(intervals) && count == |intervals|
    requires IsRtuGap(gap, Initial(intervals, base), count)
    ensures IsGap(false, intervals, gap)
  {
    var min :| IsMinimalInterval(min, Initial(intervals, base)) && IsShare(gap, min, count);
    MinimalOfInitial(intervals, base, min);
  }

  /** A connection as the thread sets it up. */
  ghost predicate WellTimed(c: Connection) {
    ValidConnection(c) && (IntervalsValid(c.m); IsGap(c.tcp, Intervals(c.m), c.gap))
  }

  /** The gap over TCP is the longest of which four for each dispatch fit the due dates; on a serial line it
      is the longest of which four for each action fit the shortest interval. */
  lemma GapOfConnection(c: Connection, gap: int)
    requires WellTimed(c)
    ensures ValidIntervals(Intervals(c.m))
    ensures c.tcp ==> (Load(4 * gap, Intervals(c.m)) <= 1.0 <==> gap <= c.gap)
    ensures !c.tcp ==> exists min | IsMinimumOf(min, Intervals(c.m)) ::
                         4 * |c.m.actions| * c.gap <= min < 4 * |c.m.actions| * (c.gap + 1)
  {
    IntervalsValid(c.m);
    TcpGapIsLargest(Intervals(c.m), gap);
  }

  /** Either way, four gaps per dispatch fit the due dates. */
  lemma GapFits(c: Connection)
    requires WellTimed(c)
    ensures ValidIntervals(Intervals(c.m))
    ensures Load(4 * c.gap, Intervals(c.m)) <= 1.0
  {
    IntervalsValid(c.m);
    if !c.tcp {
      var min :| IsMinimumOf(min, Intervals(c.m)) && IsShare(c.gap, min, |c.m.actions|);
      RtuGapIsShare(min, |c.m.actions|, c.gap);
      RtuGapWithinTcpGap(Intervals(c.m), min);
    }
    TcpGapIsLargest(Intervals(c.m), c.gap);
  }

  /** Every transaction takes at most three gaps, and the resets before it at most one. */
  predicate Brisk(c: Connection) {
    forall i | 0 <= i < |c.passes| :: c.passes[i].cost <= 3 * c.gap && c.passes[i].prep <= c.gap
  }

  /** Bounded lateness of the master, over TCP and on a serial line: every transaction of the connection
      starts within n-1 times four gaps of its due date, besides what the first one was late. */
  lemma MasterLateness(c: Connection, k: nat)
    requires WellTimed(c) && Brisk(c)
    ensures var t := Timing(c);
            0 <= Delay(t, k) <= Delay(t, 0) + (|c.m.actions| - 1) * (4 * c.gap)
  {
    GapFits(c);
    var t := Timing(c);
    forall i: nat ensures PassFits(t, i, 4 * c.gap) {
      assert t.cycles(i).cost <= 3 * c.gap;
      assert t.cycles(i + 1).prep <= c.gap;
    }
    LatenessGrowth(t, Intervals(c.m), c.init + NANOSECONDS_PER_SECOND, 0, k, 4 * c.gap);
  }

  /** Setting up and the first resets take no longer than any interval and the second that due dates
      are put off. */
  predicate SetUpInTime(c: Connection) {
    forall i | 0 <= i < |c.m.actions| ::
      c.setup + CycleOf(c.passes, 0).prep <= Intervals(c.m)[i] + NANOSECONDS_PER_SECOND
  }

  /** Then the first transaction is on time. */
  lemma FirstOnTime(c: Connection)
    requires ValidConnection(c) && SetUpInTime(c)
    ensures OnTime(Timing(c), 0) && Delay(Timing(c), 0) == 0
  {
    IntervalsValid(c.m);
    var intervals, base := Intervals(c.m), c.init + NANOSECONDS_PER_SECOND;
    DispatchIsDue(intervals, base, 0);
    FirstDue(base, intervals);
    assert Timing(c).triggers(0) == base + intervals[ActionAt(c, 0)];
  }

  ghost predicate StartedAt(c: Connection, k: nat, start: int)
    requires c.m.actions != []
  {
    match c case Connection(_, _, _, _, _, _, _) => start == Start(Timing(c), k)
  }

  /** When the transactions of a connection started. */
  ghost predicate StartsOf(c: Connection, starts: seq<int>)
    requires c.m.actions != []
  {
    forall i | 0 <= i < |starts| :: StartedAt(c, i, starts[i])
  }

  lemma StartsGrow(c: Connection, starts: seq<int>, start: int)
    requires c.m.actions != [] && StartsOf(c, starts) && StartedAt(c, |starts|, start)
    ensures StartsOf(c, starts + [start])
  {}

  ghost predicate WithinBound(c: Connection, starts: seq<int>)
    requires c.m.actions != []
  {
    forall i | 0 <= i < |starts| ::
      TriggerAt(c, i) <= starts[i] <= TriggerAt(c, i) + (|c.m.actions| - 1) * (4 * c.gap)
  }

  /** The transactions of a brisk connection that is set up in time start within the bound. */
  lemma StartsBounded(c: Connection, starts: seq<int>)
    requires WellTimed(c) && Brisk(c) && SetUpInTime(c)
    requires StartsOf(c, starts)
    ensures WithinBound(c, starts)
  {
    FirstOnTime(c);
    forall i | 0 <= i < |starts|
      ensures TriggerAt(c, i) <= starts[i] <= TriggerAt(c, i) + (|c.m.actions| - 1) * (4 * c.gap)
    {
      MasterLateness(c, i);
      assert StartedAt(c, i, starts[i]);
      assert Delay(Timing(c), i) == starts[i] - TriggerAt(c, i);
    }
  }

  // ---------- status and resets over a connection ----------

  /** Everything that happens on a connection is possible, if others do not write to the status bytes. */
  lemma HistoryValid(c: Connection, k: nat)
    requires ValidConnection(c) && k <= |c.passes|
    requires AllSpare(c.m, c.passes)
    ensures ValidHistory(c.m, c.image, History(c, k))
  {
    var turns := TurnsOf(c, k);
    forall i | 0 <= i < |turns| ensures PassSpares(c.m, turns[i].pass) {
      assert PassSpares(c.m, c.passes[i]);
    }
    HistoryOfValid(c.m, c.image, turns);
  }

  /** In every state of a connection each status byte obeys the rule for sticky status. */
  lemma MasterStatus(c: Connection, k: nat, channel: nat)
    requires ValidConnection(c) && k <= |c.passes|
    requires Disjoint(c.m, |c.image|) && AllSpare(c.m, c.passes)
    requires channel <= |c.m.actions|
    ensures ValidHistory(c.m, c.image, History(c, k)) && |ImageAt(c, k)| == |c.image|
    ensures StatusIs(c.m, c.image, History(c, k), channel, ImageAt(c, k)[Channels(c.m)[channel].statusByte])
  {
    HistoryValid(c, k);
    StickyStatus(c.m, c.image, History(c, k), channel);
  }

  /** The channels that the k-th pass checks: over TCP the dispatched action's, on a serial line every
      action's; and the master's own. */
  lemma CheckedChannels(c: Connection, k: nat, channel: nat)
    requires ValidMaster(c.m) && channel <= |c.m.actions|
    ensures channel in OrderAt(c, k) <==> !c.tcp || channel == ActionAt(c, k) || channel == |c.m.actions|
  {
    QueuePositions(c, k + 1);
    var order := if c.tcp then TcpOrder(ActionAt(c, k)) else PositionsIn(QueueOf(c, k + 1));
    assert OrderAt(c, k) == order + [|c.m.actions|];
  }

  /** After a pass a reset is pending exactly if it was requested since the check, or if it was pending
      at the check, which looked at other channels only. */
  lemma PassResets(c: Connection, k: nat, channel: nat)
    requires ValidConnection(c) && k < |c.passes|
    requires Disjoint(c.m, |c.image|) && AllSpare(c.m, c.passes)
    requires channel <= |c.m.actions|
    ensures var ch := Channels(c.m)[channel];
            var pass := c.passes[k];
            var checked := !c.tcp || channel == ActionAt(c, k) || channel == |c.m.actions|;
            var atCheck := RequestedBy(pass.patch, ResetRequested(c.m, ImageAt(c, k), channel), ch);
            ResetRequested(c.m, ImageAt(c, k + 1), channel) <==> RequestedBy(pass.sleepPatch, atCheck && !checked, ch)
  {
    HistoryValid(c, k);
    PendingIsRequested(c.m, c.image, History(c, k), channel);
    CheckedChannels(c, k, channel);
    HistoryStep(c, k);
    assert PassSpares(c.m, c.passes[k]);
    PassEffect(c.m, ImageAt(c, k), TurnAt(c, k), channel);
  }

  // ---------- the whole thread ----------

  const RETRY_DELAY := 5 * NANOSECONDS_PER_SECOND

  /** An attempt to connect is refused, or accepted with what then happens on the connection. */
  datatype Attempt = Refused | Accepted(setup: nat, passes: seq<Pass>)

  /** What came of it: nothing, or a connection that ran for a number of passes, each started at a time. */
  datatype Stage = Refusal | Connected(c: Connection, done: nat, starts: seq<int>)

  /** The connection ran for that many passes, and no longer than it should. */
  ghost predicate Served(m: Master, tcp: bool, c: Connection, done: nat, starts: seq<int>) {
    match c
    case Connection(m', tcp', _, _, _, _, passes) =>
      && m' == m && tcp' == tcp && WellTimed(c)
      && done <= |passes|
      && (GivenUp(c, done) || (done == |passes| && Running(c, done)))
      && |starts| == done && StartsOf(c, starts)
  }

  ghost predicate Outlines(stage: Stage, attempt: Attempt) {
    match attempt
    case Refused => stage == Refusal
    case Accepted(setup, passes) => stage.Connected? && stage.c.setup == setup && stage.c.passes == passes
  }

  /** The image and the time at the end of a connection. */
  ghost function ImageAtEnd(c: Connection, done: nat): Bytes {
    if ValidConnection(c) && done <= |c.passes| then ImageAt(c, done) else c.image
  }

  function EndOf(c: Connection, done: nat): int {
    if c.m.actions == [] then c.init else ClockAt(Timing(c), done).now
  }

  ghost function EventsOf(m: Master, stage: Stage): (h: seq<Event>)
    ensures ValidEvents(m, h)
  {
    match stage
    case Refusal => [Announce(NO_RESPONSE_FROM_DEVICE)]
    case Connected(c, done, _) => if c.m == m && ValidConnection(c) && done <= |c.passes| then History(c, done) else []
  }

  ghost function Parts(m: Master, log: seq<Stage>): (parts: seq<seq<Event>>)
    ensures |parts| == |log| && AllValidEvents(m, parts)
  {
    seq(|log|, i requires 0 <= i < |log| => EventsOf(m, log[i]))
  }

  /** All that happened to the image, over all connections, and the time by then. */
  ghost function Story(m: Master, log: seq<Stage>): (h: seq<Event>)
    ensures ValidEvents(m, h)
  {
    Joined(m, Parts(m, log))
  }

  function TimeAfter(start: int, log: seq<Stage>): int {
    if log == [] then start
    else
      match log[|log| - 1]
      case Refusal => TimeAfter(start, log[..|log| - 1]) + RETRY_DELAY
      case Connected(c, done, _) => EndOf(c, done)
  }

  /** A connection begins when and where the stages before it have ended. */
  ghost predicate Follows(m: Master, start: int, image: Bytes, before: seq<Stage>, stage: Stage) {
    match stage
    case Refusal => true
    case Connected(c, done, starts) =>
      && Served(m, true, c, done, starts)
      && c.init == TimeAfter(start, before) && c.image == ImageAfter(m, image, Story(m, before))
  }

  ghost predicate Chronicle(m: Master, start: int, image: Bytes, log: seq<Stage>) {
    forall i | 0 <= i < |log| :: Follows(m, start, image, log[..i], log[i])
  }

  lemma StoryGrows(m: Master, image: Bytes, log: seq<Stage>, stage: Stage)
    ensures ImageAfter(m, image, Story(m, log + [stage])) ==
            ImageAfter(m, ImageAfter(m, image, Story(m, log)), EventsOf(m, stage))
  {
    assert Parts(m, log + [stage]) == Parts(m, log) + [EventsOf(m, stage)];
    JoinedGrows(m, image, Parts(m, log), EventsOf(m, stage));
  }

  lemma TimeGrows(start: int, log: seq<Stage>, stage: Stage)
    ensures TimeAfter(start, log + [stage]) ==
            if stage.Refusal? then TimeAfter(start, log) + RETRY_DELAY else EndOf(stage.c, stage.done)
  {
    assert (log + [stage])[..|log|] == log;
  }

  lemma ChronicleGrows(m: Master, start: int, image: Bytes, log: seq<Stage>, stage: Stage)
    ensures Chronicle(m, start, image, log) && Follows(m, start, image, log, stage) ==>
              Chronicle(m, start, image, log + [stage])
  {
    var more := log + [stage];
    if Chronicle(m, start, image, log) && Follows(m, start, image, log, stage) {
      forall i | 0 <= i < |more| ensures Follows(m, start, image, more[..i], more[i]) {
        assert more[..i] == log[..i];
        assert log[..|log|] == log;
      }
    }
  }

  /** A stage that began at one time and image and ended at another. */
  ghost predicate Happened(m: Master, start: int, before: Bytes, stage: Stage, end: int, after: Bytes) {
    && (stage.Connected? ==>
          Served(m, true, stage.c, stage.done, stage.starts) && stage.c.init == start && stage.c.image == before)
    && end == (if stage.Refusal? then start + RETRY_DELAY else EndOf(stage.c, stage.done))
    && after == ImageAfter(m, before, EventsOf(m, stage))
  }

  /** The stages so far, each following those before it, have led to this time and image. */
  ghost predicate Recorded(m: Master, start: int, first: Bytes, log: seq<Stage>, now: int, image: Bytes) {
    && Chronicle(m, start, first, log)
    && now == TimeAfter(start, log)
    && image == ImageAfter(m, first, Story(m, log))
  }

  lemma RecordGrows(m: Master, start: int, first: Bytes, log: seq<Stage>, now: int, image: Bytes,
                    stage: Stage, now': int, image': Bytes)
    ensures Recorded(m, start, first, log, now, image) && Happened(m, now, image, stage, now', image') ==>
              Recorded(m, start, first, log + [stage], now', image')
  {
    if Recorded(m, start, first, log, now, image) && Happened(m, now, image, stage, now', image') {
      StoryGrows(m, first, log, stage);
      TimeGrows(start, log, stage);
      assert Follows(m, start, first, log, stage);
      ChronicleGrows(m, start, first, log, stage);
    }
  }

  ghost predicate OutlinesAll(log: seq<Stage>, attempts: seq<Attempt>) {
    |log| <= |attempts| && forall i | 0 <= i < |log| :: Outlines(log[i], attempts[i])
  }

  ghost predicate StagesSpare(m: Master, log: seq<Stage>) {
    forall i | 0 <= i < |log| :: log[i].Connected? ==> AllSpare(m, log[i].c.passes)
  }

  lemma StageValid(m: Master, start: int, image: Bytes, before: seq<Stage>, stage: Stage)
    requires Follows(m, start, image, before, stage)
    requires stage.Connected? ==> AllSpare(m, stage.c.passes)
    ensures ValidHistory(m, ImageAfter(m, image, Story(m, before)), EventsOf(m, stage))
  {
    match stage
    case Refusal =>
    case Connected(c, done, _) => HistoryValid(c, done);
  }

  /** Everything that happens over the life of the thread is possible, if others spare the status bytes. */
  lemma StoryValid(m: Master, start: int, image: Bytes, log: seq<Stage>)
    requires Chronicle(m, start, image, log) && StagesSpare(m, log)
    ensures ValidHistory(m, image, Story(m, log))
  {
    var parts := Parts(m, log);
    forall i | 0 <= i < |parts| ensures PossiblePart(m, image, parts[..i], parts[i]) {
      assert parts[..i] == Parts(m, log[..i]);
      assert Follows(m, start, image, log[..i], log[i]);
      StageValid(m, start, image, log[..i], log[i]);
    }
    JoinedValid(m, image, parts);
  }

  /** The status bytes obey the rule over the whole life of the thread, from one connection to the next. */
  lemma ThreadStatus(m: Master, start: int, image: Bytes, log: seq<Stage>, channel: nat)
    requires Disjoint(m, |image|) && Chronicle(m, start, image, log) && StagesSpare(m, log)
    requires channel <= |m.actions|
    ensures ValidHistory(m, image, Story(m, log)) && |ImageAfter(m, image, Story(m, log))| == |image|
    ensures StatusIs(m, image, Story(m, log), channel,
                     ImageAfter(m, image, Story(m, log))[Channels(m)[channel].statusByte])
  {
    StoryValid(m, start, image, log);
    StickyStatus(m, image, Story(m, log), channel);
  }
}
