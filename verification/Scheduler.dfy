/** The scheduler's event list, updated in place, and the values the master derives from it. */
module Scheduler {
  import opened DueDates
  import opened Sums
  import opened TimeSpecs
  import opened Widths

  class SchedulerEvent {
    const intervalTime: TimeSpec
    const triggerTime: TimeSpec
    const action: nat

    constructor (action: nat)
      ensures this.action == action
      ensures fresh(intervalTime) && fresh(triggerTime) && intervalTime != triggerTime
    {
      this.action := action;
      intervalTime := new TimeSpec(0, 0);
      triggerTime := new TimeSpec(0, 0);
    }

    /** Both times are normalised, and the interval is one that was given in 32-bit microseconds. */
    ghost predicate Valid()
      reads intervalTime, triggerTime
    {
      && intervalTime.Normal() && triggerTime.Normal()
      && intervalTime != triggerTime
      && 0 <= intervalTime.Ns() < UINT32 * 1000
    }

    function View(): Entry
      reads intervalTime, triggerTime
    {
      Entry(action, intervalTime.Ns(), triggerTime.Ns())
    }

    /** Adds the interval to the due date, in place. */
    method AddInterval()
      requires Valid()
      modifies triggerTime
      ensures Valid() && View() == Advance(old(View()))
    {
      var _ := TimespecAdd(triggerTime, triggerTime, intervalTime);
    }
  }

  /** What the scheduler hands to the dispatch loop. */
  class ModbusEvent {
    const triggerTime: TimeSpec
    var action: nat

    constructor ()
      ensures fresh(triggerTime)
    {
      triggerTime := new TimeSpec(0, 0);
      action := 0;
    }

    method Take(event: SchedulerEvent)
      requires event.triggerTime.Normal()
      modifies this, triggerTime
      ensures action == event.action
      ensures triggerTime.Normal() && triggerTime.Ns() == old(event.triggerTime.Ns())
    {
      triggerTime.sec := event.triggerTime.sec;
      triggerTime.nsec := event.triggerTime.nsec;
      action := event.action;
    }
  }

  /** The list stands for the queue; its events share none of their times, which are among the given ones. */
  ghost predicate Represents(events: seq<SchedulerEvent>, queue: seq<Entry>, times: set<TimeSpec>)
    reads times
  {
    && |events| == |queue|
    && (forall i | 0 <= i < |events| :: events[i].triggerTime in times && events[i].intervalTime in times)
    && (forall i | 0 <= i < |events| :: events[i].Valid() && events[i].View() == queue[i])
    && (forall i, j | 0 <= i < |events| && 0 <= j < |events| :: events[i].triggerTime != events[j].intervalTime)
    && (forall i, j | 0 <= i < j < |events| ::
          events[i].triggerTime != events[j].triggerTime && events[i].intervalTime != events[j].intervalTime)
  }

  lemma InsertRepresents(events: seq<SchedulerEvent>, queue: seq<Entry>, times: set<TimeSpec>,
                         e: SchedulerEvent, p: nat)
    requires p <= |events|
    requires Represents(events, queue, times) && e.Valid()
    requires e.intervalTime !in times && e.triggerTime !in times
    ensures Represents(events[..p] + [e] + events[p..], queue[..p] + [e.View()] + queue[p..],
                       times + {e.intervalTime, e.triggerTime})
  {
    var r := events[..p] + [e] + events[p..];
    assert forall i | 0 <= i < |r| :: r[i] == if i < p then events[i] else if i == p then e else events[i - 1];
  }

  lemma TailRepresents(events: seq<SchedulerEvent>, queue: seq<Entry>, times: set<TimeSpec>)
    requires events != []
    requires Represents(events, queue, times)
    ensures Represents(events[1..], queue[1..], times - {events[0].intervalTime, events[0].triggerTime})
  {
    assert forall i | 0 <= i < |events| - 1 :: events[1..][i] == events[i + 1];
  }

  class EventList {
    var events: seq<SchedulerEvent>
    ghost var queue: seq<Entry>
    ghost var times: set<TimeSpec>

    constructor ()
      ensures Valid() && fresh(times) && queue == []
    {
      events, queue, times := [], [], {};
    }

    ghost predicate Valid()
      reads this, times
    {
      Represents(events, queue, times)
    }

    /** Puts an event in front of the first one that is due strictly later. */
    method InsertEventByDueDate(newEvent: SchedulerEvent)
      requires Valid() && newEvent.Valid()
      requires newEvent.triggerTime !in times && newEvent.intervalTime !in times
      modifies this
      ensures Valid()
      ensures times == old(times) + {newEvent.intervalTime, newEvent.triggerTime}
      ensures queue == Insert(newEvent.View(), old(queue))
    {
      var i := 0;
      var inserted := false;
      while i < |events|
        invariant 0 <= i <= |events| && !inserted
        invariant forall j | 0 <= j < i :: queue[j].trigger <= newEvent.View().trigger
        modifies {}
      {
        NormalForm(newEvent.triggerTime.sec, newEvent.triggerTime.nsec,
                   events[i].triggerTime.sec, events[i].triggerTime.nsec);
        assert events[i].View() == queue[i];
        if newEvent.triggerTime.sec < events[i].triggerTime.sec {
          inserted := true;
          break;
        } else if newEvent.triggerTime.sec == events[i].triggerTime.sec
                  && newEvent.triggerTime.nsec < events[i].triggerTime.nsec {
          inserted := true;
          break;
        }
        i := i + 1;
      }
      InsertAt(newEvent.View(), queue, i);
      Link(newEvent, i, inserted);
    }

    /** Puts an event in front of the i-th one, or at the tail. */
    method Link(newEvent: SchedulerEvent, i: nat, before: bool)
      requires Valid() && newEvent.Valid()
      requires newEvent.triggerTime !in times && newEvent.intervalTime !in times
      requires i <= |events| && (!before ==> i == |events|)
      modifies this
      ensures Valid()
      ensures times == old(times) + {newEvent.intervalTime, newEvent.triggerTime}
      ensures queue == old(queue)[..i] + [newEvent.View()] + old(queue)[i..]
    {
      InsertRepresents(events, queue, times, newEvent, i);
      queue := queue[..i] + [newEvent.View()] + queue[i..];
      times := times + {newEvent.intervalTime, newEvent.triggerTime};
      if before {
        events := events[..i] + [newEvent] + events[i..];
      } else {
        assert events[..i] + [newEvent] + events[i..] == events + [newEvent];
        events := events + [newEvent];
      }
    }

    /** The first event of a list is its head; every other one is inserted by due date. */
    method AddEvent(newEvent: SchedulerEvent)
      requires Valid() && newEvent.Valid()
      requires newEvent.triggerTime !in times && newEvent.intervalTime !in times
      modifies this
      ensures Valid()
      ensures times == old(times) + {newEvent.intervalTime, newEvent.triggerTime}
      ensures queue == Insert(newEvent.View(), old(queue))
    {
      if events == [] {
        InsertRepresents(events, queue, times, newEvent, 0);
        events, queue, times := [newEvent], [newEvent.View()], times + {newEvent.intervalTime, newEvent.triggerTime};
      } else {
        InsertEventByDueDate(newEvent);
      }
    }

    /** Fills the list with one event per action, first due one interval and one second from now. */
    method InitScheduler(intervals_us: seq<nat>, current: TimeSpec) returns (r: int)
      requires current.Normal()
      requires forall us | us in intervals_us :: us < UINT32
      modifies this
      ensures r == if intervals_us == [] then -1 else 0
      ensures r == -1 ==> unchanged(this)
      ensures r == 0 ==> Valid() && fresh(times)
      ensures r == 0 ==> queue == Initial(IntervalsNs(intervals_us), current.Ns() + NANOSECONDS_PER_SECOND)
    {
      if intervals_us == [] {
        return -1;
      }
      events, queue, times := [], [], {};
      AddEvents(intervals_us, current);
      return 0;
    }

    method AddEvents(intervals_us: seq<nat>, current: TimeSpec)
      requires Valid() && queue == [] && times == {}
      requires current.Normal()
      requires forall us | us in intervals_us :: us < UINT32
      modifies this
      ensures Valid() && fresh(times)
      ensures queue == Initial(IntervalsNs(intervals_us), current.Ns() + NANOSECONDS_PER_SECOND)
    {
      ghost var intervals, base := IntervalsNs(intervals_us), current.Ns() + NANOSECONDS_PER_SECOND;
      for i := 0 to |intervals_us|
        invariant Valid() && fresh(times)
        invariant queue == InitialOf(intervals, base, i)
      {
        assert intervals_us[i] in intervals_us;
        var newEvent := NewEvent(i, intervals_us[i], current);
        AddEvent(newEvent);
      }
    }

    method RemoveHead() returns (head: SchedulerEvent)
      requires Valid() && events != []
      modifies this
      ensures Valid() && head.Valid()
      ensures head == old(events)[0] && head.View() == old(queue)[0]
      ensures head.intervalTime !in times && head.triggerTime !in times
      ensures old(times) == times + {head.intervalTime, head.triggerTime}
      ensures queue == old(queue)[1..]
    {
      TailRepresents(events, queue, times);
      head := events[0];
      events, queue, times := events[1..], queue[1..], times - {head.intervalTime, head.triggerTime};
    }

    /** Hands out the head and puts it back, one interval after its old due date. */
    method DetermineNextEvent(next: ModbusEvent)
      requires Valid() && events != []
      requires next.triggerTime !in times
      modifies this, next, next.triggerTime, times
      ensures Valid() && times == old(times)
      ensures queue == Step(old(queue))
      ensures next.action == old(queue)[0].pos
      ensures next.triggerTime.Normal() && next.triggerTime.Ns() == old(queue)[0].trigger
    {
      assert events[0].View() == queue[0] && events[0].Valid();
      next.Take(events[0]);
      var event := RemoveHead();
      event.AddInterval();
      InsertEventByDueDate(event);
    }

    method GetNextEvent(next: ModbusEvent) returns (r: int)
      requires Valid()
      requires next.triggerTime !in times
      modifies this, next, next.triggerTime, times
      ensures Valid() && times == old(times)
      ensures old(queue) == [] ==> r == -1 && queue == []
      ensures old(queue) != [] ==>
                && r == 0
                && queue == Step(old(queue))
                && next.action == old(queue)[0].pos
                && next.triggerTime.Normal() && next.triggerTime.Ns() == old(queue)[0].trigger
    {
      if events == [] {
        return -1;
      }
      DetermineNextEvent(next);
      return 0;
    }

    /** The smallest interval in the list, or the seed if the list is empty. */
    method GetMinimalInterval(min: TimeSpec)
      requires Valid()
      requires min !in times
      modifies min
      ensures min.Normal() && 0 <= min.sec
      ensures queue == [] ==> min.sec == INT32_MAX && min.nsec == NANOSECONDS_PER_SECOND - 1
      ensures queue != [] ==> IsMinimalInterval(min.Ns(), queue)
    {
      min.sec, min.nsec := INT32_MAX, NANOSECONDS_PER_SECOND - 1;
      var tmp := new TimeSpec(0, 0);
      for i := 0 to |events|
        invariant min.Normal() && 0 <= min.sec <= INT32_MAX
        invariant Valid()
        invariant i == 0 ==> min.sec == INT32_MAX && min.nsec == NANOSECONDS_PER_SECOND - 1
        invariant i > 0 ==> IsMinimalInterval(min.Ns(), queue[..i])
        modifies min, tmp
      {
        assert events[i].Valid() && events[i].View() == queue[i];
        MinimumStep(queue, i, min.Ns());
        Minimize(min, tmp, events[i].intervalTime);
      }
      assert queue[..|events|] == queue;
    }

    /** The gap kept between two transactions over TCP: a quarter of the mean time between due dates. */
    method GetMinimalEventOffset(offset: TimeSpec)
      requires Valid() && events != []
      requires offset !in times
      requires ValidIntervals(IntervalsIn(queue))
      modifies offset
      ensures Valid()
      ensures offset.Normal() && 0 <= offset.sec && offset.Ns() == TcpGap(IntervalsIn(queue))
    {
      ghost var intervals := IntervalsIn(queue);
      var inverse := 0.0;
      for i := 0 to |events|
        invariant inverse == Rate(intervals[..i])
      {
        assert events[i].View() == queue[i];
        var interval := events[i].intervalTime.nsec + events[i].intervalTime.sec * NANOSECONDS_PER_SECOND;
        assert interval == intervals[i];
        inverse := inverse + Inverse(interval);
        RateOfPrefix(intervals, i + 1);
      }
      assert intervals[..|events|] == intervals;
      RatePositive(intervals);
      var mean := MeanTime(inverse);
      offset.sec := mean / 4 / NANOSECONDS_PER_SECOND;
      offset.nsec := mean / 4 % NANOSECONDS_PER_SECOND;
    }

    /** The gap kept between two transactions on a serial line. */
    method GetRtuEventOffset(offset: TimeSpec, actionCount: nat)
      requires Valid() && events != []
      requires offset !in times
      requires 0 < actionCount
      modifies offset
      ensures Valid()
      ensures offset.Normal() && 0 <= offset.sec
      ensures IsRtuGap(offset.Ns(), queue, actionCount)
    {
      GetMinimalInterval(offset);
      ghost var min := offset.Ns();
      var minOffset := offset.sec;
      minOffset := minOffset * NANOSECONDS_PER_SECOND;
      minOffset := minOffset + offset.nsec;
      minOffset := minOffset / actionCount;
      minOffset := minOffset / 4;
      ShareNonNegative(min, actionCount);
      RtuGapIsShare(min, actionCount, minOffset);
      offset.sec := minOffset / NANOSECONDS_PER_SECOND;
      offset.nsec := minOffset % NANOSECONDS_PER_SECOND;
      assert IsMinimalInterval(min, queue);
    }
  }

  /** A new event for the action at a position, with its interval and its first due date. */
  method NewEvent(action: nat, interval_us: nat, current: TimeSpec) returns (e: SchedulerEvent)
    requires interval_us < UINT32
    requires current.Normal()
    ensures fresh(e) && fresh(e.intervalTime) && fresh(e.triggerTime)
    ensures e.Valid()
    ensures e.View() == Entry(action, interval_us * 1000, current.Ns() + NANOSECONDS_PER_SECOND + interval_us * 1000)
  {
    e := new SchedulerEvent(action);
    e.intervalTime.sec := interval_us / MICROSECONDS_PER_SECOND;
    e.intervalTime.nsec := interval_us % MICROSECONDS_PER_SECOND * 1000;
    var _ := TimespecAdd(e.triggerTime, current, e.intervalTime);
    e.triggerTime.sec := e.triggerTime.sec + 1;
  }

  /** Takes over the interval if it is the smaller one, as told by the sign of the difference. */
  method Minimize(min: TimeSpec, tmp: TimeSpec, interval: TimeSpec)
    requires min != tmp && min != interval && tmp != interval
    requires min.Normal() && interval.Normal()
    requires 0 <= min.sec <= INT32_MAX && 0 <= interval.sec <= INT32_MAX
    modifies min, tmp
    ensures min.Normal() && 0 <= min.sec <= INT32_MAX
    ensures min.Ns() == if interval.Ns() < old(min.Ns()) then interval.Ns() else old(min.Ns())
  {
    DiffSignRight(interval.Ns(), min.Ns());
    var sign := TimespecDiff(tmp, interval, min);
    if sign < 0 {
      min.sec := interval.sec;
      min.nsec := interval.nsec;
    }
  }

  /** Half the minimal interval, in whole microseconds but never zero; the given time is overwritten. */
  method HalvedTimeout(min: TimeSpec) returns (sec: int, usec: int)
    requires min.Normal() && 0 <= min.Ns()
    modifies min
    ensures 0 <= sec && 0 <= usec < MICROSECONDS_PER_SECOND
    ensures sec * MICROSECONDS_PER_SECOND + usec == if old(min.Ns()) < 2000 then 1 else old(min.Ns()) / 2000
  {
    if min.sec % 2 != 0 {
      min.nsec := min.nsec + NANOSECONDS_PER_SECOND;
    }
    sec := min.sec / 2;
    usec := min.nsec / 1000 / 2;
    if sec <= 0 && usec <= 0 {
      usec := 1;
    }
  }

  // ---------- what the derived values mean ----------

  function IntervalsNs(us: seq<nat>): (ns: seq<int>)
    ensures |ns| == |us|
  {
    seq(|us|, i requires 0 <= i < |us| => us[i] * 1000)
  }

  ghost predicate IsMinimalInterval(m: int, q: seq<Entry>) {
    && (exists e :: e in q && e.interval == m)
    && (forall e | e in q :: m <= e.interval)
  }

  lemma MinimumStep(q: seq<Entry>, i: nat, m: int)
    requires i < |q|
    requires i > 0 ==> IsMinimalInterval(m, q[..i])
    requires i == 0 ==> q[0].interval < m
    ensures IsMinimalInterval(if q[i].interval < m then q[i].interval else m, q[..i + 1])
  {
    assert q[..i + 1] == q[..i] + [q[i]];
    assert q[i] in q[..i + 1];
    if i > 0 {
      var e :| e in q[..i] && e.interval == m;
      assert e in q[..i + 1];
    }
  }

  function IntervalsIn(q: seq<Entry>): (r: seq<int>)
    ensures |r| == |q|
  {
    seq(|q|, i requires 0 <= i < |q| => q[i].interval)
  }

  /** The mean time between two due dates, in whole nanoseconds. */
  function MeanTime(rate: real): (t: nat)
    requires 0.0 < rate
  {
    (1.0 / rate).Floor
  }

  /** A quarter of the harmonic mean of the intervals divided by their number, rounded down. */
  function TcpGap(intervals: seq<int>): (g: nat)
    requires ValidIntervals(intervals)
  {
    RatePositive(intervals);
    MeanTime(Rate(intervals)) / 4
  }

  function RtuGap(min: int, count: nat): int
    requires 0 < count
  {
    min / count / 4
  }

  lemma ShareNonNegative(min: int, count: nat)
    requires 0 <= min && 0 < count
    ensures 0 <= RtuGap(min, count)
  {}

  /** Four gaps for each of n actions fit the minimal interval. */
  predicate SharesFit(gap: int, min: int, n: nat) {
    4 * n * gap <= min
  }

  /** A longer gap does not. */
  predicate IsShare(gap: int, min: int, n: nat) {
    SharesFit(gap, min, n) && !SharesFit(gap + 1, min, n)
  }

  /** The serial gap is the longest of which four for each action fit the minimal interval. */
  lemma RtuGapIsLargest(min: int, n: nat, gap: int)
    requires 0 < n
    ensures SharesFit(gap, min, n) <==> gap <= RtuGap(min, n)
  {
    var q := min / n;
    assert 4 * n * gap == 4 * gap * n;
    if SharesFit(gap, min, n) {
      QuotientBound(min, n, 4 * gap);
    }
    if gap <= q / 4 {
      MultiplyMonotone(4 * gap, q, n);
      assert q * n <= min;
    }
  }

  lemma RtuGapIsShare(min: int, n: nat, gap: int)
    requires 0 < n
    ensures IsShare(gap, min, n) <==> gap == RtuGap(min, n)
  {
    RtuGapIsLargest(min, n, gap);
    RtuGapIsLargest(min, n, gap + 1);
  }

  /** What the serial gap is for the queue. */
  ghost predicate IsRtuGap(gap: int, q: seq<Entry>, count: nat) {
    exists min :: IsMinimalInterval(min, q) && IsShare(gap, min, count)
  }

  /** The TCP gap is the longest one that, four times per dispatch, fits the due dates. */
  lemma TcpGapIsLargest(intervals: seq<int>, gap: int)
    requires ValidIntervals(intervals)
    ensures Load(4 * gap, intervals) <= 1.0 <==> gap <= TcpGap(intervals)
  {
    RatePositive(intervals);
    var u := Rate(intervals);
    var mean := 1.0 / u;
    assert mean * u == 1.0;
    var x := (4 * gap) as real;
    assert x * u - 1.0 == (x - mean) * u;
    assert x * u <= 1.0 <==> x <= mean;
    assert x <= mean <==> 4 * gap <= mean.Floor;
  }

  lemma {:induction false} RateBound(intervals: seq<int>, min: int)
    requires 0 < min
    requires forall i | 0 <= i < |intervals| :: min <= intervals[i]
    ensures Load(min, intervals) <= |intervals| as real
  {
    var n := |intervals| - 1;
    if 0 <= n {
      RateBound(intervals[..n], min);
      var m, x := min as real, Inverse(intervals[n]);
      DivideBoundBelow(1, intervals[n], min);
      assert m * (Rate(intervals[..n]) + x) == m * Rate(intervals[..n]) + m * x;
    }
  }

  /** On a serial line the gap is n times smaller than a quarter of the minimal interval, and never
      longer than the TCP gap for the same actions, so all bounds for the latter hold there too. */
  lemma RtuGapWithinTcpGap(intervals: seq<int>, min: int)
    requires ValidIntervals(intervals)
    requires min in intervals && forall i | 0 <= i < |intervals| :: min <= intervals[i]
    ensures 0 <= 4 * |intervals| * RtuGap(min, |intervals|) <= min
    ensures RtuGap(min, |intervals|) <= TcpGap(intervals)
  {
    QuarterShare(min, |intervals|);
    RtuGapLoad(intervals, min);
    TcpGapIsLargest(intervals, RtuGap(min, |intervals|));
  }

  lemma RtuGapLoad(intervals: seq<int>, min: int)
    requires ValidIntervals(intervals)
    requires min in intervals && forall i | 0 <= i < |intervals| :: min <= intervals[i]
    ensures Load(4 * RtuGap(min, |intervals|), intervals) <= 1.0
  {
    var n, gap := |intervals|, 4 * RtuGap(min, |intervals|);
    assert gap as real * n as real <= min as real by {
      QuarterShare(min, n);
    }
    assert min as real * Rate(intervals) <= n as real by {
      RateBound(intervals, min);
    }
    RatePositive(intervals);
    ShareOfRate(gap as real, n as real, min as real, Rate(intervals));
  }

  lemma QuarterShare(min: int, n: nat)
    requires 0 < min && 0 < n
    ensures 0 <= 4 * n * RtuGap(min, n) <= min
    ensures (4 * RtuGap(min, n)) as real * n as real <= min as real
  {
    var share := min / n;
    assert n * share <= min;
    MultiplyMonotone(0, share / 4, n);
    MultiplyMonotone(4 * (share / 4), share, n);
    assert 4 * n * (share / 4) == 4 * (share / 4) * n;
    assert (4 * (share / 4) * n) as real == (4 * (share / 4)) as real * n as real;
  }

  lemma ShareOfRate(x: real, n: real, m: real, u: real)
    requires 0.0 < n && 0.0 < u
    requires x * n <= m
    requires m * u <= n
    ensures x * u <= 1.0
  {
    assert (x * n) * u <= m * u by {
      assert m * u - (x * n) * u == (m - x * n) * u;
    }
    assert (x * n) * u == (x * u) * n;
    assert n - (x * u) * n == (1.0 - x * u) * n;
  }

  // ---------- the rate of a queue is that of its action list, in whatever order it stands ----------

  lemma {:induction false} RateOfConcat(a: seq<int>, b: seq<int>)
    requires forall i | 0 <= i < |a + b| :: 0 < (a + b)[i]
    ensures forall i | 0 <= i < |a| :: 0 < a[i]
    ensures forall i | 0 <= i < |b| :: 0 < b[i]
    ensures Rate(a + b) == Rate(a) + Rate(b)
  {
    assert forall i | 0 <= i < |a| :: a[i] == (a + b)[i];
    assert forall i | 0 <= i < |b| :: b[i] == (a + b)[|a| + i];
    if b == [] {
      assert a + b == a;
    } else {
      var n := |b| - 1;
      assert (a + b)[..|a + b| - 1] == a + b[..n];
      RateOfConcat(a, b[..n]);
    }
  }

  lemma RateOfInsert(e: Entry, q: seq<Entry>)
    requires 0 < e.interval
    requires forall i | 0 <= i < |q| :: 0 < q[i].interval
    ensures var r := IntervalsIn(Insert(e, q));
            && (forall i | 0 <= i < |r| :: 0 < r[i])
            && Rate(r) == Rate(IntervalsIn(q)) + Inverse(e.interval)
  {
    var p := InsertSplits(e, q);
    IntervalsWith(e, q, p);
    RateWith(IntervalsIn(q), p, e.interval);
  }

  lemma IntervalsWith(e: Entry, q: seq<Entry>, p: nat)
    requires p <= |q|
    ensures IntervalsIn(q[..p] + [e] + q[p..]) == IntervalsIn(q)[..p] + ([e.interval] + IntervalsIn(q)[p..])
  {}

  lemma RateWith(s: seq<int>, p: nat, x: int)
    requires p <= |s| && 0 < x
    requires forall i | 0 <= i < |s| :: 0 < s[i]
    ensures var r := s[..p] + ([x] + s[p..]);
            && (forall i | 0 <= i < |r| :: 0 < r[i])
            && Rate(r) == Rate(s) + Inverse(x)
  {
    assert s == s[..p] + s[p..];
    RateOfConcat(s[..p], s[p..]);
    RateOfConcat([x], s[p..]);
    RateOfConcat(s[..p], [x] + s[p..]);
    assert [x][..0] == [];
    assert Rate([x]) == Inverse(x);
  }

  lemma {:induction false} RateOfInitial(intervals: seq<int>, base: int, n: nat)
    requires n <= |intervals|
    requires forall i | 0 <= i < |intervals| :: 0 < intervals[i]
    ensures var r := IntervalsIn(InitialOf(intervals, base, n));
            && (forall i | 0 <= i < |r| :: 0 < r[i])
            && Rate(r) == Rate(intervals[..n])
  {
    if n > 0 {
      RateOfInitial(intervals, base, n - 1);
      var q, e := InitialOf(intervals, base, n - 1), Entry(n - 1, intervals[n - 1], base + intervals[n - 1]);
      assert forall i | 0 <= i < |q| :: q[i].interval == IntervalsIn(q)[i];
      assert InitialOf(intervals, base, n) == Insert(e, q);
      RateOfInsert(e, q);
      RateOfPrefix(intervals, n);
    }
  }

  lemma RateOfPrefix(intervals: seq<int>, n: nat)
    requires 0 < n <= |intervals|
    requires forall i | 0 <= i < |intervals| :: 0 < intervals[i]
    ensures Rate(intervals[..n]) == Rate(intervals[..n - 1]) + Inverse(intervals[n - 1])
  {
    assert intervals[..n][..n - 1] == intervals[..n - 1];
  }

  /** The gap computed from a freshly initialised list is the one for its action list. */
  lemma GapOfInitial(intervals: seq<int>, base: int)
    requires ValidIntervals(intervals)
    ensures ValidIntervals(IntervalsIn(Initial(intervals, base)))
    ensures TcpGap(IntervalsIn(Initial(intervals, base))) == TcpGap(intervals)
  {
    RateOfInitial(intervals, base, |intervals|);
    assert intervals[..|intervals|] == intervals;
  }
}
