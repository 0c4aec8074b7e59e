/** The master's thread: it connects, runs the actions of its list when they are due, and over TCP
    gives a connection up after too many failures in a row. */
module MasterThread {
  import opened Connections
  import opened DueDates
  import opened Lateness
  import opened ModbusConfig
  import opened Passes
  import opened ProcessImages
  import opened Scheduler
  import opened StatusBytes
  import opened TimeSpecs
  import opened Transactions
  import opened Widths

  /** The system's monotonic clock; sleeping is exact. */
  class MonotonicClock {
    var now: nat

    constructor ()
    {
      now := 0;
    }

    method GetTime(t: TimeSpec)
      modifies t
      ensures t.Normal() && t.Ns() == now
    {
      t.sec, t.nsec := now / NANOSECONDS_PER_SECOND, now % NANOSECONDS_PER_SECOND;
    }

    method SleepUntil(t: TimeSpec)
      modifies this
      ensures now == Max(old(now), t.Ns())
    {
      if now < t.Ns() {
        now := t.Ns();
      }
    }

    method Elapse(ns: nat)
      modifies this
      ensures now == old(now) + ns
    {
      now := now + ns;
    }
  }

  /** The variables of one connection: its event list, the gap it keeps, the time at which the next
      transaction may start, and the count of failures in a row. */
  class Session {
    const m: Master
    const tcp: bool
    const image: ProcessImage
    const clock: MonotonicClock
    const buffer: array<bv8>
    const list: EventList
    const earliest: TimeSpec
    const gap: TimeSpec
    var errors: nat

    constructor (m: Master, tcp: bool, image: ProcessImage, clock: MonotonicClock, buffer: array<bv8>)
      requires buffer.Length == MAX_REGISTER_SIZE_PER_ACTION && buffer != image.mem
      ensures this.m == m && this.tcp == tcp && this.image == image && this.clock == clock && this.buffer == buffer
      ensures Valid() && fresh(list) && fresh(list.times) && fresh(earliest) && fresh(gap)
      ensures earliest.Ns() == 0 && errors == 0
    {
      this.m, this.tcp, this.image, this.clock, this.buffer := m, tcp, image, clock, buffer;
      list := new EventList();
      earliest := new TimeSpec(0, 0);
      gap := new TimeSpec(0, 0);
      errors := 0;
    }

    ghost predicate Valid()
      reads list, list.times, earliest, gap
    {
      && list.Valid()
      && buffer.Length == MAX_REGISTER_SIZE_PER_ACTION && buffer != image.mem
      && earliest != gap && earliest !in list.times && gap !in list.times
      && earliest.Normal() && gap.Normal() && 0 <= gap.sec
    }

    /** The loop's clock: the time now, and when the next transaction may start. */
    function ClockNow(): Clock
      reads clock, earliest
    {
      Clock(clock.now, earliest.Ns())
    }

    /** Others write to the image. */
    method ApplyPatch(patch: map<nat, bv8>)
      modifies image.mem
      ensures image.mem[..] == Patch(old(image.mem[..]), patch)
    {
      for i := 0 to image.mem.Length
        invariant forall j | 0 <= j < i :: image.mem[j] == Patch(old(image.mem[..]), patch)[j]
        invariant forall j | i <= j < image.mem.Length :: image.mem[j] == old(image.mem[j])
      {
        if i in patch {
          image.mem[i] := patch[i];
        }
      }
    }

    /** Consumes the resets a pass checks: the dispatched action's, or every action's, and the master's. */
    method ConsumeResets(action: nat)
      requires Valid()
      requires action < |m.actions| && Positions(PositionsIn(list.queue), |m.actions|)
      modifies image.mem
      ensures image.mem[..] == ResetAll(old(image.mem[..]), Channels(m), OrderOf(m, tcp, action, list.queue))
    {
      ghost var before := image.mem[..];
      ghost var order := if tcp then TcpOrder(action) else PositionsIn(list.queue);
      if tcp {
        var _ := ResetActionStatus(image, ChannelOf(m.actions[action]));
        assert order[..0] == [] && ResetAll(before, Channels(m), []) == before;
      } else {
        ResetEveryAction();
      }
      var _ := ResetActionStatus(image, Channel(m.statusByte, m.resetByte, 0));
      assert (order + [|m.actions|])[..|order|] == order;
    }

    method ResetEveryAction()
      requires Valid()
      requires Positions(PositionsIn(list.queue), |m.actions|)
      modifies image.mem
      ensures image.mem[..] == ResetAll(old(image.mem[..]), Channels(m), PositionsIn(list.queue))
    {
      ghost var before, order := image.mem[..], PositionsIn(list.queue);
      for i := 0 to |list.events|
        invariant image.mem[..] == ResetAll(before, Channels(m), order[..i])
        modifies image.mem
      {
        assert list.events[i].View() == list.queue[i] && order[i] == list.queue[i].pos;
        var a := m.actions[list.events[i].action];
        var _ := ResetActionStatus(image, ChannelOf(a));
        assert order[..i + 1][..i] == order[..i];
      }
      assert order[..|list.events|] == order;
    }

    /** Fetches the next event; others may have written to the image; then the resets are consumed. */
    method PrepareNext(next: ModbusEvent, patch: map<nat, bv8>)
      requires Valid() && list.queue != []
      requires next.triggerTime !in list.times && next.triggerTime != earliest && next.triggerTime != gap
      requires list.queue[0].pos < |m.actions| && Positions(PositionsIn(Step(list.queue)), |m.actions|)
      modifies list, list.times, next, next.triggerTime, image.mem
      ensures Valid() && list.times == old(list.times)
      ensures list.queue == Step(old(list.queue))
      ensures next.action == old(list.queue[0].pos) && next.triggerTime.Ns() == old(list.queue[0].trigger)
      ensures ClockNow() == old(ClockNow()) && gap.Ns() == old(gap.Ns())
      ensures image.mem[..] == ResetAll(Patch(old(image.mem[..]), patch), Channels(m),
                                        OrderOf(m, tcp, next.action, list.queue))
    {
      var _ := list.GetNextEvent(next);
      ApplyPatch(patch);
      ConsumeResets(next.action);
    }

    /** Sleeps until the event is due, and on until the gap since the last transaction is over. */
    method AwaitStart(triggerTime: TimeSpec, prep: nat) returns (start: int)
      modifies clock
      ensures start == clock.now == StartTime(old(ClockNow()), triggerTime.Ns(), prep)
    {
      clock.Elapse(prep);
      clock.SleepUntil(triggerTime);
      clock.SleepUntil(earliest);
      start := clock.now;
    }

    /** Runs the action and counts failures in a row. */
    method Transact(action: nat, outcome: Outcome) returns (failed: bool)
      requires Valid()
      requires action < |m.actions|
      requires CountAllowed(m.actions[action]) && ValidOutcome(m.actions[action], outcome)
      modifies this`errors, image.mem, buffer
      ensures image.mem[..] == Process(old(image.mem[..]), m.actions[action], outcome).image
      ensures failed <==> Fails(m.actions[action], image.mem.Length, outcome)
      ensures errors == if failed then old(errors) + 1 else 0
    {
      TransactionFails(image.mem[..], m.actions[action], outcome);
      var len, request := ProcessModbusAction(image, m.actions[action], outcome, buffer);
      failed := len < 0;
      errors := if failed then errors + 1 else 0;
    }

    /** Lets the transaction's time pass and notes when the next one may start. */
    method Finish(cost: nat)
      requires Valid()
      modifies clock, earliest
      ensures earliest.Normal()
      ensures ClockNow() == Clock(old(clock.now) + cost, old(clock.now) + cost + gap.Ns())
    {
      var current := new TimeSpec(0, 0);
      clock.Elapse(cost);
      clock.GetTime(current);
      var _ := TimespecAdd(earliest, current, gap);
    }

    /** One pass of the loop. */
    method RunPass(pass: Pass) returns (start: int, failed: bool)
      requires Valid() && list.queue != []
      requires list.queue[0].pos < |m.actions| && Positions(PositionsIn(Step(list.queue)), |m.actions|)
      requires CountAllowed(m.actions[list.queue[0].pos]) && ValidOutcome(m.actions[list.queue[0].pos], pass.outcome)
      modifies this, list, list.times, earliest, buffer, image.mem, clock
      ensures Valid() && list.times == old(list.times)
      ensures list.queue == Step(old(list.queue))
      ensures start == StartTime(old(ClockNow()), old(list.queue[0].trigger), pass.prep)
      ensures ClockNow() ==
              Tick(old(ClockNow()), old(list.queue[0].trigger), Cycle(pass.prep, pass.cost), old(gap.Ns()))
      ensures gap.Ns() == old(gap.Ns())
      ensures PassDone(m, tcp, old(image.mem[..]), old(list.queue[0].pos), list.queue, pass, image.mem[..])
      ensures failed <==> Fails(m.actions[old(list.queue[0].pos)], image.mem.Length, pass.outcome)
      ensures errors == if failed then old(errors) + 1 else 0
    {
      ghost var before := image.mem[..];
      var next := new ModbusEvent();
      PrepareNext(next, pass.patch);
      OrderFits(m, tcp, next.action, list.queue);
      PassIsDone(m, tcp, before, image.mem[..], next.action, list.queue, pass);
      start, failed := Execute(next, pass);
    }

    /** Waits for the event, while others may write to the image, runs its action and notes the time. */
    method Execute(next: ModbusEvent, pass: Pass) returns (start: int, failed: bool)
      requires Valid() && next.triggerTime != earliest
      requires next.action < |m.actions|
      requires CountAllowed(m.actions[next.action]) && ValidOutcome(m.actions[next.action], pass.outcome)
      modifies this`errors, clock, earliest, image.mem, buffer
      ensures Valid()
      ensures start == StartTime(old(ClockNow()), next.triggerTime.Ns(), pass.prep)
      ensures ClockNow() == Tick(old(ClockNow()), next.triggerTime.Ns(), Cycle(pass.prep, pass.cost), gap.Ns())
      ensures image.mem[..] ==
              Process(Patch(old(image.mem[..]), pass.sleepPatch), m.actions[next.action], pass.outcome).image
      ensures failed <==> Fails(m.actions[next.action], image.mem.Length, pass.outcome)
      ensures errors == if failed then old(errors) + 1 else 0
    {
      start := AwaitStart(next.triggerTime, pass.prep);
      ApplyPatch(pass.sleepPatch);
      failed := Transact(next.action, pass.outcome);
      Finish(pass.cost);
    }

    // ---------- the session follows the connection ----------

    /** The session is in the state that the connection has reached after k passes. */
    ghost predicate InState(c: Connection, k: nat)
      reads this, list, list.times, earliest, gap, clock, image.mem
    {
      && Valid()
      && ValidConnection(c) && k <= |c.passes|
      && c.m == m && c.tcp == tcp && c.gap == gap.Ns() && |c.image| == image.mem.Length
      && list.queue == QueueOf(c, k)
      && ClockNow() == ClockAt(Timing(c), k)
      && image.mem[..] == ImageAfter(m, c.image, History(c, k))
      && errors == Errors(Failures(c), k)
    }

    ghost predicate Reached(c: Connection, k: nat)
      reads this, list, list.times, earliest, gap, clock, image.mem
    {
      match c
      case Connection(_, _, _, _, _, _, passes) => k <= |passes| && InState(c, k) && Running(c, k)
    }

    ghost predicate Abandoned(c: Connection, k: nat)
      reads this, list, list.times, earliest, gap, clock, image.mem
    {
      match c
      case Connection(_, _, _, _, _, _, passes) => k <= |passes| && InState(c, k) && GivenUp(c, k)
    }

    method RunPassOf(ghost c: Connection, ghost k: nat, pass: Pass) returns (start: int)
      requires k < |c.passes| && pass == c.passes[k] && c.m.actions != []
      requires Reached(c, k)
      modifies this, list, list.times, earliest, buffer, image.mem, clock
      ensures if tcp && errors > MAX_CONSECUTIVE_ERRORS then Abandoned(c, k + 1) else Reached(c, k + 1)
      ensures list.times == old(list.times)
      ensures StartedAt(c, k, start)
    {
      assert InState(c, k);
      HistoryStep(c, k);
      KeepOrGiveUp(c, k);
      var failed;
      start, failed := RunPass(pass);
      assert InState(c, k + 1);
    }

    /** One pass, and whether it is the last one; records when its transaction started. */
    method RunNext(ghost c: Connection, ghost k: nat, pass: Pass, ghost starts: seq<int>)
      returns (stop: bool, ghost more: seq<int>)
      requires k < |c.passes| && pass == c.passes[k] && c.m.actions != []
      requires Reached(c, k)
      requires |starts| == k && StartsOf(c, starts)
      modifies this, list, list.times, earliest, buffer, image.mem, clock
      ensures if stop then Abandoned(c, k + 1) else Reached(c, k + 1)
      ensures list.times == old(list.times)
      ensures |more| == k + 1 && StartsOf(c, more)
    {
      var start := RunPassOf(c, k, pass);
      StartsGrow(c, starts, start);
      return tcp && errors > MAX_CONSECUTIVE_ERRORS, starts + [start];
    }

    /** Runs a connection: every pass until, over TCP, there have been too many failures in a row. */
    method RunConnection(ghost c: Connection, passes: seq<Pass>) returns (done: nat, ghost starts: seq<int>)
      requires Reached(c, 0) && c.passes == passes && c.m.actions != []
      modifies this, list, list.times, earliest, buffer, image.mem, clock
      ensures done <= |passes|
      ensures Abandoned(c, done) || (done == |passes| && Reached(c, done))
      ensures |starts| == done && StartsOf(c, starts)
    {
      done, starts := 0, [];
      while done < |passes|
        invariant done <= |passes| && Reached(c, done)
        invariant list.times == old(list.times)
        invariant |starts| == done && StartsOf(c, starts)
      {
        var stop;
        stop, starts := RunNext(c, done, passes[done], starts);
        done := done + 1;
        if stop {
          return;
        }
      }
    }

    // ---------- the start of a connection ----------

    method Schedule() returns (r: int)
      requires Valid()
      requires m.actions == [] || ValidMaster(m)
      modifies list
      ensures Valid()
      ensures r == if m.actions == [] then -1 else 0
      ensures r == 0 ==> fresh(list.times)
      ensures r == 0 ==> list.queue == Initial(Intervals(m), clock.now + NANOSECONDS_PER_SECOND)
    {
      var micros := Micros(m);
      forall us | us in micros ensures us < UINT32 {
        var i :| 0 <= i < |micros| && micros[i] == us;
        assert us == m.actions[i].interval_us;
      }
      var current := new TimeSpec(0, 0);
      clock.GetTime(current);
      r := list.InitScheduler(micros, current);
    }

    method ComputeTimeout(ghost intervals: seq<int>, ghost base: int) returns (sec: int, usec: int)
      requires list.Valid() && ValidIntervals(intervals) && list.queue == Initial(intervals, base)
      ensures IsTimeout(sec, usec, intervals)
    {
      var min := new TimeSpec(0, 0);
      list.GetMinimalInterval(min);
      ghost var ns := min.Ns();
      MinimalOfInitial(intervals, base, ns);
      sec, usec := HalvedTimeout(min);
      assert IsMinimumOf(ns, intervals);
    }

    method ComputeGap(ghost intervals: seq<int>, ghost base: int)
      requires list.Valid() && gap !in list.times
      requires ValidIntervals(intervals) && list.queue == Initial(intervals, base) && |intervals| == |m.actions|
      modifies gap
      ensures list.Valid()
      ensures gap.Normal() && 0 <= gap.sec
      ensures IsGap(tcp, intervals, gap.Ns())
    {
      GapOfInitial(intervals, base);
      if tcp {
        list.GetMinimalEventOffset(gap);
      } else {
        list.GetRtuEventOffset(gap, |m.actions|);
        RtuGapOfInitial(intervals, base, gap.Ns(), |m.actions|);
      }
    }

    /** Announces that all is well, once the rest of the connection is set up. */
    method Announce(ghost c: Connection, setup: nat)
      requires c.setup == setup
      requires Valid() && ValidMaster(m) && Foreseen(m, c.passes)
      requires c.m == m && c.tcp == tcp && c.gap == gap.Ns() && c.image == image.mem[..] && c.init == clock.now
      requires list.queue == Initial(Intervals(m), clock.now + NANOSECONDS_PER_SECOND)
      requires earliest.Ns() == 0 && errors == 0
      modifies clock, image.mem
      ensures Reached(c, 0)
    {
      StartState(c);
      clock.Elapse(setup);
      var _ := ReportError(image, m.statusByte, NO_ERROR);
      assert InState(c, 0);
    }

    /** A connection made now: schedules the actions, derives the timeout and the gap, and announces
        that all is well; or reports that there is nothing to schedule. */
    method Connect(setup: nat, ghost passes: seq<Pass>) returns (r: int, sec: int, usec: int, ghost c: Connection)
      requires Valid() && earliest.Ns() == 0 && errors == 0
      requires (m.actions == [] || ValidMaster(m)) && Foreseen(m, passes)
      modifies list, gap, clock, image.mem
      ensures m.actions == [] ==>
                && r == -1 && clock.now == old(clock.now)
                && image.mem[..] == PutBytes(old(image.mem[..]), m.statusByte, [0xf0])
      ensures m.actions != [] ==>
                && r == 0 && fresh(list.times)
                && c == Connection(m, tcp, old(image.mem[..]), old(clock.now), setup, c.gap, passes)
                && WellTimed(c) && Reached(c, 0)
                && IsTimeout(sec, usec, Intervals(m))
    {
      sec, usec := 0, 0;
      c := Connection(m, tcp, image.mem[..], clock.now, setup, 0, passes);
      r := Schedule();
      if r < 0 {
        var _ := ReportError(image, m.statusByte, INTERNAL_ERROR);
        return;
      }
      IntervalsValid(m);
      sec, usec := ComputeTimeout(Intervals(m), clock.now + NANOSECONDS_PER_SECOND);
      ComputeGap(Intervals(m), clock.now + NANOSECONDS_PER_SECOND);
      c := c.(gap := gap.Ns());
      ForeseenIsValid(c);
      Announce(c, setup);
    }
  }

  /** One connection, from its scheduler to the end of its loop. */
  method ServeConnection(m: Master, tcp: bool, image: ProcessImage, clock: MonotonicClock, buffer: array<bv8>,
                         setup: nat, passes: seq<Pass>)
    returns (r: int, ghost c: Connection, done: nat, ghost starts: seq<int>)
    requires buffer.Length == MAX_REGISTER_SIZE_PER_ACTION && buffer != image.mem
    requires (m.actions == [] || ValidMaster(m)) && Foreseen(m, passes)
    modifies buffer, image.mem, clock
    ensures r == if m.actions == [] then -1 else 0
    ensures r == -1 ==> clock.now == old(clock.now)
    ensures r == -1 ==> image.mem[..] == PutBytes(old(image.mem[..]), m.statusByte, [0xf0])
    ensures r == 0 ==> Served(m, tcp, c, done, starts)
    ensures r == 0 && Brisk(c) && SetUpInTime(c) ==> WithinBound(c, starts)
    ensures r == 0 ==> c.init == old(clock.now) && c.image == old(image.mem[..])
    ensures r == 0 ==> c.setup == setup && c.passes == passes
    ensures r == 0 ==> EndOf(c, done) == clock.now
    ensures r == 0 ==> image.mem[..] == ImageAtEnd(c, done)
  {
    var session := new Session(m, tcp, image, clock, buffer);
    var sec, usec;
    r, sec, usec, c := session.Connect(setup, passes);
    done, starts := 0, [];
    if r == 0 {
      done, starts := session.RunConnection(c, passes);
      if Brisk(c) && SetUpInTime(c) {
        StartsBounded(c, starts);
      }
    }
  }

  /** Nobody answers: reports it and waits before the next attempt. */
  method Refuse(m: Master, image: ProcessImage, clock: MonotonicClock)
    modifies image.mem, clock
    ensures image.mem[..] == PutBytes(old(image.mem[..]), m.statusByte, [0x11])
    ensures clock.now == old(clock.now) + 5_000_000_000
  {
    var _ := ReportError(image, m.statusByte, NO_RESPONSE_FROM_DEVICE);
    clock.Elapse(RETRY_DELAY);
  }

  /** One attempt to connect, and the connection if there is one. */
  method Try(m: Master, image: ProcessImage, clock: MonotonicClock, buffer: array<bv8>, attempt: Attempt)
    returns (r: int, ghost stage: Stage)
    requires buffer.Length == MAX_REGISTER_SIZE_PER_ACTION && buffer != image.mem
    requires m.actions == [] || ValidMaster(m)
    requires attempt.Accepted? ==> Foreseen(m, attempt.passes)
    modifies buffer, image.mem, clock
    ensures r == if attempt.Accepted? && m.actions == [] then -1 else 0
    ensures r == -1 ==> clock.now == old(clock.now)
    ensures r == -1 ==> image.mem[..] == PutBytes(old(image.mem[..]), m.statusByte, [0xf0])
    ensures r == 0 ==> Outlines(stage, attempt)
    ensures r == 0 ==> Happened(m, old(clock.now), old(image.mem[..]), stage, clock.now, image.mem[..])
  {
    match attempt
    case Refused =>
      stage := Refusal;
      Refuse(m, image, clock);
      r := 0;
      AppendEvent(m, old(image.mem[..]), [], Announce(NO_RESPONSE_FROM_DEVICE));
    case Accepted(setup, passes) =>
      ghost var c, starts;
      var done;
      r, c, done, starts := ServeConnection(m, true, image, clock, buffer, setup, passes);
      stage := Connected(c, done, starts);
  }

  /** The TCP thread: after a refused attempt it waits and tries again, after an abandoned connection
      it connects anew. Every connection starts over with a queue based on its own time, and with the
      image as the previous ones have left it. Without actions the first accepted attempt is the last. */
  method Serve(m: Master, image: ProcessImage, clock: MonotonicClock, attempts: seq<Attempt>)
    returns (r: int, ghost log: seq<Stage>)
    requires m.actions == [] || ValidMaster(m)
    requires forall i | 0 <= i < |attempts| :: attempts[i].Accepted? ==> Foreseen(m, attempts[i].passes)
    modifies image.mem, clock
    ensures OutlinesAll(log, attempts)
    ensures r == -1 ==> m.actions == [] && |log| < |attempts| && attempts[|log|].Accepted?
    ensures r != -1 ==> r == 0 && |log| == |attempts|
    ensures r == 0 ==> Recorded(m, old(clock.now), old(image.mem[..]), log, clock.now, image.mem[..])
    ensures r == -1 ==>
              exists last | image.mem[..] == PutBytes(last, m.statusByte, [0xf0]) ::
                Recorded(m, old(clock.now), old(image.mem[..]), log, clock.now, last)
  {
    var buffer := new bv8[MAX_REGISTER_SIZE_PER_ACTION];
    ghost var start, first := clock.now, image.mem[..];
    log := [];
    for i := 0 to |attempts|
      invariant |log| == i && OutlinesAll(log, attempts)
      invariant Recorded(m, start, first, log, clock.now, image.mem[..])
    {
      ghost var now, last := clock.now, image.mem[..];
      ghost var stage;
      r, stage := Try(m, image, clock, buffer, attempts[i]);
      if r < 0 {
        return;
      }
      RecordGrows(m, start, first, log, now, last, stage, clock.now, image.mem[..]);
      log := log + [stage];
    }
    return 0, log;
  }
}
