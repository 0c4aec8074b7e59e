/** The scheduler's queue as a value: a sequence of entries, the step that dispatches its head, and
    what holds in every state reached from an initial queue. Times are integer nanoseconds. */
module DueDates {
  import opened Sums

  /** pos is the action's position in the configured list, trigger its next due date. */
  datatype Entry = Entry(pos: nat, interval: int, trigger: int)

  /** The order in which entries turn out to be dispatched. The scheduler itself compares triggers only. */
  predicate Before(a: Entry, b: Entry) {
    || a.trigger < b.trigger
    || (a.trigger == b.trigger && (a.interval > b.interval || (a.interval == b.interval && a.pos < b.pos)))
  }

  ghost predicate Sorted(q: seq<Entry>) {
    forall i, j | 0 <= i < j < |q| :: Before(q[i], q[j])
  }

  ghost predicate ValidIntervals(intervals: seq<int>) {
    intervals != [] && forall i | 0 <= i < |intervals| :: 0 < intervals[i]
  }

  // ---------- the operations ----------

  /** Insertion in front of the first entry that is due strictly later. */
  function Insert(e: Entry, q: seq<Entry>): (r: seq<Entry>)
    ensures |r| == |q| + 1
  {
    if q == [] then [e]
    else if e.trigger < q[0].trigger then [e] + q
    else [q[0]] + Insert(e, q[1..])
  }

  /** The queue built from the first n actions of a list: each is first due one interval after base. */
  function InitialOf(intervals: seq<int>, base: int, n: nat): (q: seq<Entry>)
    requires n <= |intervals|
    ensures |q| == n
  {
    if n == 0 then []
    else Insert(Entry(n - 1, intervals[n - 1], base + intervals[n - 1]), InitialOf(intervals, base, n - 1))
  }

  function Initial(intervals: seq<int>, base: int): (q: seq<Entry>)
    ensures |q| == |intervals|
  {
    InitialOf(intervals, base, |intervals|)
  }

  function Advance(e: Entry): Entry {
    e.(trigger := e.trigger + e.interval)
  }

  /** Dispatching the head: its next due date counts from the old one, not from the current time. */
  function Step(q: seq<Entry>): (r: seq<Entry>)
    requires q != []
    ensures |r| == |q|
  {
    Insert(Advance(q[0]), q[1..])
  }

  /** The queue after k dispatches. */
  function QueueAt(intervals: seq<int>, base: int, k: nat): (q: seq<Entry>)
    requires intervals != []
    ensures |q| == |intervals|
  {
    if k == 0 then Initial(intervals, base) else Step(QueueAt(intervals, base, k - 1))
  }

  /** The k-th dispatched entry (from 0), with the trigger time it was due at. */
  function Dispatched(intervals: seq<int>, base: int, k: nat): Entry
    requires intervals != []
  {
    QueueAt(intervals, base, k)[0]
  }

  /** How often each action is among the first k dispatches. */
  function Counts(intervals: seq<int>, base: int, k: nat): (c: seq<nat>)
    requires intervals != []
    ensures |c| == |intervals|
  {
    if k == 0 then seq(|intervals|, i => 0)
    else Bump(Counts(intervals, base, k - 1), Dispatched(intervals, base, k - 1).pos)
  }

  function Bump(c: seq<nat>, pos: nat): (d: seq<nat>)
    ensures |d| == |c|
  {
    if pos < |c| then c[pos := c[pos] + 1] else c
  }

  function Count(intervals: seq<int>, base: int, k: nat, pos: nat): nat
    requires intervals != []
    requires pos < |intervals|
  {
    Counts(intervals, base, k)[pos]
  }

  /** The m-th due date of an action, m >= 1. */
  function Due(intervals: seq<int>, base: int, pos: nat, m: nat): Entry
    requires pos < |intervals|
  {
    Entry(pos, intervals[pos], DueTime(base, intervals[pos], m))
  }

  /** base plus m times the interval. */
  function DueTime(base: int, interval: int, m: nat): int {
    if m == 0 then base else DueTime(base, interval, m - 1) + interval
  }

  lemma {:induction false} DueTimeIsProduct(base: int, interval: int, m: nat)
    ensures DueTime(base, interval, m) == base + m * interval
  {
    if m > 0 {
      DueTimeIsProduct(base, interval, m - 1);
      assert m * interval == (m - 1) * interval + interval;
    }
  }

  // ---------- the invariant ----------

  /** What holds of the queue q after dispatches counted, per action, by c. Sortedness alone is not
      inductive: it needs the last two conjuncts, which relate an entry's previous due date to the
      head and to its twins. */
  ghost predicate Invariant(intervals: seq<int>, base: int, q: seq<Entry>, c: seq<nat>) {
    && |q| == |c| == |intervals| != 0
    && Sorted(q)
    && Accounted(intervals, base, q, c)
    && HeadDominates(q)
    && TwinsInListOrder(q)
  }

  /** The queue holds exactly the next due date of each action. */
  ghost predicate Accounted(intervals: seq<int>, base: int, q: seq<Entry>, c: seq<nat>)
    requires |c| == |intervals|
  {
    forall e :: e in q <==> IsNext(intervals, base, c, e)
  }

  predicate IsNext(intervals: seq<int>, base: int, c: seq<nat>, e: Entry)
    requires |c| == |intervals|
  {
    e.pos < |c| && e == Due(intervals, base, e.pos, c[e.pos] + 1)
  }

  /** Every entry's previous due date is no later than the head. */
  ghost predicate HeadDominates(q: seq<Entry>)
    requires q != []
  {
    forall e | e in q :: e.trigger - e.interval <= q[0].trigger
  }

  /** Of two actions with the same interval, one that is a whole interval ahead precedes the other in the list. */
  ghost predicate TwinsInListOrder(q: seq<Entry>) {
    forall e, h | e in q && h in q :: InListOrder(e, h)
  }

  predicate InListOrder(e: Entry, h: Entry) {
    e.interval == h.interval && e.trigger == h.trigger + h.interval ==> e.pos < h.pos
  }

  lemma {:induction false} InsertSplits(e: Entry, q: seq<Entry>) returns (p: nat)
    ensures p <= |q|
    ensures Insert(e, q) == q[..p] + [e] + q[p..]
    ensures forall i | 0 <= i < p :: q[i].trigger <= e.trigger
    ensures p < |q| ==> e.trigger < q[p].trigger
  {
    if q == [] || e.trigger < q[0].trigger {
      p := 0;
    } else {
      p := InsertSplits(e, q[1..]);
      p := p + 1;
      assert q[..p] == [q[0]] + q[1..][..p - 1];
      assert q[p..] == q[1..][p - 1..];
    }
  }

  lemma InsertAt(e: Entry, q: seq<Entry>, p: nat)
    requires p <= |q|
    requires forall i | 0 <= i < p :: q[i].trigger <= e.trigger
    requires p < |q| ==> e.trigger < q[p].trigger
    ensures Insert(e, q) == q[..p] + [e] + q[p..]
  {
    var r := InsertSplits(e, q);
    assert r == p;
  }

  lemma InsertedAt(e: Entry, q: seq<Entry>, p: nat)
    requires p <= |q| && Sorted(q)
    requires forall i | 0 <= i < p :: Before(q[i], e)
    requires forall i | p <= i < |q| :: Before(e, q[i])
    ensures Sorted(q[..p] + [e] + q[p..])
    ensures forall x :: x in q[..p] + [e] + q[p..] <==> x == e || x in q
  {
    assert q == q[..p] + q[p..];
  }

  /** Inserting keeps the order if the new entry follows every entry it ties with. */
  lemma InsertSorted(e: Entry, q: seq<Entry>)
    requires Sorted(q)
    requires forall x | x in q && x.trigger == e.trigger :: Before(x, e)
    ensures Sorted(Insert(e, q))
    ensures forall x :: x in Insert(e, q) <==> x == e || x in q
  {
    var p := InsertSplits(e, q);
    forall i | 0 <= i < p ensures Before(q[i], e) {
      assert q[i] in q;
    }
    forall i | p <= i < |q| ensures Before(e, q[i]) {
      assert i == p || Before(q[p], q[i]);
    }
    InsertedAt(e, q, p);
  }

  lemma {:induction false} InitialOfInvariant(intervals: seq<int>, base: int, n: nat)
    requires n <= |intervals|
    requires forall i | 0 <= i < |intervals| :: 0 < intervals[i]
    ensures Sorted(InitialOf(intervals, base, n))
    ensures forall e :: e in InitialOf(intervals, base, n) <==> e.pos < n && e == Due(intervals, base, e.pos, 1)
  {
    if n > 0 {
      InitialOfInvariant(intervals, base, n - 1);
      FirstDue(base, intervals);
      InsertSorted(Entry(n - 1, intervals[n - 1], base + intervals[n - 1]), InitialOf(intervals, base, n - 1));
    }
  }

  lemma InitialInvariant(intervals: seq<int>, base: int)
    requires forall i | 0 <= i < |intervals| :: 0 < intervals[i]
    ensures Sorted(Initial(intervals, base))
    ensures forall e :: e in Initial(intervals, base) <==> e.pos < |intervals| && e == Due(intervals, base, e.pos, 1)
  {
    InitialOfInvariant(intervals, base, |intervals|);
  }

  lemma FirstDue(base: int, intervals: seq<int>)
    ensures forall a: nat | a < |intervals| :: Due(intervals, base, a, 1) == Entry(a, intervals[a], base + intervals[a])
  {
    forall a: nat | a < |intervals|
      ensures Due(intervals, base, a, 1) == Entry(a, intervals[a], base + intervals[a])
    {
      assert DueTime(base, intervals[a], 1) == DueTime(base, intervals[a], 0) + intervals[a];
    }
  }

  lemma NextDue(intervals: seq<int>, base: int, pos: nat, m: nat)
    requires pos < |intervals|
    ensures Advance(Due(intervals, base, pos, m)) == Due(intervals, base, pos, m + 1)
  {
  }

  /** The head of a sorted queue occurs once, so the tail holds exactly the other entries. */
  lemma TailOfSorted(q: seq<Entry>)
    requires q != [] && Sorted(q)
    ensures forall e :: e in q[1..] <==> e in q && e != q[0]
    ensures forall e | e in q[1..] :: Before(q[0], e)
  {
    assert forall i | 1 <= i < |q| :: Before(q[0], q[i]) && q[i] == q[1..][i - 1];
  }

  /** The step keeps the tie-break order, and the two conditions that make it inductive. */
  lemma StepKeepsOrder(q: seq<Entry>)
    requires q != [] && Sorted(q) && HeadDominates(q) && TwinsInListOrder(q)
    requires forall e | e in q :: 0 < e.interval
    ensures Sorted(Step(q)) && HeadDominates(Step(q)) && TwinsInListOrder(Step(q))
    ensures forall e :: e in Step(q) <==> e == Advance(q[0]) || (e in q && e != q[0])
    ensures Before(q[0], Step(q)[0])
  {
    var h, r := q[0], Step(q);
    TailOfSorted(q);
    forall x | x in q[1..] && x.trigger == Advance(h).trigger ensures Before(x, Advance(h)) {
      assert x in q && h in q && InListOrder(x, h);
    }
    InsertSorted(Advance(h), q[1..]);
    assert r[0] in r;
    forall e, g | e in r && g in r ensures InListOrder(e, g) {
      if e == Advance(h) && g != e {
        assert Before(h, g);
      } else if e != Advance(h) && g != Advance(h) {
        assert InListOrder(e, g);
      }
    }
  }

  lemma StepKeepsAccount(intervals: seq<int>, base: int, q: seq<Entry>, c: seq<nat>, h: Entry, r: seq<Entry>)
    requires |c| == |intervals|
    requires Accounted(intervals, base, q, c)
    requires h in q
    requires forall e :: e in r <==> e == Advance(h) || (e in q && e != h)
    ensures h.pos < |c|
    ensures Accounted(intervals, base, r, Bump(c, h.pos))
  {
    assert IsNext(intervals, base, c, h);
    var d := Bump(c, h.pos);
    NextDue(intervals, base, h.pos, c[h.pos] + 1);
    forall e ensures e in r <==> IsNext(intervals, base, d, e) {
      if e.pos < |d| && e.pos != h.pos {
        assert e in q <==> IsNext(intervals, base, c, e);
      }
    }
  }

  lemma StepKeepsInvariant(intervals: seq<int>, base: int, q: seq<Entry>, c: seq<nat>)
    requires ValidIntervals(intervals)
    requires Invariant(intervals, base, q, c)
    ensures q[0].pos < |c|
    ensures Invariant(intervals, base, Step(q), Bump(c, q[0].pos))
    ensures Before(q[0], Step(q)[0])
  {
    StepKeepsOrder(q);
    StepKeepsAccount(intervals, base, q, c, q[0], Step(q));
  }

  lemma StartHolds(intervals: seq<int>, base: int)
    requires ValidIntervals(intervals)
    ensures Invariant(intervals, base, Initial(intervals, base), seq(|intervals|, i => 0))
  {
    var q, c := Initial(intervals, base), seq(|intervals|, i => 0);
    InitialInvariant(intervals, base);
    assert forall e :: e in q <==> IsNext(intervals, base, c, e);
    FirstDue(base, intervals);
    assert q[0] in q;
    assert forall e | e in q :: e.trigger == base + e.interval && 0 < e.interval;
  }

  lemma InvariantHolds(intervals: seq<int>, base: int, k: nat)
    requires ValidIntervals(intervals)
    ensures Invariant(intervals, base, QueueAt(intervals, base, k), Counts(intervals, base, k))
  {
    StartHolds(intervals, base);
    for i := 0 to k
      invariant Invariant(intervals, base, QueueAt(intervals, base, i), Counts(intervals, base, i))
    {
      StepKeepsInvariant(intervals, base, QueueAt(intervals, base, i), Counts(intervals, base, i));
    }
  }

  /** The same, for one action. */
  lemma NextDueQueued(intervals: seq<int>, base: int, k: nat, pos: nat)
    requires ValidIntervals(intervals)
    requires pos < |intervals|
    ensures Due(intervals, base, pos, Count(intervals, base, k, pos) + 1) in QueueAt(intervals, base, k)
  {
    InvariantHolds(intervals, base, k);
    assert IsNext(intervals, base, Counts(intervals, base, k),
                  Due(intervals, base, pos, Count(intervals, base, k, pos) + 1));
  }

  // ---------- main results ----------

  /** In every reachable state the queue is strictly sorted by trigger ascending, then interval
      descending, then list position ascending, and an action waits at most its interval behind the head. */
  lemma TieBreakOrder(intervals: seq<int>, base: int, k: nat)
    requires ValidIntervals(intervals)
    ensures Sorted(QueueAt(intervals, base, k))
    ensures forall e | e in QueueAt(intervals, base, k) ::
              Dispatched(intervals, base, k).trigger <= e.trigger <= Dispatched(intervals, base, k).trigger + e.interval
  {
    InvariantHolds(intervals, base, k);
    var q := QueueAt(intervals, base, k);
    TailOfSorted(q);
    assert HeadDominates(q);
  }

  /** The queue holds each action exactly once, with its configured interval and its next due date. */
  lemma QueueContents(intervals: seq<int>, base: int, k: nat, e: Entry)
    requires ValidIntervals(intervals)
    ensures e in QueueAt(intervals, base, k) <==>
              e.pos < |intervals| && e == Due(intervals, base, e.pos, Count(intervals, base, k, e.pos) + 1)
  {
    InvariantHolds(intervals, base, k);
    assert e in QueueAt(intervals, base, k) <==> IsNext(intervals, base, Counts(intervals, base, k), e);
  }

  /** The k-th dispatch is the next due date of its action. */
  lemma DispatchIsDue(intervals: seq<int>, base: int, k: nat)
    requires ValidIntervals(intervals)
    ensures var d := Dispatched(intervals, base, k);
            && d.pos < |intervals|
            && d == Due(intervals, base, d.pos, Count(intervals, base, k, d.pos) + 1)
  {
    QueueContents(intervals, base, k, QueueAt(intervals, base, k)[0]);
  }

  /** No drift: an action's c-th repetition is triggered exactly c + 1 intervals after base. */
  lemma NoDrift(intervals: seq<int>, base: int, k: nat)
    requires ValidIntervals(intervals)
    ensures var d := Dispatched(intervals, base, k);
            && d.pos < |intervals|
            && d.trigger == base + (Count(intervals, base, k, d.pos) + 1) * intervals[d.pos]
  {
    DispatchIsDue(intervals, base, k);
    var d := Dispatched(intervals, base, k);
    DueTimeIsProduct(base, intervals[d.pos], Count(intervals, base, k, d.pos) + 1);
  }

  /** Nothing queued precedes the head. */
  lemma HeadFirst(intervals: seq<int>, base: int, k: nat, pos: nat)
    requires ValidIntervals(intervals)
    requires pos < |intervals|
    ensures var d := Dispatched(intervals, base, k);
            var e := Due(intervals, base, pos, Count(intervals, base, k, pos) + 1);
            d == e || Before(d, e)
  {
    TieBreakOrder(intervals, base, k);
    TailOfSorted(QueueAt(intervals, base, k));
    NextDueQueued(intervals, base, k, pos);
  }

  lemma NextOrdered(intervals: seq<int>, base: int, k: nat)
    requires ValidIntervals(intervals)
    ensures Before(Dispatched(intervals, base, k), Dispatched(intervals, base, k + 1))
  {
    InvariantHolds(intervals, base, k);
    StepKeepsInvariant(intervals, base, QueueAt(intervals, base, k), Counts(intervals, base, k));
  }

  /** Dispatches happen in strictly increasing order, over a whole run. */
  lemma {:induction false} DispatchesOrdered(intervals: seq<int>, base: int, i: nat, j: nat)
    requires ValidIntervals(intervals)
    requires i < j
    ensures Before(Dispatched(intervals, base, i), Dispatched(intervals, base, j))
    decreases j
  {
    NextOrdered(intervals, base, j - 1);
    if i < j - 1 {
      DispatchesOrdered(intervals, base, i, j - 1);
    }
  }

  lemma TriggersNonDecreasing(intervals: seq<int>, base: int, i: nat, j: nat)
    requires ValidIntervals(intervals)
    requires i <= j
    ensures Dispatched(intervals, base, i).trigger <= Dispatched(intervals, base, j).trigger
  {
    if i < j {
      DispatchesOrdered(intervals, base, i, j);
    }
  }

  lemma {:induction false} CountMonotone(intervals: seq<int>, base: int, i: nat, j: nat, pos: nat)
    requires ValidIntervals(intervals)
    requires pos < |intervals|
    requires i <= j
    ensures Count(intervals, base, i, pos) <= Count(intervals, base, j, pos)
    decreases j
  {
    if i < j {
      CountMonotone(intervals, base, i, j - 1, pos);
    }
  }

  /** The dispatches of an action carry its due dates 1, 2, 3, ... without a gap. */
  lemma {:induction false} DispatchOfDue(intervals: seq<int>, base: int, k: nat, pos: nat, m: nat) returns (i: nat)
    requires ValidIntervals(intervals)
    requires pos < |intervals|
    requires 1 <= m <= Count(intervals, base, k, pos)
    ensures i < k && Dispatched(intervals, base, i) == Due(intervals, base, pos, m)
    decreases k
  {
    DispatchIsDue(intervals, base, k - 1);
    if m <= Count(intervals, base, k - 1, pos) {
      i := DispatchOfDue(intervals, base, k - 1, pos, m);
    } else {
      i := k - 1;
    }
  }

  lemma {:induction false} DueMonotone(intervals: seq<int>, base: int, pos: nat, m: nat, m': nat)
    requires ValidIntervals(intervals)
    requires pos < |intervals|
    requires m < m'
    ensures Before(Due(intervals, base, pos, m), Due(intervals, base, pos, m'))
  {
    if m + 1 < m' {
      DueMonotone(intervals, base, pos, m, m' - 1);
    }
  }

  /** The run enumerates the due dates of all actions in the tie-break order, omitting none: a due
      date is among the first k dispatches exactly if it precedes the k-th. */
  lemma DispatchedExactlyIfBefore(intervals: seq<int>, base: int, k: nat, pos: nat, m: nat)
    requires ValidIntervals(intervals)
    requires pos < |intervals| && 1 <= m
    ensures Before(Due(intervals, base, pos, m), Dispatched(intervals, base, k)) <==>
              exists i | 0 <= i < k :: Dispatched(intervals, base, i) == Due(intervals, base, pos, m)
  {
    var c := Count(intervals, base, k, pos);
    if m <= c {
      var i := DispatchOfDue(intervals, base, k, pos, m);
      DispatchesOrdered(intervals, base, i, k);
    } else {
      HeadFirst(intervals, base, k, pos);
      if c + 1 < m {
        DueMonotone(intervals, base, pos, c + 1, m);
      }
      forall i | 0 <= i < k ensures Dispatched(intervals, base, i) != Due(intervals, base, pos, m) {
        DispatchIsDue(intervals, base, i);
        CountMonotone(intervals, base, i + 1, k, pos);
        if Dispatched(intervals, base, i) == Due(intervals, base, pos, m) {
          DueInjective(intervals, base, pos, m, Count(intervals, base, i, pos) + 1);
        }
      }
    }
  }

  lemma DueInjective(intervals: seq<int>, base: int, pos: nat, m: nat, m': nat)
    requires ValidIntervals(intervals)
    requires pos < |intervals|
    requires Due(intervals, base, pos, m) == Due(intervals, base, pos, m')
    ensures m == m'
  {
    if m < m' {
      DueMonotone(intervals, base, pos, m, m');
    } else if m' < m {
      DueMonotone(intervals, base, pos, m', m);
    }
  }

  /** By the k-th due date, an action has been dispatched for all its due dates before it ... */
  lemma CountBelow(intervals: seq<int>, base: int, k: nat, pos: nat)
    requires ValidIntervals(intervals)
    requires pos < |intervals|
    ensures Demanded(Count(intervals, base, k, pos), intervals[pos], Dispatched(intervals, base, k).trigger - base)
  {
    HeadFirst(intervals, base, k, pos);
    DueTimeIsProduct(base, intervals[pos], Count(intervals, base, k, pos) + 1);
  }

  /** ... and for none after the last one dispatched. */
  lemma CountAbove(intervals: seq<int>, base: int, k: nat, pos: nat)
    requires ValidIntervals(intervals)
    requires pos < |intervals| && 1 <= k
    ensures Count(intervals, base, k, pos) * intervals[pos] <= Dispatched(intervals, base, k - 1).trigger - base
  {
    var c := Count(intervals, base, k, pos);
    DueTimeIsProduct(base, intervals[pos], c);
    if c == 0 {
      DispatchAfterBase(intervals, base, k - 1);
    } else {
      var i := DispatchOfDue(intervals, base, k, pos, c);
      TriggersNonDecreasing(intervals, base, i, k - 1);
    }
  }

  /** An action is dispatched in j..k at most once more than its interval fits between the two due dates. */
  lemma CountInWindow(intervals: seq<int>, base: int, j: nat, k: nat, pos: nat)
    requires ValidIntervals(intervals)
    requires pos < |intervals| && j <= k
    ensures Fits(Count(intervals, base, j, pos), Count(intervals, base, k + 1, pos), intervals[pos],
                 Dispatched(intervals, base, k).trigger - Dispatched(intervals, base, j).trigger)
  {
    CountBelow(intervals, base, j, pos);
    CountAbove(intervals, base, k + 1, pos);
    Subtract(Count(intervals, base, k + 1, pos), Count(intervals, base, j, pos), intervals[pos]);
  }

  lemma Subtract(late: int, early: int, n: int)
    ensures (late - early - 1) * n == late * n - (early + 1) * n
  {}

  lemma DispatchAfterBase(intervals: seq<int>, base: int, k: nat)
    requires ValidIntervals(intervals)
    ensures base < Dispatched(intervals, base, k).trigger
  {
    DispatchIsDue(intervals, base, k);
    var d := Dispatched(intervals, base, k);
    DueMonotone(intervals, base, d.pos, 0, Count(intervals, base, k, d.pos) + 1);
  }

  /** Exact counts: when exactly the due dates up to t have been dispatched, each action has been
      dispatched floor((t - base) / interval) times. */
  lemma ExactCount(intervals: seq<int>, base: int, k: nat, t: int, pos: nat)
    requires ValidIntervals(intervals)
    requires pos < |intervals|
    requires base <= t
    requires 1 <= k ==> Dispatched(intervals, base, k - 1).trigger <= t
    requires t < Dispatched(intervals, base, k).trigger
    ensures Count(intervals, base, k, pos) == (t - base) / intervals[pos]
  {
    var c, n := Count(intervals, base, k, pos), intervals[pos];
    HeadFirst(intervals, base, k, pos);
    DueTimeIsProduct(base, n, c + 1);
    if 1 <= k {
      CountAbove(intervals, base, k, pos);
    }
    QuotientBetween(t - base, n, c);
  }

  lemma QuotientBetween(x: int, n: int, c: int)
    requires 0 < n
    requires c * n <= x < (c + 1) * n
    ensures x / n == c
  {
    QuotientBound(x, n, c);
    if c < x / n {
      MultiplyMonotone(c + 1, x / n, n);
    }
  }

  lemma MultiplyMonotone(a: int, b: int, n: int)
    requires 0 <= n && a <= b
    ensures a * n <= b * n
  {
    assert b * n == a * n + (b - a) * n;
  }

  lemma QuotientBound(x: int, n: int, c: int)
    requires 0 < n
    requires c * n <= x
    ensures c <= x / n
  {
    var d := x / n;
    assert x == d * n + x % n;
    if d < c {
      MultiplyMonotone(d + 1, c, n);
      assert false;
    }
  }

  /** The counts add up: one action per dispatch. */
  lemma CountsAddUp(intervals: seq<int>, base: int, k: nat)
    requires ValidIntervals(intervals)
    ensures Sum(Counts(intervals, base, k)) == k
  {
    SumZero(Counts(intervals, base, 0));
    for i := 0 to k
      invariant Sum(Counts(intervals, base, i)) == i
    {
      DispatchIsDue(intervals, base, i);
      var c, p := Counts(intervals, base, i), Dispatched(intervals, base, i).pos;
      SumUpdate(c, p, c[p] + 1);
    }
  }

  lemma WindowFits(intervals: seq<int>, base: int, j: nat, k: nat)
    requires ValidIntervals(intervals)
    requires j <= k
    ensures FitsWindow(Counts(intervals, base, j), Counts(intervals, base, k + 1), intervals,
                       Dispatched(intervals, base, k).trigger - Dispatched(intervals, base, j).trigger)
  {
    forall a: nat | a < |intervals|
      ensures Fits(Counts(intervals, base, j)[a], Counts(intervals, base, k + 1)[a], intervals[a],
                   Dispatched(intervals, base, k).trigger - Dispatched(intervals, base, j).trigger)
    {
      CountInWindow(intervals, base, j, k, a);
    }
  }

  lemma DemandMet(intervals: seq<int>, base: int, k: nat)
    requires ValidIntervals(intervals)
    ensures MeetsDemand(Counts(intervals, base, k), intervals, Dispatched(intervals, base, k).trigger - base)
  {
    forall a: nat | a < |intervals|
      ensures Demanded(Counts(intervals, base, k)[a], intervals[a], Dispatched(intervals, base, k).trigger - base)
    {
      CountBelow(intervals, base, k, a);
    }
  }

  /** The dispatches j..k fit between the two due dates: at most their distance times the rate, plus one per action. */
  lemma DispatchesBetween(intervals: seq<int>, base: int, j: nat, k: nat)
    requires ValidIntervals(intervals)
    requires j <= k
    ensures (k + 1 - j - |intervals|) as real
            <= Load(Dispatched(intervals, base, k).trigger - Dispatched(intervals, base, j).trigger, intervals)
  {
    WindowFits(intervals, base, j, k);
    CountsAddUp(intervals, base, j);
    CountsAddUp(intervals, base, k + 1);
    DispatchesInWindow(Counts(intervals, base, j), Counts(intervals, base, k + 1), intervals,
                       Dispatched(intervals, base, k).trigger - Dispatched(intervals, base, j).trigger);
  }

  /** The k-th due date is at most k + n mean times between due dates after base. */
  lemma DispatchesBy(intervals: seq<int>, base: int, k: nat)
    requires ValidIntervals(intervals)
    ensures Load(Dispatched(intervals, base, k).trigger - base, intervals) <= (k + |intervals|) as real
  {
    DemandMet(intervals, base, k);
    CountsAddUp(intervals, base, k);
    DispatchesDemanded(Counts(intervals, base, k), intervals, Dispatched(intervals, base, k).trigger - base);
  }

  /** How often each action fits into a window of w nanoseconds, ends included; e itself counted once. */
  function WindowQuota(intervals: seq<int>, w: int, e: nat): seq<int>
    requires forall i | 0 <= i < |intervals| :: 0 < intervals[i]
  {
    seq(|intervals|, i requires 0 <= i < |intervals| => if i == e then 0 else w / intervals[i] + 1)
  }

  /** Starvation freedom with a bound: if dispatches i < j are consecutive ones of the same action e,
      the others in between number at most the sum over all other b of floor(I_e / I_b) + 1. */
  lemma ConsecutiveDispatches(intervals: seq<int>, base: int, i: nat, j: nat, e: nat)
    requires ValidIntervals(intervals)
    requires i < j && e < |intervals|
    requires Dispatched(intervals, base, i).pos == Dispatched(intervals, base, j).pos == e
    requires Count(intervals, base, j, e) == Count(intervals, base, i, e) + 1
    ensures j - i - 1 <= Sum(WindowQuota(intervals, intervals[e], e))
  {
    var c: seq<int>, d: seq<int> := Counts(intervals, base, i), Counts(intervals, base, j);
    var quota := WindowQuota(intervals, intervals[e], e);
    DispatchIsDue(intervals, base, i);
    DispatchIsDue(intervals, base, j);
    NextDue(intervals, base, e, Count(intervals, base, i, e) + 1);
    forall b | 0 <= b < |intervals| ensures d[b] - c[b] <= quota[e := 1][b] {
      if b != e {
        CountBelow(intervals, base, i, b);
        CountAbove(intervals, base, j, b);
        TriggersNonDecreasing(intervals, base, j - 1, j);
        Subtract(d[b], c[b], intervals[b]);
        QuotientBound(intervals[e], intervals[b], d[b] - c[b] - 1);
      }
    }
    SumOfDifferences(c, d, quota[e := 1]);
    SumUpdate(quota, e, 1);
    CountsAddUp(intervals, base, i);
    CountsAddUp(intervals, base, j);
  }

  /** Every due date is served: the m-th one of an action is among any k dispatches, once k exceeds
      the number of due dates of all actions up to it. */
  lemma EveryDueDateServed(intervals: seq<int>, base: int, pos: nat, m: nat, k: nat)
    requires ValidIntervals(intervals)
    requires pos < |intervals| && 1 <= m
    requires Sum(seq(|intervals|, b requires 0 <= b < |intervals| => m * intervals[pos] / intervals[b])) < k
    ensures exists i | 0 <= i < k :: Dispatched(intervals, base, i) == Due(intervals, base, pos, m)
  {
    var quota := seq(|intervals|, b requires 0 <= b < |intervals| => m * intervals[pos] / intervals[b]);
    SumNonNegative(quota, intervals, m * intervals[pos]);
    if Count(intervals, base, k, pos) < m {
      CountMonotone(intervals, base, k - 1, k, pos);
      CountBelow(intervals, base, k - 1, pos);
      MultiplyMonotone(Count(intervals, base, k - 1, pos) + 1, m, intervals[pos]);
      forall b | 0 <= b < |intervals| ensures Counts(intervals, base, k)[b] <= quota[b] {
        CountAbove(intervals, base, k, b);
        QuotientBound(m * intervals[pos], intervals[b], Counts(intervals, base, k)[b]);
      }
      SumMonotone(Counts(intervals, base, k), quota);
      CountsAddUp(intervals, base, k);
      assert false;
    }
    var i := DispatchOfDue(intervals, base, k, pos, m);
  }

  lemma SumNonNegative(quota: seq<int>, intervals: seq<int>, w: int)
    requires 0 <= w && |quota| == |intervals|
    requires forall i | 0 <= i < |intervals| :: 0 < intervals[i]
    requires forall i | 0 <= i < |intervals| :: quota[i] == w / intervals[i]
    ensures 0 <= Sum(quota)
  {
    var zeros := seq(|quota|, i => 0);
    SumZero(zeros);
    SumMonotone(zeros, quota);
  }

  /** Actions with equal intervals take turns in list order: each due date of the earlier one is
      dispatched before the same due date of the later one, and that before the next of the earlier. */
  lemma EqualIntervalsAlternate(intervals: seq<int>, base: int, a: nat, b: nat, m: nat, i: nat, j: nat, k: nat)
    requires ValidIntervals(intervals)
    requires a < b < |intervals| && intervals[a] == intervals[b]
    requires Dispatched(intervals, base, i) == Due(intervals, base, a, m)
    requires Dispatched(intervals, base, j) == Due(intervals, base, b, m)
    requires Dispatched(intervals, base, k) == Due(intervals, base, a, m + 1)
    ensures i < j < k
  {
    NextDue(intervals, base, a, m);
    if j < i {
      DispatchesOrdered(intervals, base, j, i);
    }
    if k < j {
      DispatchesOrdered(intervals, base, k, j);
    }
  }

  // ---------- another base ----------

  function Later(e: Entry, d: int): Entry {
    e.(trigger := e.trigger + d)
  }

  function Shifted(q: seq<Entry>, d: int): (r: seq<Entry>)
    ensures |r| == |q|
  {
    seq(|q|, i requires 0 <= i < |q| => Later(q[i], d))
  }

  lemma InsertShifts(e: Entry, q: seq<Entry>, d: int)
    ensures Insert(Later(e, d), Shifted(q, d)) == Shifted(Insert(e, q), d)
  {
    var p := InsertSplits(e, q);
    InsertAt(Later(e, d), Shifted(q, d), p);
    assert Shifted(q[..p] + [e] + q[p..], d) == Shifted(q, d)[..p] + [Later(e, d)] + Shifted(q, d)[p..];
  }

  lemma {:induction false} InitialShifts(intervals: seq<int>, base: int, d: int, n: nat)
    requires n <= |intervals|
    ensures InitialOf(intervals, base + d, n) == Shifted(InitialOf(intervals, base, n), d)
  {
    if n > 0 {
      InitialShifts(intervals, base, d, n - 1);
      InsertShifts(Entry(n - 1, intervals[n - 1], base + intervals[n - 1]), InitialOf(intervals, base, n - 1), d);
    }
  }

  lemma StepShifts(q: seq<Entry>, d: int)
    requires q != []
    ensures Step(Shifted(q, d)) == Shifted(Step(q), d)
  {
    InsertShifts(Advance(q[0]), q[1..], d);
    assert Shifted(q, d)[1..] == Shifted(q[1..], d);
  }

  /** A run from another base is the same run at other times: the same actions in the same order,
      each due date moved by the distance of the bases. */
  lemma Rebased(intervals: seq<int>, base: int, base': int, k: nat)
    requires intervals != []
    ensures QueueAt(intervals, base', k) == Shifted(QueueAt(intervals, base, k), base' - base)
    ensures Dispatched(intervals, base', k) == Later(Dispatched(intervals, base, k), base' - base)
  {
    InitialShifts(intervals, base, base' - base, |intervals|);
    for i := 0 to k
      invariant QueueAt(intervals, base', i) == Shifted(QueueAt(intervals, base, i), base' - base)
    {
      StepShifts(QueueAt(intervals, base, i), base' - base);
    }
  }

  // ---------- conservation ----------

  function Identity(e: Entry): (nat, int) { (e.pos, e.interval) }

  function Identities(q: seq<Entry>): (r: seq<(nat, int)>)
    ensures |r| == |q|
  {
    seq(|q|, i requires 0 <= i < |q| => Identity(q[i]))
  }

  function IdentitiesOf(intervals: seq<int>): seq<(nat, int)> {
    seq(|intervals|, i requires 0 <= i < |intervals| => (i, intervals[i]))
  }

  lemma InsertAddsOne(e: Entry, q: seq<Entry>)
    ensures multiset(Identities(Insert(e, q))) == multiset(Identities(q)) + multiset{Identity(e)}
  {
    var p := InsertSplits(e, q);
    IdentitiesWith(e, q, p);
    OneMore(Identities(q), p, Identity(e));
  }

  lemma IdentitiesWith(e: Entry, q: seq<Entry>, p: nat)
    requires p <= |q|
    ensures Identities(q[..p] + [e] + q[p..]) == Identities(q)[..p] + [Identity(e)] + Identities(q)[p..]
  {
    var r, ids := q[..p] + [e] + q[p..], Identities(q)[..p] + [Identity(e)] + Identities(q)[p..];
    assert |r| == |ids| == |q| + 1;
    forall i | 0 <= i < |r| ensures Identities(r)[i] == ids[i] {
      assert r[i] == if i < p then q[i] else if i == p then e else q[i - 1];
    }
  }

  lemma OneMore<T>(s: seq<T>, p: nat, x: T)
    requires p <= |s|
    ensures multiset(s[..p] + [x] + s[p..]) == multiset(s) + multiset{x}
  {
    assert s == s[..p] + s[p..];
  }

  /** The (action, interval) pairs in the queue never change. */
  lemma ActionsConserved(intervals: seq<int>, base: int, k: nat)
    requires intervals != []
    ensures multiset(Identities(QueueAt(intervals, base, k))) == multiset(IdentitiesOf(intervals))
  {
    InitialActions(intervals, base, |intervals|);
    assert intervals[..|intervals|] == intervals;
    for i := 0 to k
      invariant multiset(Identities(QueueAt(intervals, base, i))) == multiset(IdentitiesOf(intervals))
    {
      StepConserves(QueueAt(intervals, base, i));
    }
  }

  lemma StepConserves(q: seq<Entry>)
    requires q != []
    ensures multiset(Identities(Step(q))) == multiset(Identities(q))
  {
    InsertAddsOne(Advance(q[0]), q[1..]);
    assert Identities(q) == [Identity(q[0])] + Identities(q[1..]);
  }

  lemma {:induction false} InitialActions(intervals: seq<int>, base: int, n: nat)
    requires n <= |intervals|
    ensures multiset(Identities(InitialOf(intervals, base, n))) == multiset(IdentitiesOf(intervals[..n]))
  {
    if n > 0 {
      InitialActions(intervals, base, n - 1);
      InsertAddsOne(Entry(n - 1, intervals[n - 1], base + intervals[n - 1]), InitialOf(intervals, base, n - 1));
      IdentitiesOfPrefix(intervals, n);
    }
  }

  lemma IdentitiesOfPrefix(intervals: seq<int>, n: nat)
    requires 0 < n <= |intervals|
    ensures IdentitiesOf(intervals[..n]) == IdentitiesOf(intervals[..n - 1]) + [(n - 1, intervals[n - 1])]
  {}
}
