/** Finite sums over sequences, as needed to add up dispatch counts and rates. */
module Sums {

  function Sum(s: seq<int>): int {
    if s == [] then 0 else Sum(s[..|s| - 1]) + s[|s| - 1]
  }

  /** The sum of the rates 1/I of all intervals I; its inverse is the mean time between two due dates. */
  function Rate(intervals: seq<int>): real
    requires forall i | 0 <= i < |intervals| :: 0 < intervals[i]
  {
    if intervals == [] then 0.0
    else Rate(intervals[..|intervals| - 1]) + Inverse(intervals[|intervals| - 1])
  }

  function Inverse(interval: int): real
    requires 0 < interval
  {
    1.0 / (interval as real)
  }

  /** How many due dates fall, on average, into w nanoseconds. */
  function Load(w: int, intervals: seq<int>): real
    requires forall i | 0 <= i < |intervals| :: 0 < intervals[i]
  {
    w as real * Rate(intervals)
  }

  lemma {:induction false} SumMonotone(s: seq<int>, t: seq<int>)
    requires |s| == |t|
    requires forall i | 0 <= i < |s| :: s[i] <= t[i]
    ensures Sum(s) <= Sum(t)
  {
    if s != [] {
      SumMonotone(s[..|s| - 1], t[..|t| - 1]);
    }
  }

  lemma {:induction false} SumOfDifferences(s: seq<int>, t: seq<int>, d: seq<int>)
    requires |s| == |t| == |d|
    requires forall i | 0 <= i < |s| :: t[i] - s[i] <= d[i]
    ensures Sum(t) - Sum(s) <= Sum(d)
  {
    if s != [] {
      SumOfDifferences(s[..|s| - 1], t[..|t| - 1], d[..|d| - 1]);
    }
  }

  lemma {:induction false} SumUpdate(s: seq<int>, i: nat, v: int)
    requires i < |s|
    ensures Sum(s[i := v]) == Sum(s) - s[i] + v
  {
    var n := |s| - 1;
    if i < n {
      SumUpdate(s[..n], i, v);
      assert s[i := v][..n] == s[..n][i := v];
    } else {
      assert s[i := v][..n] == s[..n];
    }
  }

  lemma {:induction false} SumZero(s: seq<int>)
    requires forall i | 0 <= i < |s| :: s[i] == 0
    ensures Sum(s) == 0
  {
    if s != [] {
      SumZero(s[..|s| - 1]);
    }
  }

  lemma {:induction false} RatePositive(intervals: seq<int>)
    requires intervals != []
    requires forall i | 0 <= i < |intervals| :: 0 < intervals[i]
    ensures 0.0 < Rate(intervals)
  {
    if |intervals| > 1 {
      RatePositive(intervals[..|intervals| - 1]);
    }
  }

  lemma DivideBound(m: int, i: int, w: int)
    requires 0 < i
    requires m * i <= w
    ensures m as real <= (w as real) * Inverse(i)
  {
    var r := i as real;
    assert (m as real) * r == (m * i) as real;
    assert (w as real) * (1.0 / r) == (w as real) / r;
    assert (m as real) == ((m as real) * r) / r;
  }

  lemma DivideBoundBelow(m: int, i: int, w: int)
    requires 0 < i
    requires w <= m * i
    ensures (w as real) * Inverse(i) <= m as real
  {
    var r := i as real;
    assert (m as real) * r == (m * i) as real;
    assert (w as real) * (1.0 / r) == (w as real) / r;
    assert (m as real) == ((m as real) * r) / r;
  }

  /** From early to late, an action is not dispatched more often than its interval allows within w. */
  predicate Fits(early: int, late: int, interval: int, w: int) {
    (late - early - 1) * interval <= w
  }

  /** An action's count leaves none of its due dates within w undispatched. */
  predicate Demanded(count: int, interval: int, w: int) {
    w <= (count + 1) * interval
  }

  ghost predicate FitsWindow(early: seq<int>, late: seq<int>, intervals: seq<int>, w: int)
    requires |early| == |late| == |intervals|
  {
    forall i | 0 <= i < |intervals| :: Fits(early[i], late[i], intervals[i], w)
  }

  ghost predicate MeetsDemand(counts: seq<int>, intervals: seq<int>, w: int)
    requires |counts| == |intervals|
  {
    forall i | 0 <= i < |intervals| :: Demanded(counts[i], intervals[i], w)
  }

  /** If in a window of length w no action is dispatched more often than its interval allows, the
      number of dispatches is at most w times the rate plus one for each action. */
  lemma {:induction false} DispatchesInWindow(early: seq<int>, late: seq<int>, intervals: seq<int>, w: int)
    requires |early| == |late| == |intervals|
    requires forall i | 0 <= i < |intervals| :: 0 < intervals[i]
    requires FitsWindow(early, late, intervals, w)
    ensures (Sum(late) - Sum(early) - |intervals|) as real <= Load(w, intervals)
  {
    var n := |intervals| - 1;
    if 0 <= n {
      DispatchesInWindow(early[..n], late[..n], intervals[..n], w);
      assert Fits(early[n], late[n], intervals[n], w);
      DivideBound(late[n] - early[n] - 1, intervals[n], w);
      var r, x := Rate(intervals[..n]), Inverse(intervals[n]);
      assert (w as real) * (r + x) == (w as real) * r + (w as real) * x;
    }
  }

  /** Dually, if every action has been dispatched as often as its interval demands. */
  lemma {:induction false} DispatchesDemanded(counts: seq<int>, intervals: seq<int>, w: int)
    requires |counts| == |intervals|
    requires forall i | 0 <= i < |intervals| :: 0 < intervals[i]
    requires MeetsDemand(counts, intervals, w)
    ensures Load(w, intervals) <= (Sum(counts) + |intervals|) as real
  {
    var n := |intervals| - 1;
    if 0 <= n {
      DispatchesDemanded(counts[..n], intervals[..n], w);
      assert Demanded(counts[n], intervals[n], w);
      DivideBoundBelow(counts[n] + 1, intervals[n], w);
      var r, x := Rate(intervals[..n]), Inverse(intervals[n]);
      assert (w as real) * (r + x) == (w as real) * r + (w as real) * x;
    }
  }
}
