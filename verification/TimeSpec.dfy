/** struct timespec and the two operations on it; they may write their result over an operand. */
module TimeSpecs {
  import opened Widths

  const NANOSECONDS_PER_SECOND := 1_000_000_000
  const MICROSECONDS_PER_SECOND := 1_000_000

  class TimeSpec {
    var sec: int
    var nsec: int

    constructor (sec: int, nsec: int)
      ensures this.sec == sec && this.nsec == nsec
    {
      this.sec, this.nsec := sec, nsec;
    }

    predicate Normal()
      reads this
    {
      0 <= nsec < NANOSECONDS_PER_SECOND
    }

    /** The time in nanoseconds. */
    function Ns(): int
      reads this
    {
      sec * NANOSECONDS_PER_SECOND + nsec
    }
  }

  /** The conversion of a 64-bit value to int32_t. */
  function ToInt32(x: int): int {
    (x + 0x8000_0000) % 0x1_0000_0000 - 0x8000_0000
  }

  /** Every normalised pair is the only one for its number of nanoseconds, and pairs compare like those numbers. */
  lemma NormalForm(s: int, n: int, t: int, m: int)
    requires 0 <= n < NANOSECONDS_PER_SECOND && 0 <= m < NANOSECONDS_PER_SECOND
    ensures s * NANOSECONDS_PER_SECOND + n == t * NANOSECONDS_PER_SECOND + m <==> s == t && n == m
    ensures s * NANOSECONDS_PER_SECOND + n < t * NANOSECONDS_PER_SECOND + m <==> s < t || (s == t && n < m)
  {}

  /** sum := a + b, exactly, also where sum is a or b. */
  method TimespecAdd(sum: TimeSpec, a: TimeSpec, b: TimeSpec) returns (r: int)
    requires a.Normal() && b.Normal()
    modifies sum
    ensures sum.Normal() && sum.Ns() == old(a.Ns() + b.Ns())
    ensures r == 0
  {
    sum.nsec := a.nsec + b.nsec;
    sum.sec := a.sec + b.sec;
    if sum.nsec >= NANOSECONDS_PER_SECOND {
      sum.sec := sum.sec + 1;
      sum.nsec := sum.nsec - NANOSECONDS_PER_SECOND;
    }
    return 0;
  }

  /** diff := minuend - subtrahend, exactly, also where diff is one of them. The returned sign tells
      which is smaller only while the difference in seconds fits 32 bits. */
  method TimespecDiff(diff: TimeSpec, minuend: TimeSpec, subtrahend: TimeSpec) returns (r: int)
    requires minuend.Normal() && subtrahend.Normal()
    modifies diff
    ensures diff.Normal() && diff.Ns() == old(minuend.Ns() - subtrahend.Ns())
    ensures r == DiffSign(old(minuend.Ns()), old(subtrahend.Ns()))
  {
    if subtrahend.nsec > minuend.nsec {
      diff.nsec := NANOSECONDS_PER_SECOND - subtrahend.nsec + minuend.nsec;
      diff.sec := minuend.sec - subtrahend.sec - 1;
    } else {
      diff.nsec := minuend.nsec - subtrahend.nsec;
      diff.sec := minuend.sec - subtrahend.sec;
    }
    return ToInt32(diff.sec);
  }

  /** The value returned for two times in nanoseconds: the seconds of their difference, cut to 32 bits. */
  function DiffSign(minuend: int, subtrahend: int): int {
    ToInt32((minuend - subtrahend) / NANOSECONDS_PER_SECOND)
  }

  predicate SignRight(minuend: int, subtrahend: int) {
    DiffSign(minuend, subtrahend) < 0 <==> minuend < subtrahend
  }

  /** The sign is right exactly if the seconds of the difference lie in an even block of 2^31 seconds
      when they are not negative, and in an odd one when they are. */
  lemma DiffSignRight(minuend: int, subtrahend: int)
    ensures var d := (minuend - subtrahend) / NANOSECONDS_PER_SECOND;
            SignRight(minuend, subtrahend) <==> d / 0x8000_0000 % 2 == if d < 0 then 1 else 0
  {
    var d := (minuend - subtrahend) / NANOSECONDS_PER_SECOND;
    assert d == 0x8000_0000 * (d / 0x8000_0000) + d % 0x8000_0000;
    var q := d / 0x8000_0000;
    assert q == 2 * (q / 2) + q % 2;
    assert d + 0x8000_0000 == 0x1_0000_0000 * (q / 2) + (q % 2 * 0x8000_0000 + d % 0x8000_0000 + 0x8000_0000);
  }

  /** As long as the times are less than 2^32 seconds apart, it is right exactly if they are less than
      2^31 seconds apart. */
  lemma DiffSignRange(minuend: int, subtrahend: int)
    requires -0x1_0000_0000 <= (minuend - subtrahend) / NANOSECONDS_PER_SECOND < 0x1_0000_0000
    ensures SignRight(minuend, subtrahend) <==>
              -0x8000_0000 <= (minuend - subtrahend) / NANOSECONDS_PER_SECOND < 0x8000_0000
  {
    DiffSignRight(minuend, subtrahend);
  }

  /** Two times 2^31 seconds apart are compared the wrong way round. */
  lemma DiffSignWrong()
    ensures !SignRight(0x8000_0000 * NANOSECONDS_PER_SECOND, 0)
  {}
}
