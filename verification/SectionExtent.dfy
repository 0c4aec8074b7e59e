/** Which bytes of the process image a section of a slave device occupies. */
module SectionExtents {
  import opened ConfigKeys
  import opened ParsingErrors
  import opened Widths

  /** A cell of a variable's array: absent, of another type, or a string with the number that it
      denotes unless that is out of range. */
  datatype Cell = Absent | OtherType | Digits(number: Option<nat>)

  datatype Variable = NotAnArray | Variable(bitLength: Cell, byteOffset: Cell)

  datatype Section = NotAnObject | Section(variables: seq<Variable>)

  datatype Extent = Failed(error: ParsingError) | Extent(start: nat, length: nat)

  function OffsetError(v: Variable): Option<ParsingError> {
    match v
    case NotAnArray => Some(PROCESS_IMAGE_OBJECT_EMPTY)
    case Variable(_, Absent) => Some(OFFSET_POSITION_PARAMETER_NOT_FOUND)
    case Variable(_, OtherType) => Some(OFFSET_POSITION_PARAMETER_WRONG_TYPE)
    case Variable(_, Digits(None)) => Some(GENERAL_EXCEPTION)
    case Variable(_, Digits(Some(_))) => None
  }

  predicate HasOffset(v: Variable) {
    v.Variable? && v.byteOffset.Digits? && v.byteOffset.number.Some?
  }

  /** Zero if there is none. */
  function Offset(v: Variable): (r: nat)
    ensures r < UINT32
  {
    if HasOffset(v) then Wrap32(v.byteOffset.number.value) else 0
  }

  predicate AllZero(vs: seq<Variable>) {
    forall i | 0 <= i < |vs| :: Offset(vs[i]) == 0
  }

  /** The first of the variables with the highest offset, if that is positive. */
  predicate IsHighest(vs: seq<Variable>, k: nat) {
    && k < |vs| && 0 < Offset(vs[k])
    && (forall j | 0 <= j < |vs| :: Offset(vs[j]) <= Offset(vs[k]))
    && (forall j | 0 <= j < k :: Offset(vs[j]) < Offset(vs[k]))
  }

  predicate IsLowest(vs: seq<Variable>, k: nat) {
    k < |vs| && forall j | 0 <= j < |vs| :: Offset(vs[k]) <= Offset(vs[j])
  }

  /** The extent from a start to the end of a variable, of which only the length is missing. */
  function ExtentTo(start: nat, highest: nat, bitLength: Cell): Extent {
    match bitLength
    case Digits(Some(bits)) => Extent(start, Wrap32(highest + Wrap32(bits) / 8 - start))
    case Digits(None) => Failed(GENERAL_EXCEPTION)
    case _ => Failed(OFFSET_POSITION_PARAMETER_WRONG_TYPE)
  }

  predicate Readable(vs: seq<Variable>, n: nat)
    requires n <= |vs|
  {
    forall i | 0 <= i < n :: HasOffset(vs[i])
  }

  ghost predicate Spans(vs: seq<Variable>, low: nat, high: nat, e: Extent) {
    && IsLowest(vs, low) && IsHighest(vs, high) && vs[high].Variable?
    && e == ExtentTo(Offset(vs[low]), Offset(vs[high]), vs[high].bitLength)
  }

  /** What is computed, whatever the order of the search. */
  ghost predicate IsExtent(section: Section, e: Extent) {
    match section
    case NotAnObject => e == Failed(PROCESS_IMAGE_WRONG_TYPE)
    case Section(vs) =>
      if !Readable(vs, |vs|) then FailsFirst(vs, e)
      else if AllZero(vs) then e == Failed(OFFSET_POSITION_PARAMETER_WRONG_TYPE)
      else exists low, high: nat :: Spans(vs, low, high, e)
  }

  ghost predicate FailsFirst(vs: seq<Variable>, e: Extent) {
    exists k | 0 <= k < |vs| :: Readable(vs, k) && OffsetError(vs[k]).Some? && e == Failed(OffsetError(vs[k]).value)
  }

  method GetExtent(section: Section) returns (e: Extent)
    ensures IsExtent(section, e)
  {
    if section.NotAnObject? {
      return Failed(PROCESS_IMAGE_WRONG_TYPE);
    }
    var vs := section.variables;
    var start, size, lastLength := UINT32_MAX, 0, Absent;
    ghost var low, high := 0, 0;
    for i := 0 to |vs|
      invariant Readable(vs, i)
      invariant i == 0 ==> start == UINT32_MAX && low == 0
      invariant i > 0 ==> low < i && Offset(vs[low]) == start
      invariant forall j | 0 <= j < i :: start <= Offset(vs[j]) <= size
      invariant size == 0 ==> lastLength == Absent
      invariant size > 0 ==> high < i && Offset(vs[high]) == size && lastLength == vs[high].bitLength
      invariant size > 0 ==> forall j | 0 <= j < high :: Offset(vs[j]) < size
    {
      var error := OffsetError(vs[i]);
      if error.Some? {
        return Failed(error.value);
      }
      var offset := Offset(vs[i]);
      if start > offset {
        start := offset;
        low := i;
      }
      if size < offset {
        size, lastLength := offset, vs[i].bitLength;
        high := i;
      }
    }
    if size > 0 {
      assert Spans(vs, low, high, ExtentTo(start, size, lastLength));
    }
    if !lastLength.Digits? {
      return Failed(OFFSET_POSITION_PARAMETER_WRONG_TYPE);
    }
    if lastLength.number.None? {
      return Failed(GENERAL_EXCEPTION);
    }
    return Extent(start, Wrap32(size + Wrap32(lastLength.number.value) / 8 - start));
  }

  /** The errors that a variable without a readable offset ends the computation with. */
  lemma OffsetErrors(v: Variable)
    ensures v.NotAnArray? ==> OffsetError(v) == Some(PROCESS_IMAGE_OBJECT_EMPTY)
    ensures v.Variable? && v.byteOffset.Absent? ==> OffsetError(v) == Some(OFFSET_POSITION_PARAMETER_NOT_FOUND)
    ensures v.Variable? && v.byteOffset.OtherType? ==> OffsetError(v) == Some(OFFSET_POSITION_PARAMETER_WRONG_TYPE)
    ensures v.Variable? && v.byteOffset.Digits? ==>
              OffsetError(v) == if v.byteOffset.number.None? then Some(GENERAL_EXCEPTION) else None
    ensures OffsetError(v).None? <==> HasOffset(v)
    ensures HasOffset(v) ==> Offset(v) == v.byteOffset.number.value % 0x1_0000_0000
  {}

  /** The extent of variables that can all be read: from the lowest offset, to the whole bytes of the first of
      those with the highest one. */
  lemma ExtentOfReadable(vs: seq<Variable>, low: nat, high: nat, bits: nat, e: Extent)
    requires forall i | 0 <= i < |vs| :: HasOffset(vs[i])
    requires low < |vs| && forall i | 0 <= i < |vs| :: Offset(vs[low]) <= Offset(vs[i])
    requires high < |vs| && 0 < Offset(vs[high]) && forall i | 0 <= i < |vs| :: Offset(vs[i]) <= Offset(vs[high])
    requires forall i | 0 <= i < high :: Offset(vs[i]) < Offset(vs[high])
    requires vs[high].bitLength == Digits(Some(bits)) && bits < 0x1_0000_0000
    requires Offset(vs[high]) + bits / 8 - Offset(vs[low]) < 0x1_0000_0000
    requires IsExtent(Section(vs), e)
    ensures e == Extent(Offset(vs[low]), Offset(vs[high]) + bits / 8 - Offset(vs[low]))
  {
    var low', high': nat :| Spans(vs, low', high', e);
    assert high' == high;
  }

  /** Of the variable with the highest offset only whole bytes count: it is covered, to its last bit, exactly
      if its length is a multiple of eight. Without a length that can be read there is no extent. */
  lemma LastVariableCovered(vs: seq<Variable>, low: nat, high: nat, e: Extent)
    requires Spans(vs, low, high, e)
    ensures match vs[high].bitLength
            case Digits(Some(bits)) =>
              bits < 0x1_0000_0000 && Offset(vs[high]) + bits / 8 - Offset(vs[low]) < 0x1_0000_0000 ==>
                && e == Extent(Offset(vs[low]), Offset(vs[high]) + bits / 8 - Offset(vs[low]))
                && (8 * Offset(vs[high]) + bits <= 8 * (e.start + e.length) <==> bits % 8 == 0)
            case Digits(None) => e == Failed(GENERAL_EXCEPTION)
            case _ => e == Failed(OFFSET_POSITION_PARAMETER_WRONG_TYPE)
  {}

  // ---------- layouts ----------

  /** A variable of whole bytes, at least one, within 32-bit addresses. */
  predicate WholeBytes(v: Variable) {
    && HasOffset(v)
    && v.bitLength.Digits? && v.bitLength.number.Some?
    && 0 < v.bitLength.number.value < UINT32 && v.bitLength.number.value % 8 == 0
    && v.byteOffset.number.value + v.bitLength.number.value / 8 < UINT32
  }

  function Length(v: Variable): nat {
    if WholeBytes(v) then v.bitLength.number.value / 8 else 0
  }

  function End(v: Variable): nat {
    Offset(v) + Length(v)
  }

  predicate Apart(v: Variable, w: Variable) {
    End(v) <= Offset(w) || End(w) <= Offset(v)
  }

  predicate IsLayout(vs: seq<Variable>) {
    && (forall i | 0 <= i < |vs| :: WholeBytes(vs[i]))
    && (forall i, j | 0 <= i < j < |vs| :: Apart(vs[i], vs[j]))
  }

  predicate Covers(low: nat, high: nat, vs: seq<Variable>) {
    forall i | 0 <= i < |vs| :: low <= Offset(vs[i]) && End(vs[i]) <= high
  }

  /** The variable with the highest offset also ends last. */
  lemma HighestEndsLast(vs: seq<Variable>, k: nat, i: nat)
    requires IsLayout(vs) && IsHighest(vs, k) && i < |vs|
    ensures End(vs[i]) <= End(vs[k])
  {
    if i < k {
      assert Apart(vs[i], vs[k]);
    } else if k < i {
      assert Apart(vs[k], vs[i]);
    }
  }

  lemma SpanOfLayout(vs: seq<Variable>, low: nat, high: nat, e: Extent)
    requires IsLayout(vs) && Spans(vs, low, high, e)
    ensures e == Extent(Offset(vs[low]), End(vs[high]) - Offset(vs[low]))
  {
    assert WholeBytes(vs[high]) && Offset(vs[low]) <= Offset(vs[high]);
  }

  /** The extent is the smallest interval that covers every variable, provided one of them has a
      positive offset. */
  lemma ExtentIsHull(vs: seq<Variable>, e: Extent)
    requires IsLayout(vs) && !AllZero(vs) && IsExtent(Section(vs), e)
    ensures e.Extent?
    ensures Covers(e.start, e.start + e.length, vs)
    ensures forall low: nat, high: nat | Covers(low, high, vs) :: low <= e.start && e.start + e.length <= high
  {
    var low, high: nat :| Spans(vs, low, high, e);
    SpanOfLayout(vs, low, high, e);
    forall i | 0 <= i < |vs| ensures End(vs[i]) <= e.start + e.length {
      HighestEndsLast(vs, high, i);
    }
  }

  /** It does not depend on the order of the variables. */
  lemma ExtentIgnoresOrder(vs: seq<Variable>, ws: seq<Variable>, e: Extent, e': Extent)
    requires IsLayout(vs) && IsLayout(ws) && multiset(vs) == multiset(ws)
    requires IsExtent(Section(vs), e) && IsExtent(Section(ws), e')
    ensures e == e'
  {
    SameMembers(vs, ws);
    SameMembers(ws, vs);
    if !AllZero(vs) {
      ExtentIsHull(vs, e);
      ExtentIsHull(ws, e');
    }
  }

  lemma SameMembers(vs: seq<Variable>, ws: seq<Variable>)
    requires multiset(vs) == multiset(ws)
    ensures AllZero(vs) ==> AllZero(ws)
    ensures forall low: nat, high: nat | Covers(low, high, vs) :: Covers(low, high, ws)
  {
    forall i | 0 <= i < |ws| ensures ws[i] in vs {
      assert ws[i] in multiset(ws);
    }
  }

  /** A layout has no extent exactly if every offset is zero: if it is empty, or one variable at zero. */
  lemma FailsIffAllZero(vs: seq<Variable>, e: Extent)
    requires IsLayout(vs) && IsExtent(Section(vs), e)
    ensures e.Failed? <==> AllZero(vs)
    ensures e.Failed? <==> vs == [] || (|vs| == 1 && Offset(vs[0]) == 0)
  {
    if |vs| >= 2 {
      assert Apart(vs[0], vs[1]) && WholeBytes(vs[0]) && WholeBytes(vs[1]);
      assert Offset(vs[0]) > 0 || Offset(vs[1]) > 0;
    }
    if !AllZero(vs) {
      ExtentIsHull(vs, e);
    }
  }

  // ---------- packed layouts ----------

  function TotalLength(vs: seq<Variable>): nat {
    if vs == [] then 0 else Length(vs[0]) + TotalLength(vs[1..])
  }

  function Range(low: nat, high: nat): (r: set<nat>)
    requires low <= high
    ensures forall x :: x in r <==> low <= x < high
    ensures |r| == high - low
    decreases high - low
  {
    if low == high then {} else {low} + Range(low + 1, high)
  }

  predicate Holds(v: Variable, x: nat) {
    Offset(v) <= x < End(v)
  }

  predicate IsHeld(vs: seq<Variable>, x: nat) {
    exists i | 0 <= i < |vs| :: Holds(vs[i], x)
  }

  function BytesOf(vs: seq<Variable>): set<nat> {
    if vs == [] then {} else Range(Offset(vs[0]), End(vs[0])) + BytesOf(vs[1..])
  }

  lemma {:induction false} InBytes(vs: seq<Variable>, x: nat)
    ensures x in BytesOf(vs) <==> IsHeld(vs, x)
  {
    if vs != [] {
      var rest := vs[1..];
      InBytes(rest, x);
      if IsHeld(rest, x) {
        var i :| 0 <= i < |rest| && Holds(rest[i], x);
        assert Holds(vs[i + 1], x);
      }
      if IsHeld(vs, x) && !Holds(vs[0], x) {
        var i :| 0 <= i < |vs| && Holds(vs[i], x);
        assert Holds(rest[i - 1], x);
      }
    }
  }

  lemma RestOfLayout(vs: seq<Variable>)
    requires IsLayout(vs) && vs != []
    ensures IsLayout(vs[1..])
    ensures forall x | Holds(vs[0], x) :: !IsHeld(vs[1..], x)
  {
    assert forall i | 0 <= i < |vs| - 1 :: vs[1..][i] == vs[i + 1];
    assert forall i | 1 <= i < |vs| :: Apart(vs[0], vs[i]);
  }

  lemma {:induction false} BytesSize(vs: seq<Variable>)
    requires IsLayout(vs)
    ensures |BytesOf(vs)| == TotalLength(vs)
  {
    if vs != [] {
      var first, rest := Range(Offset(vs[0]), End(vs[0])), BytesOf(vs[1..]);
      RestOfLayout(vs);
      BytesSize(vs[1..]);
      forall x | x in rest ensures x !in first {
        InBytes(vs[1..], x);
      }
      assert first !! rest;
    }
  }

  lemma SameSize(a: set<nat>, b: set<nat>)
    requires a <= b
    ensures |a| <= |b|
    ensures |a| == |b| <==> a == b
  {
    assert b == a + (b - a);
  }

  predicate NoGap(vs: seq<Variable>, low: nat, high: nat) {
    forall x: nat | low <= x < high :: IsHeld(vs, x)
  }

  lemma BytesWithin(vs: seq<Variable>, low: nat, high: nat)
    requires low <= high && Covers(low, high, vs)
    ensures BytesOf(vs) <= Range(low, high)
    ensures BytesOf(vs) == Range(low, high) <==> NoGap(vs, low, high)
  {
    forall x | low <= x < high || x in BytesOf(vs) ensures x in BytesOf(vs) <==> IsHeld(vs, x) {
      InBytes(vs, x);
    }
    if BytesOf(vs) == Range(low, high) {
      assert forall x | low <= x < high :: x in Range(low, high);
    }
  }

  /** The length is at least the sum of the variables' lengths, and equal to it exactly if they leave no gap. */
  lemma LengthOfPacked(vs: seq<Variable>, e: Extent)
    requires IsLayout(vs) && !AllZero(vs) && IsExtent(Section(vs), e)
    ensures e.Extent? && TotalLength(vs) <= e.length
    ensures e.length == TotalLength(vs) <==> NoGap(vs, e.start, e.start + e.length)
  {
    ExtentIsHull(vs, e);
    BytesSize(vs);
    BytesWithin(vs, e.start, e.start + e.length);
    SameSize(BytesOf(vs), Range(e.start, e.start + e.length));
  }
}
