/** The slave's register table as a cache of the process image: requests change the table, and
    answered write requests copy all of it into the image. */
module SlaveRegisters {
  import opened ProcessImages

  type Registers = seq<bv16>

  // ---------- registers as bytes of the image ----------

  function LowByte(r: bv16): bv8 {
    (r & 0xFF) as bv8
  }

  function HighByte(r: bv16): bv8 {
    (r >> 8) as bv8
  }

  function Word(low: bv8, high: bv8): bv16 {
    (low as bv16) | ((high as bv16) << 8)
  }

  lemma WordOfBytes(r: bv16, low: bv8, high: bv8)
    ensures Word(LowByte(r), HighByte(r)) == r
    ensures LowByte(Word(low, high)) == low && HighByte(Word(low, high)) == high
  {}

  /** The low byte counts ones, the high byte 256s. */
  lemma BytesOfWord(r: bv16)
    ensures (LowByte(r) as bv16) + 256 * (HighByte(r) as bv16) == r
  {}

  /** Byte i of the table as it lies in memory, low bytes first. */
  function ByteAt(regs: Registers, i: nat): bv8
    requires i < 2 * |regs|
  {
    if i % 2 == 0 then LowByte(regs[i / 2]) else HighByte(regs[i / 2])
  }

  function WordAt(b: Bytes, k: nat): bv16
    requires 2 * k + 1 < |b|
  {
    Word(b[2 * k], b[2 * k + 1])
  }

  function ToBytes(regs: Registers): (b: Bytes)
    ensures |b| == 2 * |regs|
  {
    seq(2 * |regs|, i requires 0 <= i < 2 * |regs| => ByteAt(regs, i))
  }

  function FromBytes(b: Bytes): (regs: Registers)
    ensures |regs| == |b| / 2
  {
    seq(|b| / 2, k requires 0 <= k < |b| / 2 => WordAt(b, k))
  }

  lemma WordOfRegister(regs: Registers, k: nat)
    requires k < |regs|
    ensures WordAt(ToBytes(regs), k) == regs[k]
  {
    WordOfBytes(regs[k], 0, 0);
    assert 2 * k % 2 == 0 && (2 * k + 1) % 2 == 1 && 2 * k / 2 == k && (2 * k + 1) / 2 == k;
  }

  /** Register k lies at bytes 2k, the low one, and 2k + 1. */
  lemma RegisterBytes(regs: Registers, k: nat)
    requires k < |regs|
    ensures (ToBytes(regs)[2 * k] as bv16) + 256 * (ToBytes(regs)[2 * k + 1] as bv16) == regs[k]
  {
    BytesOfWord(regs[k]);
    assert 2 * k % 2 == 0 && (2 * k + 1) % 2 == 1 && 2 * k / 2 == k && (2 * k + 1) / 2 == k;
  }

  lemma TableRoundTrip(regs: Registers)
    ensures FromBytes(ToBytes(regs)) == regs
  {
    forall k | 0 <= k < |regs| ensures FromBytes(ToBytes(regs))[k] == regs[k] {
      WordOfRegister(regs, k);
    }
  }

  lemma SameTable(a: Registers, b: Registers)
    ensures ToBytes(a) == ToBytes(b) <==> a == b
  {
    TableRoundTrip(a);
    TableRoundTrip(b);
  }

  /** Registers can be taken out of a table before or after its bytes are assembled. */
  lemma PartOfTable(b: Bytes, address: nat, count: nat)
    requires 2 * (address + count) <= |b|
    ensures FromBytes(b)[address..address + count] == FromBytes(b[2 * address..2 * (address + count)])
  {
    var part := b[2 * address..2 * (address + count)];
    forall k | 0 <= k < count ensures FromBytes(b)[address..address + count][k] == FromBytes(part)[k] {
      assert part[2 * k] == b[2 * (address + k)] && part[2 * k + 1] == b[2 * (address + k) + 1];
    }
  }

  // ---------- requests, as the MODBUS Application Protocol Specification V1.1b3 has them ----------

  datatype Request =
    | ReadHolding(address: nat, count: nat)
    | ReadInput(address: nat, count: nat)
    | WriteSingle(address: nat, value: bv16)
    | WriteMultiple(address: nat, values: Registers)
    | MaskWrite(address: nat, andMask: bv16, orMask: bv16)
    | WriteAndRead(address: nat, values: Registers, readAddress: nat, readCount: nat)
    | Bits(write: bool)
    | OtherFunction

  /** The functions after which the slave copies its table to the image. */
  predicate IsWrite(r: Request) {
    r.WriteSingle? || r.WriteMultiple? || r.MaskWrite? || r.WriteAndRead? || (r.Bits? && r.write)
  }

  predicate Within(address: nat, count: nat, size: nat) {
    address + count <= size
  }

  /** Sections 6.3, 6.4, 6.6, 6.12, 6.16 and 6.17; there are no coils or discrete inputs to address. */
  predicate Acceptable(holding: nat, inputs: nat, r: Request) {
    match r
    case ReadHolding(address, count) => 1 <= count <= 125 && Within(address, count, holding)
    case ReadInput(address, count) => 1 <= count <= 125 && Within(address, count, inputs)
    case WriteSingle(address, _) => address < holding
    case WriteMultiple(address, values) => 1 <= |values| <= 123 && Within(address, |values|, holding)
    case MaskWrite(address, _, _) => address < holding
    case WriteAndRead(address, values, readAddress, readCount) =>
      && 1 <= |values| <= 121 && Within(address, |values|, holding)
      && 1 <= readCount <= 125 && Within(readAddress, readCount, holding)
    case Bits(_) => false
    case OtherFunction => false
  }

  function Overwrite(regs: Registers, address: nat, values: Registers): (r: Registers)
    requires Within(address, |values|, |regs|)
    ensures |r| == |regs|
  {
    regs[..address] + values + regs[address + |values|..]
  }

  /** The table after a request; an unacceptable one is answered with an exception and changes nothing. */
  function TableAfter(regs: Registers, inputs: nat, r: Request): (t: Registers)
    ensures |t| == |regs|
  {
    if !Acceptable(|regs|, inputs, r) then regs
    else
      match r
      case WriteSingle(address, value) => regs[address := value]
      case WriteMultiple(address, values) => Overwrite(regs, address, values)
      case MaskWrite(address, andMask, orMask) =>
        regs[address := (regs[address] & andMask) | (orMask & !andMask)]
      case WriteAndRead(address, values, _, _) => Overwrite(regs, address, values)
      case _ => regs
  }

  datatype Response = ExceptionResponse | Response(values: Registers)

  /** What is answered, from the tables after the request's own writes. */
  function Answer(regs: Registers, inputs: Registers, r: Request): Response {
    if !Acceptable(|regs|, |inputs|, r) then ExceptionResponse
    else
      match r
      case ReadHolding(address, count) => Response(regs[address..address + count])
      case ReadInput(address, count) => Response(inputs[address..address + count])
      case WriteAndRead(_, _, address, count) => Response(regs[address..address + count])
      case _ => Response([])
  }

  // ---------- the slave's state ----------

  /** Where the two tables lie in the image. */
  datatype Layout = Layout(holdingOffset: nat, inputOffset: nat)

  datatype State = State(holding: Registers, inputs: Registers, image: Bytes)

  /** What happens next: others write the image, receiving fails, a request is for another station, or
      one arrives and its reply is sent or not. */
  datatype Event =
    | Environment(image: Bytes)
    | Lost
    | Ignored
    | Exchange(request: Request, replied: bool)

  function Refreshed(s: State, l: Layout): (inputs: Registers)
    ensures |inputs| == |s.inputs|
  {
    if InRange(s.image, l.inputOffset, 2 * |s.inputs|) then
      FromBytes(s.image[l.inputOffset..l.inputOffset + 2 * |s.inputs|])
    else s.inputs
  }

  /** The inputs are read anew before they are asked for, and before any read of discrete inputs. */
  function Prepared(s: State, l: Layout, r: Request): (t: State)
    ensures |t.inputs| == |s.inputs| && |t.image| == |s.image| && t.holding == s.holding
  {
    if r.ReadInput? || (r.Bits? && !r.write) then s.(inputs := Refreshed(s, l)) else s
  }

  function Apply(s: State, l: Layout, e: Event): (t: State) {
    match e
    case Environment(image) => s.(image := image)
    case Lost => s
    case Ignored => s
    case Exchange(r, replied) =>
      var p := Prepared(s, l, r);
      var holding := TableAfter(p.holding, |p.inputs|, r);
      State(holding, p.inputs,
            if replied && IsWrite(r) then PutBytes(p.image, l.holdingOffset, ToBytes(holding)) else p.image)
  }

  /** The bytes of the image that stand for the holding registers. */
  function Region(s: State, l: Layout): Bytes
    requires InRange(s.image, l.holdingOffset, 2 * |s.holding|)
  {
    s.image[l.holdingOffset..l.holdingOffset + 2 * |s.holding|]
  }

  ghost predicate Coherent(s: State, l: Layout)
    requires InRange(s.image, l.holdingOffset, 2 * |s.holding|)
  {
    Region(s, l) == ToBytes(s.holding)
  }

  // ---------- runs ----------

  function After(s: State, l: Layout, h: seq<Event>): State {
    if h == [] then s else Apply(After(s, l, h[..|h| - 1]), l, h[|h| - 1])
  }

  /** Others leave the holding region alone. */
  ghost predicate Respectful(s: State, l: Layout, e: Event) {
    e.Environment? ==>
      && |e.image| == |s.image|
      && (InRange(s.image, l.holdingOffset, 2 * |s.holding|) ==>
            e.image[l.holdingOffset..l.holdingOffset + 2 * |s.holding|] == Region(s, l))
  }

  ghost predicate Possible(s: State, l: Layout, h: seq<Event>) {
    forall i | 0 <= i < |h| :: Respectful(After(s, l, h[..i]), l, h[i])
  }

  predicate AnsweredWrite(e: Event) {
    e.Exchange? && e.replied && IsWrite(e.request)
  }

  /** The region as the last answered write request left it, or as it was initially. */
  function LastWritten(s: State, l: Layout, h: seq<Event>): Bytes
    requires InRange(s.image, l.holdingOffset, 2 * |s.holding|)
  {
    if h == [] then Region(s, l)
    else if AnsweredWrite(h[|h| - 1]) then ToBytes(After(s, l, h).holding)
    else LastWritten(s, l, h[..|h| - 1])
  }

  lemma {:induction false} ShapeKept(s: State, l: Layout, h: seq<Event>)
    requires Possible(s, l, h)
    ensures |After(s, l, h).image| == |s.image| && |After(s, l, h).holding| == |s.holding|
    ensures |After(s, l, h).inputs| == |s.inputs|
  {
    if h != [] {
      PrefixPossible(s, l, h);
      ShapeKept(s, l, h[..|h| - 1]);
      assert Respectful(After(s, l, h[..|h| - 1]), l, h[|h| - 1]);
    }
  }

  lemma PrefixPossible(s: State, l: Layout, h: seq<Event>)
    requires h != [] && Possible(s, l, h)
    ensures Possible(s, l, h[..|h| - 1])
  {
    var p := h[..|h| - 1];
    forall i | 0 <= i < |p| ensures Respectful(After(s, l, p[..i]), l, p[i]) {
      assert p[..i] == h[..i];
    }
  }

  /** In every run the image's holding region is the table as of the last answered write request. */
  lemma {:induction false} RegionIsLastWritten(s: State, l: Layout, h: seq<Event>)
    requires Possible(s, l, h)
    requires InRange(s.image, l.holdingOffset, 2 * |s.holding|)
    ensures InRange(After(s, l, h).image, l.holdingOffset, 2 * |After(s, l, h).holding|)
    ensures Region(After(s, l, h), l) == LastWritten(s, l, h)
  {
    ShapeKept(s, l, h);
    if h != [] {
      var n := |h| - 1;
      PrefixPossible(s, l, h);
      ShapeKept(s, l, h[..n]);
      RegionIsLastWritten(s, l, h[..n]);
      assert Respectful(After(s, l, h[..n]), l, h[n]);
    }
  }

  /** Coherence: after an answered write request the region equals the whole table, whatever happened
      before; so one such request repairs every register at once. */
  lemma CoherentAfterWrite(s: State, l: Layout, h: seq<Event>)
    requires Possible(s, l, h)
    requires InRange(s.image, l.holdingOffset, 2 * |s.holding|)
    requires h != [] && AnsweredWrite(h[|h| - 1])
    ensures InRange(After(s, l, h).image, l.holdingOffset, 2 * |After(s, l, h).holding|)
    ensures Coherent(After(s, l, h), l)
  {
    RegionIsLastWritten(s, l, h);
  }

  /** The only event that can end coherence is a request that changes the table and whose reply fails,
      and every such event does end it. */
  lemma CoherenceLost(s: State, l: Layout, e: Event)
    requires Respectful(s, l, e)
    requires InRange(s.image, l.holdingOffset, 2 * |s.holding|) && Coherent(s, l)
    ensures InRange(Apply(s, l, e).image, l.holdingOffset, 2 * |Apply(s, l, e).holding|)
    ensures Coherent(Apply(s, l, e), l) <==>
              !(e.Exchange? && !e.replied && TableAfter(s.holding, |s.inputs|, e.request) != s.holding)
  {
    if e.Exchange? {
      var holding := TableAfter(s.holding, |s.inputs|, e.request);
      SameTable(s.holding, holding);
    }
  }

  /** At any time, the region is out of date exactly if the table has changed since it was written. */
  lemma CoherentIffUnchanged(s: State, l: Layout, h: seq<Event>, w: nat)
    requires Possible(s, l, h)
    requires InRange(s.image, l.holdingOffset, 2 * |s.holding|)
    requires 0 < w <= |h| && AnsweredWrite(h[w - 1])
    requires forall i | w <= i < |h| :: !AnsweredWrite(h[i])
    ensures InRange(After(s, l, h).image, l.holdingOffset, 2 * |After(s, l, h).holding|)
    ensures Coherent(After(s, l, h), l) <==> After(s, l, h).holding == After(s, l, h[..w]).holding
  {
    RegionIsLastWritten(s, l, h);
    LastWrittenAt(s, l, h, w);
    SameTable(After(s, l, h).holding, After(s, l, h[..w]).holding);
  }

  lemma {:induction false} LastWrittenAt(s: State, l: Layout, h: seq<Event>, w: nat)
    requires InRange(s.image, l.holdingOffset, 2 * |s.holding|)
    requires 0 < w <= |h| && AnsweredWrite(h[w - 1])
    requires forall i | w <= i < |h| :: !AnsweredWrite(h[i])
    ensures LastWritten(s, l, h) == ToBytes(After(s, l, h[..w]).holding)
  {
    if w == |h| {
      assert h[..w] == h;
    } else {
      LastWrittenAt(s, l, h[..|h| - 1], w);
      assert h[..|h| - 1][..w] == h[..w];
    }
  }

  lemma PartOfPart(b: Bytes, offset: nat, length: nat, from: nat, to: nat)
    requires offset + length <= |b| && from <= to <= length
    ensures b[offset..offset + length][from..to] == b[offset + from..offset + to]
  {
    var part, whole := b[offset..offset + length][from..to], b[offset + from..offset + to];
    assert |part| == |whole|;
    assert forall i | 0 <= i < |part| :: part[i] == whole[i];
  }

  lemma RefreshedPart(s: State, l: Layout, address: nat, count: nat)
    requires InRange(s.image, l.inputOffset, 2 * |s.inputs|) && address + count <= |s.inputs|
    ensures Refreshed(s, l)[address..address + count] ==
            FromBytes(s.image[l.inputOffset + 2 * address..l.inputOffset + 2 * (address + count)])
  {
    var from, to := 2 * address, 2 * (address + count);
    PartOfTable(s.image[l.inputOffset..l.inputOffset + 2 * |s.inputs|], address, count);
    PartOfPart(s.image, l.inputOffset, 2 * |s.inputs|, from, to);
  }

  /** A request for input registers is answered from the image as it is at that time. */
  lemma InputsAreFresh(s: State, l: Layout, address: nat, count: nat, replied: bool)
    requires InRange(s.image, l.inputOffset, 2 * |s.inputs|)
    requires Acceptable(|s.holding|, |s.inputs|, ReadInput(address, count))
    ensures var t := Apply(s, l, Exchange(ReadInput(address, count), replied));
            && Answer(t.holding, t.inputs, ReadInput(address, count)) ==
               Response(FromBytes(s.image[l.inputOffset + 2 * address..l.inputOffset + 2 * (address + count)]))
            && t.holding == s.holding && t.image == s.image
  {
    RefreshedPart(s, l, address, count);
  }

  // ---------- single requests ----------

  /** Requests that do not write leave the table and, whether answered or not, the image as they are. */
  lemma ReadsChangeNothing(s: State, l: Layout, r: Request, replied: bool)
    requires r.ReadHolding? || r.ReadInput? || r.OtherFunction? || (r.Bits? && !r.write)
    ensures var t := Apply(s, l, Exchange(r, replied));
            t.holding == s.holding && t.image == s.image && (r.ReadHolding? || r.OtherFunction? ==> t == s)
  {}

  /** Every request that writes, once answered, even by an exception, makes region and table agree. */
  lemma WritesAreCopied(s: State, l: Layout, r: Request)
    requires InRange(s.image, l.holdingOffset, 2 * |s.holding|)
    requires r.WriteSingle? || r.WriteMultiple? || r.MaskWrite? || r.WriteAndRead? || (r.Bits? && r.write)
    ensures var t := Apply(s, l, Exchange(r, true));
            |t.image| == |s.image| && |t.holding| == |s.holding| && Coherent(t, l) && t.inputs == s.inputs
  {}

  /** The registers a request writes, and from which address on. */
  function Written(r: Request): (nat, Registers)
    requires r.WriteSingle? || r.WriteMultiple? || r.WriteAndRead?
  {
    match r
    case WriteSingle(address, value) => (address, [value])
    case WriteMultiple(address, values) => (address, values)
    case WriteAndRead(address, values, _, _) => (address, values)
  }

  /** Acceptable values are found in the registers written, and no other register changes; a request that
      is not acceptable changes none. */
  lemma ValuesAreWritten(regs: Registers, inputs: nat, r: Request, k: nat)
    requires r.WriteSingle? || r.WriteMultiple? || r.WriteAndRead?
    requires k < |regs|
    ensures var (address, values) := Written(r);
            TableAfter(regs, inputs, r)[k] ==
            if Acceptable(|regs|, inputs, r) && address <= k < address + |values| then values[k - address] else regs[k]
  {}

  /** What is written is read back, also by the request that writes it. */
  lemma WrittenIsReadBack(regs: Registers, inputs: Registers, r: Request)
    requires r.WriteSingle? || r.WriteMultiple? || r.WriteAndRead?
    requires Acceptable(|regs|, |inputs|, r)
    ensures var (address, values) := Written(r);
            var t := TableAfter(regs, |inputs|, r);
            && Answer(t, inputs, ReadHolding(address, |values|)) == Response(values)
            && (r.WriteAndRead? && (r.readAddress, r.readCount) == (address, |values|) ==>
                  Answer(t, inputs, r) == Response(values))
  {
    var (address, values) := Written(r);
    var t := TableAfter(regs, |inputs|, r);
    forall i | 0 <= i < |values| ensures t[address..address + |values|][i] == values[i] {
      ValuesAreWritten(regs, |inputs|, r, address + i);
    }
    assert t[address..address + |values|] == values;
  }

  predicate OneBit(m: bv16) {
    m != 0 && m & (m - 1) == 0
  }

  /** A mask write takes each bit from the OR mask where the AND mask has none, and leaves it elsewhere
      (section 6.16); it changes one register only. */
  lemma MaskIsWritten(regs: Registers, inputs: nat, address: nat, andMask: bv16, orMask: bv16, k: nat, bit: bv16)
    requires address < |regs| && k < |regs| && OneBit(bit)
    ensures var t := TableAfter(regs, inputs, MaskWrite(address, andMask, orMask));
            t[k] & bit == if k != address || andMask & bit != 0 then regs[k] & bit else orMask & bit
  {
    MaskedBit(regs[address], andMask, orMask, bit);
  }

  lemma MaskedBit(r: bv16, andMask: bv16, orMask: bv16, bit: bv16)
    requires OneBit(bit)
    ensures ((r & andMask) | (orMask & !andMask)) & bit == if andMask & bit != 0 then r & bit else orMask & bit
  {}

  /** An exception is answered exactly to a request of more than 125 registers to read, of more than 123, or
      121 with a read, to write, of none, of registers outside the tables, of bits or of another function. */
  lemma ExceptionsAre(regs: Registers, inputs: Registers, r: Request)
    ensures Answer(regs, inputs, r).ExceptionResponse? <==>
            match r
            case ReadHolding(address, count) => count == 0 || count > 125 || address + count > |regs|
            case ReadInput(address, count) => count == 0 || count > 125 || address + count > |inputs|
            case WriteSingle(address, _) => address >= |regs|
            case WriteMultiple(address, values) => |values| == 0 || |values| > 123 || address + |values| > |regs|
            case MaskWrite(address, _, _) => address >= |regs|
            case WriteAndRead(address, values, readAddress, readCount) =>
              || |values| == 0 || |values| > 121 || address + |values| > |regs|
              || readCount == 0 || readCount > 125 || readAddress + readCount > |regs|
            case Bits(_) => true
            case OtherFunction => true
  {}

  // ---------- the slave in place ----------

  class Slave {
    const holding: array<bv16>
    const inputs: array<bv16>
    const image: ProcessImage
    const layout: Layout

    /** The tables start with zeros; the image is left as it is. */
    constructor (holdingCount: nat, inputCount: nat, image: ProcessImage, layout: Layout)
      ensures this.image == image && this.layout == layout
      ensures fresh(holding) && fresh(inputs) && holding != inputs
      ensures holding[..] == seq(holdingCount, i => 0) && inputs[..] == seq(inputCount, i => 0)
    {
      this.image, this.layout := image, layout;
      holding := new bv16[holdingCount](i => 0);
      inputs := new bv16[inputCount](i => 0);
    }

    function Now(): State
      reads holding, inputs, image.mem
    {
      State(holding[..], inputs[..], image.mem[..])
    }

    /** Copies the whole holding table to the image; no coils are configured. */
    method WriteToImage() returns (r: int)
      modifies image.mem
      ensures image.mem[..] == PutBytes(old(image.mem[..]), layout.holdingOffset, ToBytes(holding[..]))
      ensures r == if holding.Length == 0 then 0
                   else if InRange(image.mem[..], layout.holdingOffset, 2 * holding.Length) then 2 * holding.Length
                   else -1
    {
      r := 0;
      if holding.Length > 0 {
        var bytes := ToBytes(holding[..]);
        var buffer := new bv8[|bytes|](i requires 0 <= i < |bytes| => bytes[i]);
        assert buffer[..] == bytes && buffer[..|bytes|] == bytes;
        r := image.Write(layout.holdingOffset, |bytes|, buffer);
      } else {
        assert PutBytes(image.mem[..], layout.holdingOffset, []) == image.mem[..];
      }
    }

    /** Reads the input table from the image; no discrete inputs are configured. */
    method ReadFromImage() returns (r: int)
      requires inputs != holding
      modifies inputs
      ensures inputs[..] == Refreshed(old(Now()), layout)
    {
      r := 0;
      if inputs.Length > 0 {
        var buffer := new bv8[2 * inputs.Length](i => 0);
        r := image.Read(layout.inputOffset, 2 * inputs.Length, buffer);
        if r > 0 {
          var values := FromBytes(buffer[..]);
          assert buffer[..] == image.mem[layout.inputOffset..layout.inputOffset + 2 * inputs.Length];
          forall i | 0 <= i < inputs.Length {
            inputs[i] := values[i];
          }
          assert inputs[..] == values;
        }
      }
    }

    /** libmodbus's part: carries out the request on the tables and builds the answer. */
    method Reply(r: Request) returns (answer: Response)
      requires inputs != holding
      modifies holding
      ensures holding[..] == TableAfter(old(holding[..]), inputs.Length, r)
      ensures answer == Answer(holding[..], inputs[..], r)
    {
      var table := TableAfter(holding[..], inputs.Length, r);
      forall i | 0 <= i < holding.Length {
        holding[i] := table[i];
      }
      assert holding[..] == table;
      answer := Answer(holding[..], inputs[..], r);
    }

    /** One request, from its arrival to the update of the image. */
    method ProcessRequest(e: Event) returns (r: int)
      requires !e.Environment?
      requires inputs != holding
      modifies holding, inputs, image.mem
      ensures Now() == Apply(old(Now()), layout, e)
      ensures r == if e.Lost? || (e.Exchange? && !e.replied) then -1 else 0
    {
      if !e.Exchange? {
        return if e.Lost? then -1 else 0;
      }
      if e.request.ReadInput? || (e.request.Bits? && !e.request.write) {
        var _ := ReadFromImage();
      }
      var answer := Reply(e.request);
      if !e.replied {
        return -1;
      }
      if IsWrite(e.request) {
        var _ := WriteToImage();
      }
      return 0;
    }
  }
}
