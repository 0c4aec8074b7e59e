/** One Modbus transaction of the master: what it moves between the device and the process image. */
module Transactions {
  import opened ModbusConfig
  import opened ProcessImages
  import opened Widths

  /** libmodbus's base for its own error numbers. */
  const MODBUS_ENOBASE := 112345678

  /** What the call into libmodbus yields: its return value, errno, and the bytes it fills the buffer with. */
  datatype Outcome = Outcome(len: int, errno: nat, data: Bytes)

  /** What is sent to the device; coils take one byte each, registers two, low byte first. */
  datatype Request = NoRequest | Request(functionCode: nat, address: int, count: nat, payload: Bytes)

  datatype Result = Result(image: Bytes, len: int, request: Request)

  // ---------- coils ----------

  /** The byte of the i-th coil ... */
  function CoilByte(a: Action, i: nat): nat {
    Address(a.startByte + i / 8)
  }

  /** ... and its bit, which rotates within the byte instead of carrying into the next one. */
  function CoilBit(a: Action, i: nat): (b: nat)
    ensures b < 8
  {
    (a.startBit + i) % 8
  }

  /** The transfer of coils stops at the first one whose byte lies outside the image. */
  function Reach(size: nat, a: Action, i: nat): (n: nat)
    requires i <= a.registerCount
    ensures i <= n <= a.registerCount
    ensures forall j | i <= j < n :: CoilByte(a, j) < size
    ensures n < a.registerCount ==> size <= CoilByte(a, n)
    decreases a.registerCount - i
  {
    if i == a.registerCount || size <= CoilByte(a, i) then i else Reach(size, a, i + 1)
  }

  /** The image after storing the coils from the i-th on. */
  function StoreCoils(image: Bytes, a: Action, values: Bytes, i: nat): (r: Bytes)
    requires i <= a.registerCount <= |values|
    ensures |r| == |image|
    decreases a.registerCount - i
  {
    if i == a.registerCount || !Accessible(image, CoilByte(a, i), CoilBit(a, i)) then image
    else StoreCoils(PutBit(image, CoilByte(a, i), CoilBit(a, i), values[i] != 0), a, values, i + 1)
  }

  function CoilValue(image: Bytes, a: Action, i: nat): bv8 {
    if Bit(image, CoilByte(a, i), CoilBit(a, i)) then 1 else 0
  }

  function LoadCoils(image: Bytes, a: Action): Bytes {
    seq(a.registerCount, i requires 0 <= i => CoilValue(image, a, i))
  }

  predicate CoilsAccessible(size: nat, a: Action) {
    Reach(size, a, 0) == a.registerCount
  }

  // ---------- the transaction ----------

  /** libmodbus's own errors lose their base. */
  function Reduced(errno: nat): nat {
    if errno > MODBUS_ENOBASE then errno - MODBUS_ENOBASE else errno
  }

  /** A status byte is all that is left of an error number. */
  function StatusCode(errno: nat): bv8 {
    (Reduced(errno) % 256) as bv8
  }

  /** How many bytes of the buffer a successful read fills. */
  function DataSize(a: Action): nat {
    if ReadsRegisters(a.functionCode) then 2 * a.registerCount
    else if ReadsBits(a.functionCode) || a.functionCode == REPORT_SLAVE_ID then a.registerCount
    else 0
  }

  predicate ValidOutcome(a: Action, out: Outcome) {
    && |out.data| <= MAX_REGISTER_SIZE_PER_ACTION
    && (out.len >= a.registerCount ==> DataSize(a) <= |out.data|)
  }

  /** The transfer itself, without the error report. */
  function Transfer(image: Bytes, a: Action, out: Outcome): (r: Result)
    requires ValidOutcome(a, out)
    ensures |r.image| == |image|
  {
    var address := a.startRegister - 1;
    var read := Request(a.functionCode, address, a.registerCount, []);
    if ReadsBits(a.functionCode) then
      Result(if out.len < a.registerCount then image else StoreCoils(image, a, out.data, 0), out.len, read)
    else if ReadsRegisters(a.functionCode) then
      Result(if out.len < a.registerCount then image else PutBytes(image, a.startByte, out.data[..2 * a.registerCount]),
             out.len, read)
    else if WritesBits(a.functionCode) then
      if CoilsAccessible(|image|, a) then
        Result(image, out.len, Request(a.functionCode, address, a.registerCount, LoadCoils(image, a)))
      else Result(image, 0, NoRequest)
    else if WritesRegisters(a.functionCode) then
      if 0 < a.registerCount && InRange(image, a.startByte, 2 * a.registerCount) then
        Result(image, out.len,
               Request(a.functionCode, address, a.registerCount, image[a.startByte..a.startByte + 2 * a.registerCount]))
      else Result(image, 0, NoRequest)
    else if a.functionCode == REPORT_SLAVE_ID then
      Result(if out.len < a.registerCount then image else PutBytes(image, a.startByte, out.data[..a.registerCount]),
             out.len, Request(a.functionCode, 0, 0, []))
    else Result(image, 0, NoRequest)
  }

  /** A failed transaction leaves its code in the action's status byte. */
  function Process(image: Bytes, a: Action, out: Outcome): (r: Result)
    requires ValidOutcome(a, out)
    ensures |r.image| == |image|
  {
    var t := Transfer(image, a, out);
    if t.len < 0 then t.(image := PutBytes(t.image, a.statusByte, [StatusCode(out.errno)])) else t
  }

  // ---------- the transaction in place ----------

  method ReportError(image: ProcessImage, offset: nat, code: bv8) returns (r: int)
    modifies image.mem
    ensures image.mem[..] == PutBytes(old(image.mem[..]), offset, [code])
    ensures r == if InRange(image.mem[..], offset, 1) then 1 else -1
  {
    var buffer := new bv8[1][code];
    r := image.Write(offset, 1, buffer);
    assert buffer[..1] == [code];
  }

  /** The read call: libmodbus fills the buffer. */
  method Receive(buffer: array<bv8>, out: Outcome) returns (len: int)
    requires |out.data| <= buffer.Length
    modifies buffer
    ensures buffer[..|out.data|] == out.data
    ensures len == out.len
  {
    for i := 0 to |out.data|
      invariant forall j | 0 <= j < i :: buffer[j] == out.data[j]
    {
      buffer[i] := out.data[i];
    }
    return out.len;
  }

  method StoreCoilsFromBuffer(image: ProcessImage, a: Action, buffer: array<bv8>) returns (r: int)
    requires a.registerCount <= buffer.Length && buffer != image.mem
    modifies image.mem
    ensures image.mem[..] == StoreCoils(old(image.mem[..]), a, buffer[..], 0)
    ensures a.registerCount > 0 ==> (r == 0 <==> CoilsAccessible(image.mem.Length, a))
  {
    r := 0;
    ghost var values := buffer[..];
    for i := 0 to a.registerCount
      invariant buffer[..] == values && r == 0
      invariant StoreCoils(old(image.mem[..]), a, values, 0) == StoreCoils(image.mem[..], a, values, i)
      invariant Reach(image.mem.Length, a, 0) == Reach(image.mem.Length, a, i)
    {
      r := image.SetBitValue(CoilByte(a, i), CoilBit(a, i), buffer[i] != 0);
      if r < 0 {
        break;
      }
    }
  }

  method LoadCoilsIntoBuffer(image: ProcessImage, a: Action, buffer: array<bv8>) returns (r: int)
    requires a.registerCount <= buffer.Length && buffer != image.mem
    modifies buffer
    ensures r == if CoilsAccessible(image.mem.Length, a) then 0 else -1
    ensures r == 0 ==> buffer[..a.registerCount] == LoadCoils(image.mem[..], a)
  {
    r := 0;
    for i := 0 to a.registerCount
      invariant r == 0
      invariant Reach(image.mem.Length, a, 0) == Reach(image.mem.Length, a, i)
      invariant forall j | 0 <= j < i :: buffer[j] == CoilValue(image.mem[..], a, j)
    {
      var v;
      r, v := image.GetBitValue(CoilByte(a, i), CoilBit(a, i));
      if r < 0 {
        break;
      }
      buffer[i] := if v then 1 else 0;
    }
  }

  method ProcessModbusAction(image: ProcessImage, a: Action, out: Outcome, buffer: array<bv8>)
    returns (len: int, request: Request)
    requires CountAllowed(a) && ValidOutcome(a, out)
    requires buffer.Length == MAX_REGISTER_SIZE_PER_ACTION && buffer != image.mem
    modifies image.mem, buffer
    ensures Result(image.mem[..], len, request) == Process(old(image.mem[..]), a, out)
  {
    var count, address, success := a.registerCount, a.startRegister - 1, 0;
    len, request := 0, NoRequest;
    if ReadsBits(a.functionCode) {
      request := Request(a.functionCode, address, count, []);
      len := Receive(buffer, out);
      if len >= count {
        ghost var before := image.mem[..];
        StoreCoilsPrefix(before, a, out.data, buffer[..], 0);
        success := StoreCoilsFromBuffer(image, a, buffer);
      }
    } else if ReadsRegisters(a.functionCode) {
      request := Request(a.functionCode, address, count, []);
      len := Receive(buffer, out);
      if len >= count {
        success := image.Write(a.startByte, 2 * count, buffer);
        assert buffer[..2 * count] == out.data[..2 * count];
      }
    } else if WritesBits(a.functionCode) {
      success := LoadCoilsIntoBuffer(image, a, buffer);
      if success >= 0 {
        request := Request(a.functionCode, address, count, buffer[..count]);
        len := out.len;
      }
    } else if WritesRegisters(a.functionCode) {
      success := image.Read(a.startByte, 2 * count, buffer);
      if success > 0 {
        request := Request(a.functionCode, address, count, buffer[..2 * count]);
        len := out.len;
      }
    } else if a.functionCode == REPORT_SLAVE_ID {
      request := Request(a.functionCode, 0, 0, []);
      len := Receive(buffer, out);
      if len >= count {
        success := image.Write(a.startByte, count, buffer);
        assert buffer[..count] == out.data[..count];
      }
    }
    assert Result(image.mem[..], len, request) == Transfer(old(image.mem[..]), a, out);
    if len < 0 {
      var _ := ReportError(image, a.statusByte, StatusCode(out.errno));
    }
  }

  /** Only the first registerCount values matter. */
  lemma {:induction false} StoreCoilsPrefix(image: Bytes, a: Action, values: Bytes, values': Bytes, i: nat)
    requires i <= a.registerCount <= |values| <= |values'|
    requires values'[..|values|] == values
    ensures StoreCoils(image, a, values, i) == StoreCoils(image, a, values', i)
    decreases a.registerCount - i
  {
    if i < a.registerCount && Accessible(image, CoilByte(a, i), CoilBit(a, i)) {
      assert values[i] == values'[..|values|][i];
      StoreCoilsPrefix(PutBit(image, CoilByte(a, i), CoilBit(a, i), values[i] != 0), a, values, values', i + 1);
    }
  }

  // ---------- properties of the coil map ----------

  /** No two coils share a bit, for any start and any count the protocol allows. */
  lemma CoilMapInjective(a: Action, i: nat, j: nat)
    requires i < 8 * UINT16 && j < 8 * UINT16
    requires CoilByte(a, i) == CoilByte(a, j) && CoilBit(a, i) == CoilBit(a, j)
    ensures i == j
  {
    SameResidue(a.startByte, i / 8, j / 8);
    RotatedBit(a.startBit, i);
    RotatedBit(a.startBit, j);
    SameRotation(a.startBit % 8, i % 8, j % 8);
  }

  lemma SameRotation(s: nat, x: nat, y: nat)
    requires s < 8 && x < 8 && y < 8
    requires (s + x) % 8 == (s + y) % 8
    ensures x == y
  {}

  lemma SameResidue(s: nat, x: nat, y: nat)
    requires x < UINT16 && y < UINT16
    requires (s + x) % UINT16 == (s + y) % UINT16
    ensures x == y
  {}

  lemma RotatedBit(startBit: nat, i: nat)
    ensures (startBit + i) % 8 == (startBit % 8 + i % 8) % 8
  {}

  /** The i-th coil is stored at the i-th bit after the start. */
  predicate LinearAt(a: Action, i: nat) {
    8 * CoilByte(a, i) + CoilBit(a, i) == 8 * a.startByte + a.startBit + i
  }

  /** A coil is stored linearly exactly if its bit does not rotate past the end of the byte, and its byte
      has a 16-bit address. */
  lemma CoilMapLinear(a: Action, i: nat)
    requires a.startBit < 8
    ensures LinearAt(a, i) <==> a.startBit + i % 8 < 8 && a.startByte + i / 8 < 0x1_0000
  {
    assert i == 8 * (i / 8) + i % 8;
    RotatedBit(a.startBit, i);
    CutAddress(a.startByte + i / 8);
  }

  lemma CutAddress(offset: nat)
    ensures if offset < 0x1_0000 then Address(offset) == offset else Address(offset) <= offset - 0x1_0000
  {}

  /** So a block of coils is stored linearly exactly if it starts at bit 0 or ends within its first byte,
      and ends within 16-bit addresses. */
  lemma CoilBlockLinear(a: Action)
    requires a.startBit < 8 && 0 < a.registerCount
    ensures (forall i: nat | i < a.registerCount :: LinearAt(a, i)) <==>
              && (a.startBit == 0 || a.startBit + a.registerCount <= 8)
              && a.startByte + (a.registerCount - 1) / 8 < 0x1_0000
  {
    forall i: nat | i < a.registerCount
      ensures LinearAt(a, i) <==> a.startBit + i % 8 < 8 && a.startByte + i / 8 < 0x1_0000
    {
      CoilMapLinear(a, i);
    }
    var last := a.registerCount - 1;
    assert forall i: nat | i < a.registerCount :: i / 8 <= last / 8;
    if a.startBit != 0 && a.startBit + a.registerCount > 8 {
      assert !LinearAt(a, 8 - a.startBit);
    }
    if LinearAt(a, last) {
      assert a.startByte + last / 8 < 0x1_0000;
    }
  }

  /** Bits that belong to no stored coil keep their value ... */
  lemma {:induction false} StoreCoilsFrame(image: Bytes, a: Action, values: Bytes, i: nat, x: nat, b: nat)
    requires i <= a.registerCount <= |values|
    requires forall j | i <= j < Reach(|image|, a, i) :: (CoilByte(a, j), CoilBit(a, j)) != (x, b)
    ensures Bit(StoreCoils(image, a, values, i), x, b) == Bit(image, x, b)
    decreases a.registerCount - i
  {
    if i < Reach(|image|, a, i) {
      var image' := PutBit(image, CoilByte(a, i), CoilBit(a, i), values[i] != 0);
      PutBitThenBit(image, CoilByte(a, i), CoilBit(a, i), values[i] != 0, x, b);
      StoreCoilsFrame(image', a, values, i + 1, x, b);
    }
  }

  /** ... and each stored coil is found at its bit. */
  lemma {:induction false} StoreCoilsStored(image: Bytes, a: Action, values: Bytes, i: nat, j: nat)
    requires a.registerCount <= |values| && a.registerCount <= 8 * UINT16
    requires i <= a.registerCount
    requires i <= j < Reach(|image|, a, i)
    ensures Bit(StoreCoils(image, a, values, i), CoilByte(a, j), CoilBit(a, j)) == (values[j] != 0)
    decreases a.registerCount - i
  {
    var image' := PutBit(image, CoilByte(a, i), CoilBit(a, i), values[i] != 0);
    if i < j {
      StoreCoilsStored(image', a, values, i + 1, j);
    } else {
      forall m | i + 1 <= m < Reach(|image'|, a, i + 1)
        ensures (CoilByte(a, m), CoilBit(a, m)) != (CoilByte(a, i), CoilBit(a, i))
      {
        if (CoilByte(a, m), CoilBit(a, m)) == (CoilByte(a, i), CoilBit(a, i)) {
          CoilMapInjective(a, m, i);
        }
      }
      StoreCoilsFrame(image', a, values, i + 1, CoilByte(a, i), CoilBit(a, i));
      PutBitThenBit(image, CoilByte(a, i), CoilBit(a, i), values[i] != 0, CoilByte(a, i), CoilBit(a, i));
    }
  }

  /** Coil round trip: what one action reads from a device, another action with the same place in the
      image sends on unchanged. */
  lemma CoilRoundTrip(image: Bytes, r: Action, w: Action, out: Outcome, out': Outcome)
    requires CountAllowed(r) && ValidOutcome(r, out) && ValidOutcome(w, out')
    requires ReadsBits(r.functionCode) && WritesBits(w.functionCode)
    requires (r.startByte, r.startBit, r.registerCount) == (w.startByte, w.startBit, w.registerCount)
    requires CoilsAccessible(|image|, r)
    requires r.registerCount <= out.len
    ensures Process(Process(image, r, out).image, w, out').request ==
            Request(w.functionCode, w.startRegister - 1, w.registerCount,
                    seq(r.registerCount, i requires 0 <= i < |out.data| => if out.data[i] != 0 then 1 else 0))
  {
    var image' := Process(image, r, out).image;
    SameReach(|image|, r, w, 0);
    forall i: nat | i < r.registerCount
      ensures CoilValue(image', w, i) == if out.data[i] != 0 then 1 else 0
    {
      StoreCoilsStored(image, r, out.data, 0, i);
    }
    assert LoadCoils(image', w) ==
           seq(r.registerCount, i requires 0 <= i < |out.data| => if out.data[i] != 0 then 1 else 0);
  }

  lemma {:induction false} SameReach(size: nat, r: Action, w: Action, i: nat)
    requires (r.startByte, r.registerCount) == (w.startByte, w.registerCount)
    requires i <= r.registerCount
    ensures Reach(size, r, i) == Reach(size, w, i)
    decreases r.registerCount - i
  {
    if i < r.registerCount && CoilByte(r, i) < size {
      SameReach(size, r, w, i + 1);
    }
  }

  /** Register round trip, byte for byte. */
  lemma RegisterRoundTrip(image: Bytes, r: Action, w: Action, out: Outcome, out': Outcome)
    requires CountAllowed(r) && ValidOutcome(r, out) && ValidOutcome(w, out')
    requires ReadsRegisters(r.functionCode) && WritesRegisters(w.functionCode)
    requires (r.startByte, r.registerCount) == (w.startByte, w.registerCount) && 0 < r.registerCount
    requires InRange(image, r.startByte, 2 * r.registerCount)
    requires r.registerCount <= out.len
    ensures Process(Process(image, r, out).image, w, out').request ==
            Request(w.functionCode, w.startRegister - 1, w.registerCount, out.data[..2 * r.registerCount])
  {}

  /** The bytes an action may change besides its status byte. */
  predicate MayStore(a: Action, x: nat) {
    || (ReadsBits(a.functionCode) && exists i: nat :: i < a.registerCount && CoilByte(a, i) == x)
    || (DataSize(a) > 0 && !ReadsBits(a.functionCode) && a.startByte <= x < a.startByte + DataSize(a))
  }

  lemma {:induction false} StoreCoilsBytes(image: Bytes, a: Action, values: Bytes, i: nat, x: nat)
    requires i <= a.registerCount <= |values|
    requires x < |image| && forall j: nat | i <= j < a.registerCount :: CoilByte(a, j) != x
    ensures StoreCoils(image, a, values, i)[x] == image[x]
    decreases a.registerCount - i
  {
    if i < a.registerCount && Accessible(image, CoilByte(a, i), CoilBit(a, i)) {
      StoreCoilsBytes(PutBit(image, CoilByte(a, i), CoilBit(a, i), values[i] != 0), a, values, i + 1, x);
    }
  }

  /** A transaction changes nothing but its data area and, if it failed, its status byte, which then
      holds its code; a success leaves the status byte alone. */
  lemma TransactionFrame(image: Bytes, a: Action, out: Outcome, x: nat)
    requires CountAllowed(a) && ValidOutcome(a, out)
    requires x < |image| && !MayStore(a, x)
    ensures Process(image, a, out).image[x] ==
            if x == a.statusByte && Process(image, a, out).len < 0 then StatusCode(out.errno) else image[x]
  {
    if ReadsBits(a.functionCode) && out.len >= a.registerCount {
      StoreCoilsBytes(image, a, out.data, 0, x);
    }
    assert Transfer(image, a, out).image[x] == image[x];
    var t := Transfer(image, a, out);
    if t.len < 0 && InRange(t.image, a.statusByte, 1) && x == a.statusByte {
      assert PutBytes(t.image, a.statusByte, [StatusCode(out.errno)])[x..x + 1][0] == StatusCode(out.errno);
    }
  }

  // ---------- status codes ----------

  /** The numbers of the system's errors, and those of libmodbus. */
  predicate FitsByte(errno: nat) {
    errno < 256 || MODBUS_ENOBASE < errno < MODBUS_ENOBASE + 256
  }

  lemma StatusOf(errno: nat)
    requires FitsByte(errno)
    ensures StatusCode(errno) as int == Reduced(errno) < 256
  {
    ByteOf(Reduced(errno));
  }

  lemma ByteOf(n: nat)
    requires n < 256
    ensures (n % 256) as bv8 as int == n
  {}

  /** The status lies between 1 and 15 exactly for libmodbus's first 15 errors and the system's; all
      other errors keep their own numbers, such as 104 and 110. */
  lemma StatusInLibmodbusRange(errno: nat)
    ensures FitsByte(errno) ==>
              (1 <= StatusCode(errno) as int <= 15 <==>
                 1 <= errno <= 15 || MODBUS_ENOBASE < errno <= MODBUS_ENOBASE + 15)
  {
    if FitsByte(errno) {
      StatusOf(errno);
    }
  }

  /** Two errors have the same status exactly if one is the system's error of the other's number in libmodbus. */
  lemma StatusAmbiguous(e: nat, e': nat)
    ensures FitsByte(e) && FitsByte(e') ==>
              (StatusCode(e) == StatusCode(e') <==> e == e' || e == e' + MODBUS_ENOBASE || e' == e + MODBUS_ENOBASE)
  {
    if FitsByte(e) && FitsByte(e') {
      StatusOf(e);
      StatusOf(e');
    }
  }

  const ETIMEDOUT := 110

  /** A transaction that timed out leaves 110 in the status byte. */
  lemma TimeoutStatus(image: Bytes, a: Action, out: Outcome)
    requires ValidOutcome(a, out) && a.statusByte < |image|
    requires out.errno == ETIMEDOUT && Process(image, a, out).len < 0
    ensures Process(image, a, out).image[a.statusByte] == 110
  {
    var t := Transfer(image, a, out);
    var code := StatusCode(out.errno);
    assert PutBytes(t.image, a.statusByte, [code])[a.statusByte..a.statusByte + 1][0] == code;
  }
}
