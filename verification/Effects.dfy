/** What a transaction does for each function code, said of the image and of the request that is sent. */
module Effects {
  import opened ModbusConfig
  import opened ProcessImages
  import opened Transactions

  // ---------- where coils lie ----------

  lemma CoilPlace(a: Action, i: nat)
    requires a.startByte + i / 8 < 0x1_0000
    ensures CoilByte(a, i) == a.startByte + i / 8 && CoilBit(a, i) == (a.startBit + i) % 8
  {
    AddressIsCut(a.startByte + i / 8, 0, a.startByte + i / 8);
  }

  /** The bytes that hold the coils are in the image and have 16-bit addresses. */
  predicate CoilsWithin(a: Action, size: nat) {
    a.registerCount > 0 ==>
      var last := a.startByte + (a.registerCount - 1) / 8;
      last < size && last < 0x1_0000
  }

  lemma {:induction false} CoilsReached(a: Action, size: nat, i: nat)
    requires CoilsWithin(a, size) && i <= a.registerCount
    ensures Reach(size, a, i) == a.registerCount
    decreases a.registerCount - i
  {
    if i < a.registerCount {
      CoilPlace(a, i);
      CoilsReached(a, size, i + 1);
    }
  }

  // ---------- function codes 1 and 2: coils and discrete inputs ----------

  /** The i-th value read is stored at byte i/8 from the start, in a bit that rotates. */
  lemma BitReadStores(image: Bytes, a: Action, out: Outcome, i: nat)
    requires a.functionCode == 1 || a.functionCode == 2
    requires CountAllowed(a) && ValidOutcome(a, out)
    requires i < a.registerCount <= out.len && CoilsWithin(a, |image|)
    ensures i < |out.data|
    ensures Bit(Process(image, a, out).image, a.startByte + i / 8, (a.startBit + i) % 8) == (out.data[i] != 0)
  {
    CoilsReached(a, |image|, 0);
    CoilPlace(a, i);
    StoreCoilsStored(image, a, out.data, 0, i);
  }

  /** The bit at a linear address. */
  function LinearBit(image: Bytes, n: nat): bool {
    Bit(image, n / 8, n % 8)
  }

  /** As long as it does not rotate, that is the i-th bit after the start. */
  lemma BitReadIsLinear(image: Bytes, a: Action, out: Outcome, i: nat)
    requires a.functionCode == 1 || a.functionCode == 2
    requires CountAllowed(a) && ValidOutcome(a, out)
    requires i < a.registerCount <= out.len && CoilsWithin(a, |image|)
    requires a.startBit + i % 8 < 8
    ensures i < |out.data|
    ensures LinearBit(Process(image, a, out).image, 8 * a.startByte + a.startBit + i) == (out.data[i] != 0)
  {
    BitReadStores(image, a, out, i);
    Linear(a.startByte, a.startBit, i);
  }

  lemma Linear(startByte: nat, startBit: nat, i: nat)
    requires startBit + i % 8 < 8
    ensures (8 * startByte + startBit + i) / 8 == startByte + i / 8
    ensures (8 * startByte + startBit + i) % 8 == (startBit + i) % 8 == startBit + i % 8
  {
    assert 8 * startByte + startBit + i == 8 * (startByte + i / 8) + (startBit + i % 8);
  }

  /** No other bit of the image changes. */
  lemma BitReadFrame(image: Bytes, a: Action, out: Outcome, x: nat, b: nat)
    requires a.functionCode == 1 || a.functionCode == 2
    requires CountAllowed(a) && ValidOutcome(a, out)
    requires a.registerCount <= out.len && CoilsWithin(a, |image|)
    requires forall i: nat | i < a.registerCount :: (a.startByte + i / 8, (a.startBit + i) % 8) != (x, b)
    ensures Bit(Process(image, a, out).image, x, b) == Bit(image, x, b)
  {
    forall i: nat | i < a.registerCount ensures (CoilByte(a, i), CoilBit(a, i)) != (x, b) {
      CoilPlace(a, i);
    }
    StoreCoilsFrame(image, a, out.data, 0, x, b);
  }

  // ---------- function codes 3 and 4: registers ----------

  /** What is read replaces the bytes from the start on, if all of them are in the image. */
  lemma RegisterReadStores(image: Bytes, a: Action, out: Outcome)
    requires a.functionCode == 3 || a.functionCode == 4
    requires ValidOutcome(a, out) && a.registerCount <= out.len
    ensures 2 * a.registerCount <= |out.data|
    ensures Process(image, a, out).image ==
            if a.startByte + 2 * a.registerCount <= |image| then
              image[..a.startByte] + out.data[..2 * a.registerCount] + image[a.startByte + 2 * a.registerCount..]
            else image
  {
    Replaced(image, a.startByte, out.data[..2 * a.registerCount]);
  }

  lemma Replaced(image: Bytes, offset: nat, data: Bytes)
    ensures PutBytes(image, offset, data) ==
            if offset + |data| <= |image| then image[..offset] + data + image[offset + |data|..] else image
  {}

  // ---------- what is asked for ----------

  /** A read asks for as many items as configured, from one below the configured register on. */
  lemma ReadRequest(image: Bytes, a: Action, out: Outcome)
    requires 1 <= a.functionCode <= 4 && ValidOutcome(a, out)
    ensures Process(image, a, out).request == Request(a.functionCode, a.startRegister - 1, a.registerCount, [])
    ensures Process(image, a, out).len == out.len
  {}

  /** An answer that is too short, without being a failure, changes nothing. */
  lemma ShortAnswer(image: Bytes, a: Action, out: Outcome)
    requires a.functionCode in [1, 2, 3, 4, 0x11] && ValidOutcome(a, out)
    requires 0 <= out.len < a.registerCount
    ensures Process(image, a, out).image == image && Process(image, a, out).len == out.len
  {}

  // ---------- function codes 5 and 15: coils are written ----------

  /** What is sent is taken from the places where a read with the same parameters stores it. */
  lemma BitWriteSends(image: Bytes, a: Action, out: Outcome)
    requires a.functionCode == 5 || a.functionCode == 15
    requires ValidOutcome(a, out) && CoilsWithin(a, |image|)
    ensures var r := Process(image, a, out);
            && r.len == out.len
            && r.request.Request?
            && (r.request.functionCode, r.request.address, r.request.count)
               == (a.functionCode, a.startRegister - 1, a.registerCount)
            && |r.request.payload| == a.registerCount
            && forall i: nat | i < a.registerCount ::
                 r.request.payload[i] == if Bit(image, a.startByte + i / 8, (a.startBit + i) % 8) then 1 else 0
  {
    CoilsReached(a, |image|, 0);
    forall i: nat | i < a.registerCount
      ensures LoadCoils(image, a)[i] == if Bit(image, a.startByte + i / 8, (a.startBit + i) % 8) then 1 else 0
    {
      CoilPlace(a, i);
    }
  }

  /** Nothing is sent, and that is no failure, if one of the coils cannot be read from the image. */
  lemma BitWriteStops(image: Bytes, a: Action, out: Outcome, i: nat)
    requires a.functionCode == 5 || a.functionCode == 15
    requires ValidOutcome(a, out)
    requires i < a.registerCount && |image| <= a.startByte + i / 8 < 0x1_0000
    ensures Process(image, a, out) == Result(image, 0, NoRequest)
  {
    CoilPlace(a, i);
    assert !(Reach(|image|, a, 0) > i);
  }

  // ---------- function codes 6 and 16: registers are written ----------

  /** What is sent are the bytes from the start on; nothing is sent if they cannot be read. */
  lemma RegisterWriteSends(image: Bytes, a: Action, out: Outcome)
    requires a.functionCode == 6 || a.functionCode == 16
    requires ValidOutcome(a, out)
    ensures var r := Process(image, a, out);
            if 0 < a.registerCount && a.startByte + 2 * a.registerCount <= |image| then
              && r.len == out.len
              && r.request == Request(a.functionCode, a.startRegister - 1, a.registerCount,
                                      image[a.startByte..a.startByte + 2 * a.registerCount])
            else r == Result(image, 0, NoRequest)
  {}

  /** A read and a write of the same configured register, bits or registers, mean the same one in the device. */
  lemma SameRegister(image: Bytes, r: Action, w: Action, out: Outcome, out': Outcome)
    requires 1 <= r.functionCode <= 4 && w.functionCode in [5, 6, 15, 16]
    requires ValidOutcome(r, out) && ValidOutcome(w, out')
    requires r.startRegister == w.startRegister && Process(image, w, out').request.Request?
    ensures Process(image, r, out).request.address == Process(image, w, out').request.address == r.startRegister - 1
  {}

  // ---------- function code 17 and all others ----------

  /** The slave's answer to a request for its identification is stored from the start on. */
  lemma ReportStores(image: Bytes, a: Action, out: Outcome)
    requires a.functionCode == 0x11 && ValidOutcome(a, out) && a.registerCount <= out.len
    ensures a.registerCount <= |out.data|
    ensures Process(image, a, out).image ==
            if a.startByte + a.registerCount <= |image| then
              image[..a.startByte] + out.data[..a.registerCount] + image[a.startByte + a.registerCount..]
            else image
    ensures Process(image, a, out).request == Request(0x11, 0, 0, [])
  {
    Replaced(image, a.startByte, out.data[..a.registerCount]);
  }

  /** Other function codes do nothing, and are no failure. */
  lemma OtherCodes(image: Bytes, a: Action, out: Outcome)
    requires a.functionCode !in [1, 2, 3, 4, 5, 6, 15, 16, 0x11] && ValidOutcome(a, out)
    ensures Process(image, a, out) == Result(image, 0, NoRequest)
  {}

  // ---------- status codes ----------

  /** libmodbus's n-th error leaves status n, an error of the system its own number. */
  lemma StatusNumbers(n: nat)
    requires n < 256
    ensures 0 < n ==> StatusCode(112345678 + n) as int == n
    ensures StatusCode(n) as int == n
  {
    StatusOf(n);
    if 0 < n {
      StatusOf(112345678 + n);
    }
  }

  // ---------- counts ----------

  /** Up to 256 items may be asked for, except that single writes have one, registers are read in at most
      125 and written in at most 123, and an identification has at most 253 bytes. */
  lemma AllowedCounts(a: Action)
    ensures a.functionCode in [1, 2, 15] ==> (CountAllowed(a) <==> a.registerCount <= 256)
    ensures a.functionCode in [3, 4] ==> (CountAllowed(a) <==> a.registerCount <= 125)
    ensures a.functionCode in [5, 6] ==> (CountAllowed(a) <==> a.registerCount == 1)
    ensures a.functionCode == 16 ==> (CountAllowed(a) <==> a.registerCount <= 123)
    ensures a.functionCode == 17 ==> (CountAllowed(a) <==> a.registerCount <= 253)
  {}
}
