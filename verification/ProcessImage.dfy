/** The process image: bytes shared with the driver, read and written bytewise or bitwise. An access
    to an address outside the image, or to a bit beyond the seventh, fails and changes nothing. */
module ProcessImages {
  import opened Widths

  type Bytes = seq<bv8>

  /** The conversion of an offset to the 16-bit address of a bit access. */
  function Address(offset: nat): nat {
    offset % UINT16
  }

  /** What is left of an offset is its last sixteen bits. */
  lemma AddressIsCut(offset: nat, blocks: nat, address: nat)
    requires address < 0x1_0000
    ensures offset == 0x1_0000 * blocks + address ==> Address(offset) == address
  {}

  function Mask(bit: nat): bv8 {
    if bit == 0 then 1 else if bit == 1 then 2 else if bit == 2 then 4 else if bit == 3 then 8
    else if bit == 4 then 16 else if bit == 5 then 32 else if bit == 6 then 64 else 128
  }

  /** Bit 0 is the least significant one. */
  lemma MaskIsShift(bit: nat)
    requires bit < 8
    ensures Mask(bit) == 1 << bit
  {
    assert bit == 0 || bit == 1 || bit == 2 || bit == 3 || bit == 4 || bit == 5 || bit == 6 || bit == 7;
  }

  function BitOf(b: bv8, bit: nat): bool {
    b & Mask(bit) != 0
  }

  function WithBit(b: bv8, bit: nat, v: bool): bv8 {
    if v then b | Mask(bit) else b & !Mask(bit)
  }

  lemma BitUpdate(b: bv8, bit: nat, v: bool, other: nat)
    requires bit < 8 && other < 8
    ensures BitOf(WithBit(b, bit, v), other) == if other == bit then v else BitOf(b, other)
  {}

  predicate Accessible(image: Bytes, address: nat, bit: nat) {
    address < |image| && bit < 8
  }

  function Bit(image: Bytes, address: nat, bit: nat): bool {
    Accessible(image, address, bit) && BitOf(image[address], bit)
  }

  /** The image with one bit set or cleared. */
  function PutBit(image: Bytes, address: nat, bit: nat, v: bool): (r: Bytes)
    ensures |r| == |image|
  {
    if Accessible(image, address, bit) then image[address := WithBit(image[address], bit, v)] else image
  }

  /** Setting a bit is seen at that bit, and nowhere else. */
  lemma PutBitThenBit(image: Bytes, address: nat, bit: nat, v: bool, address': nat, bit': nat)
    requires Accessible(image, address, bit)
    ensures Bit(PutBit(image, address, bit, v), address', bit') ==
            if (address', bit') == (address, bit) then v else Bit(image, address', bit')
  {
    if address' == address && bit' < 8 {
      BitUpdate(image[address], bit, v, bit');
    }
  }

  predicate InRange(image: Bytes, offset: nat, length: nat) {
    offset + length <= |image|
  }

  /** The image with a run of bytes replaced. */
  function PutBytes(image: Bytes, offset: nat, data: Bytes): (r: Bytes)
    ensures |r| == |image|
    ensures InRange(image, offset, |data|) ==>
              && r[offset..offset + |data|] == data
              && (forall x | 0 <= x < |image| && !(offset <= x < offset + |data|) :: r[x] == image[x])
    ensures !InRange(image, offset, |data|) ==> r == image
  {
    if InRange(image, offset, |data|) then image[..offset] + data + image[offset + |data|..] else image
  }

  class ProcessImage {
    const mem: array<bv8>

    constructor (size: nat)
      ensures fresh(mem) && mem.Length == size
    {
      mem := new bv8[size];
    }

    method SetBitValue(address: nat, bit: nat, v: bool) returns (r: int)
      modifies mem
      ensures mem[..] == PutBit(old(mem[..]), address, bit, v)
      ensures r == if Accessible(mem[..], address, bit) then 0 else -1
    {
      if address < mem.Length && bit < 8 {
        mem[address] := WithBit(mem[address], bit, v);
        r := 0;
      } else {
        r := -1;
      }
    }

    method GetBitValue(address: nat, bit: nat) returns (r: int, v: bool)
      ensures r == if Accessible(mem[..], address, bit) then 0 else -1
      ensures v == Bit(mem[..], address, bit)
    {
      if address < mem.Length && bit < 8 {
        return 0, BitOf(mem[address], bit);
      }
      return -1, false;
    }

    /** Writes the first length bytes of a buffer; the number written, or -1. */
    method Write(offset: nat, length: nat, buffer: array<bv8>) returns (r: int)
      requires length <= buffer.Length && buffer != mem
      modifies mem
      ensures mem[..] == PutBytes(old(mem[..]), offset, buffer[..length])
      ensures r == if InRange(mem[..], offset, length) then length else -1
    {
      if mem.Length < offset + length {
        return -1;
      }
      for i := 0 to length
        invariant forall j | 0 <= j < i :: mem[offset + j] == buffer[j]
        invariant forall j | 0 <= j < mem.Length && !(offset <= j < offset + i) :: mem[j] == old(mem[j])
      {
        mem[offset + i] := buffer[i];
      }
      return length;
    }

    /** Reads into the front of a buffer; the number read, or -1. */
    method Read(offset: nat, length: nat, buffer: array<bv8>) returns (r: int)
      requires length <= buffer.Length && buffer != mem
      modifies buffer
      ensures r == if InRange(mem[..], offset, length) then length else -1
      ensures buffer[..] == if r == -1 then old(buffer[..]) else mem[offset..offset + length] + old(buffer[length..])
    {
      if mem.Length < offset + length {
        return -1;
      }
      for i := 0 to length
        invariant forall j | 0 <= j < i :: buffer[j] == mem[offset + j]
        invariant forall j | i <= j < buffer.Length :: buffer[j] == old(buffer[j])
      {
        buffer[i] := mem[offset + i];
      }
      return length;
    }
  }
}
