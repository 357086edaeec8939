/** Alignment helpers (kernel/libkernelcxx/include/mem_utils.hpp) and packed bits (.../bitarray.hpp). */
module BitArrays {
  import opened Dyadic

  const PAGE_SIZE: nat := 4096

  /** One past the largest value of the 32-bit `size_t`. */
  const SIZE_LIMIT: nat := 0x1_0000_0000

  /** Round down to a multiple of `boundary`. */
  function AlignDown(boundary: nat, value: nat): nat
    requires boundary > 0
  {
    value - value % boundary
  }

  /** Round up to a multiple of `boundary`, wrapping around at 32 bits as the source does. */
  function AlignUp(boundary: nat, value: nat): (r: nat)
    requires boundary > 0
  {
    if value % boundary != 0 then (AlignDown(boundary, value) + boundary) % SIZE_LIMIT else value
  }

  /** The least multiple of the boundary that is not below the value, unless that wraps around. */
  lemma AlignUpIsLeast(boundary: nat, value: nat)
    requires boundary > 0 && value + boundary <= 0x1_0000_0000
    ensures AlignUp(boundary, value) % boundary == 0 && value <= AlignUp(boundary, value) < value + boundary
  {
    var q := value / boundary;
    assert value == q * boundary + value % boundary;
    DivModUnique(q, 0, boundary);
    DivModUnique(q + 1, 0, boundary);
    assert (q + 1) * boundary == q * boundary + boundary;
  }

  /** Pages that hold so many bytes, and no page more. */
  lemma PagesHold(bytes: nat)
    requires bytes <= SIZE_LIMIT - PAGE_SIZE
    ensures var n := AlignUp(PAGE_SIZE, bytes) / PAGE_SIZE; bytes <= 4096 * n < bytes + 4096 && n < 0x10_0000
  {
  }

  /** Bytes needed for `elems` bits. */
  function ExpectedSize(elems: nat): (bytes: nat)
    ensures elems <= 8 * bytes < elems + 8
  {
    if elems % 8 != 0 then elems / 8 + 1 else elems / 8
  }

  /** The bytes that `initialize` clears are the bytes that `expected_size` reserves. */
  lemma ClearedIsReserved(elems: nat)
    requires elems <= SIZE_LIMIT - 8
    ensures AlignUp(8, elems) / 8 == ExpectedSize(elems)
  {
  }

  /** The byte with only bit `bit` set. */
  function Mask(bit: nat): bv8
    requires bit < 8
  {
    if bit == 0 then 1 else Mask(bit - 1) << 1
  }

  lemma MaskTable()
    ensures Mask(0) == 1 && Mask(1) == 2 && Mask(2) == 4 && Mask(3) == 8
    ensures Mask(4) == 16 && Mask(5) == 32 && Mask(6) == 64 && Mask(7) == 128
  {
    assert Mask(1) == 2;
    assert Mask(2) == 4;
    assert Mask(3) == 8;
    assert Mask(4) == 16;
    assert Mask(5) == 32;
    assert Mask(6) == 64;
  }

  function WithBit(b: bv8, bit: nat, value: bool): bv8
    requires bit < 8
  {
    if value then b | Mask(bit) else b & !Mask(bit)
  }

  predicate HasBit(b: bv8, bit: nat)
    requires bit < 8
  {
    b & Mask(bit) != 0
  }

  lemma WithBitFacts(b: bv8, i: nat, value: bool, j: nat)
    requires i < 8 && j < 8
    ensures HasBit(WithBit(b, i, value), j) == if i == j then value else HasBit(b, j)
  {
    MaskTable();
  }

  /** Bit `i` of the packed bits that start at byte `data`. */
  predicate BitAt(bytes: seq<bv8>, data: nat, i: nat)
    requires data + i / 8 < |bytes|
  {
    HasBit(bytes[data + i / 8], i % 8)
  }

  /** Rewriting one byte through a mask changes one bit. */
  lemma SetBit(bytes: seq<bv8>, data: nat, index: nat, value: bool, i: nat)
    requires data + index / 8 < |bytes| && data + i / 8 < |bytes|
    ensures BitAt(bytes[data + index / 8 := WithBit(bytes[data + index / 8], index % 8, value)], data, i)
         == if i == index then value else BitAt(bytes, data, i)
  {
    hide HasBit, WithBit;
    WithBitFacts(bytes[data + index / 8], index % 8, value, i % 8);
    assert i == index <==> i / 8 == index / 8 && i % 8 == index % 8;
  }

  /** Bits depend on their own bytes only. */
  lemma BitsFrame(bytes: seq<bv8>, bytes': seq<bv8>, data: nat, size: nat)
    requires |bytes| == |bytes'| && data + ExpectedSize(size) <= |bytes|
    requires forall a :: data <= a < data + ExpectedSize(size) ==> bytes'[a] == bytes[a]
    ensures forall i: nat :: i < size ==> data + i / 8 < |bytes| && BitAt(bytes', data, i) == BitAt(bytes, data, i)
  {
    hide HasBit;
  }

  class BitArray {
    /** The memory of the machine, byte by byte. */
    const ram: array<bv8>
    const data: nat
    const size: nat

    ghost predicate Fits() {
      data + ExpectedSize(size) <= ram.Length
    }

    ghost function Bits(): (b: seq<bool>)
      requires Fits()
      reads ram
      ensures |b| == size && forall i :: 0 <= i < size ==> b[i] == BitAt(ram[..], data, i)
    {
      seq(size, i requires 0 <= i < size reads ram => BitAt(ram[..], data, i))
    }

    /** Lay `size` bits out at `onAddress`, all of them clear; no other byte changes. */
    constructor (ram: array<bv8>, onAddress: nat, size: nat)
      requires size <= SIZE_LIMIT - 8 && onAddress + ExpectedSize(size) <= ram.Length
      modifies ram
      ensures this.ram == ram && data == onAddress && this.size == size
      ensures Fits() && Bits() == seq(size, i => false)
      ensures forall a :: data <= a < data + ExpectedSize(size) ==> ram[a] == 0
      ensures forall a :: 0 <= a < ram.Length && !(data <= a < data + ExpectedSize(size)) ==> ram[a] == old(ram[a])
    {
      this.ram := ram;
      this.data := onAddress;
      this.size := size;
      new;
      ClearedIsReserved(size);
      var bytes := AlignUp(8, size) / 8;
      for idx := 0 to bytes
        invariant forall a :: data <= a < data + idx ==> ram[a] == 0
        invariant forall a :: 0 <= a < ram.Length && !(data <= a < data + bytes) ==> ram[a] == old(ram[a])
      {
        ram[data + idx] := 0;
      }
    }

    method Get(index: nat) returns (bit: bool)
      requires Fits() && index < size
      ensures bit == Bits()[index]
    {
      var byte := index / 8;
      var mask := Mask(index % 8);
      return ram[data + byte] & mask != 0;
    }

    /** Write one bit of one byte through its mask. */
    method WriteBit(address: nat, bit: nat, value: bool)
      requires address < ram.Length && bit < 8
      modifies ram
      ensures ram[..] == old(ram[..])[address := WithBit(old(ram[address]), bit, value)]
    {
      var mask := Mask(bit);
      if value {
        ram[address] := ram[address] | mask;
      } else {
        ram[address] := ram[address] & !mask;
      }
    }

    method Set(index: nat, value: bool)
      requires Fits() && index < size
      modifies ram
      ensures Bits() == old(Bits())[index := value]
      ensures forall a :: 0 <= a < ram.Length && a != data + index / 8 ==> ram[a] == old(ram[a])
    {
      hide WithBit, HasBit;
      var byte := index / 8;
      WriteBit(data + byte, index % 8, value);
      forall a | 0 <= a < ram.Length && a != data + byte ensures ram[a] == old(ram[a]) {
        assert ram[a] == ram[..][a];
      }
      forall i | 0 <= i < size ensures Bits()[i] == old(Bits())[index := value][i] {
        SetBit(old(ram[..]), data, index, value, i);
      }
    }
  }
}
