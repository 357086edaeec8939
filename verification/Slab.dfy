/** Fixed-size chunks carved out of a run of pages (kernel/memory/slab.cpp). */
module Slabs {
  import opened PageGrants
  import opened PageRuns
  import opened BitArrays
  import opened PageAllocators

  /** Pages that hold `nelems` chunks and the bitmap in front of them. */
  function RequiredPages(elemSize: nat, nelems: nat): nat {
    AlignUp(PAGE_SIZE, elemSize * nelems + ExpectedSize(nelems)) / PAGE_SIZE
  }

  lemma RequiredPagesSuffice(elemSize: nat, nelems: nat)
    requires elemSize * nelems + ExpectedSize(nelems) <= SIZE_LIMIT - PAGE_SIZE
    ensures var bytes := elemSize * nelems + ExpectedSize(nelems);
      bytes <= 4096 * RequiredPages(elemSize, nelems) < bytes + 4096
    ensures RequiredPages(elemSize, nelems) < PAGE_LIMIT
    ensures RequiredPages(elemSize, nelems) == 0 <==> nelems == 0
    ensures ExpectedSize(nelems) <= PAGE_SIZE * RequiredPages(elemSize, nelems)
  {
    PagesHold(elemSize * nelems + ExpectedSize(nelems));
    hide AlignUp;
    assert nelems == 0 ==> elemSize * nelems == 0;
    MulMono(0, elemSize, nelems);
  }

  /** A bitmap at `area` with every bit set; no byte outside it changes. */
  method FreshMap(ram: array<bv8>, area: nat, nelems: nat) returns (m: BitArray)
    requires nelems <= SIZE_LIMIT - 8 && area + ExpectedSize(nelems) <= ram.Length
    modifies ram
    ensures fresh(m) && m.ram == ram && m.data == area && m.size == nelems && m.Fits()
    ensures forall c :: 0 <= c < nelems ==> m.Bits()[c]
    ensures forall a :: 0 <= a < ram.Length && !(area <= a < area + ExpectedSize(nelems)) ==> ram[a] == old(ram[a])
  {
    m := new BitArray(ram, area, nelems);
    for elem := 0 to nelems
      invariant forall c :: 0 <= c < elem ==> m.Bits()[c]
      invariant forall a :: 0 <= a < ram.Length && !(area <= a < area + ExpectedSize(nelems)) ==> ram[a] == old(ram[a])
    {
      m.Set(elem, true);
    }
  }

  lemma ChunkInRange(offset: nat, nelems: nat, elemSize: nat)
    requires offset < nelems * elemSize
    ensures elemSize > 0 && offset / elemSize < nelems
  {
    assert elemSize == 0 ==> nelems * elemSize == 0;
    var q := offset / elemSize;
    assert offset == q * elemSize + offset % elemSize;
    if nelems <= q {
      MulMono(nelems, q, elemSize);
    }
  }

  lemma MulMono(a: nat, b: nat, m: nat)
    requires a <= b
    ensures a * m <= b * m
  {
  }

  /** Take pages for a slab and lay its bitmap out in front; null if there are no such pages. */
  method CarveArea(pages: PageAllocator, elemSize: nat, nelems: nat) returns (area: nat, m: BitArray)
    requires pages.Valid() && nelems <= SIZE_LIMIT - 8
    requires elemSize * nelems + ExpectedSize(nelems) <= SIZE_LIMIT - PAGE_SIZE
    modifies pages, pages.primary, pages.primary.lists, pages.primary.next, pages.ram
    ensures pages.Valid()
    ensures pages.State() == Allocated(old(pages.State()), RequiredPages(elemSize, nelems))
    ensures area == if RequiredPages(elemSize, nelems) == 0 then ZERO_SIZE_PAGE
                    else PAGE_SIZE * Grant(old(pages.primary.free), RequiredPages(elemSize, nelems))
    ensures fresh(m) && m.ram == pages.ram && m.Fits()
    ensures area != 0 ==> m.data == area && m.size == nelems && forall c :: 0 <= c < nelems ==> m.Bits()[c]
    ensures forall a :: 0 <= a < pages.ram.Length && !pages.InMap(a) && !(area <= a < area + ExpectedSize(nelems)) ==>
      pages.ram[a] == old(pages.ram[a])
  {
    assert pages.Layout();
    hide PageAllocator.Valid, AlignUp, ExpectedSize, Allocated, Grant;
    RequiredPagesSuffice(elemSize, nelems);
    var requiredMemory := elemSize * nelems + ExpectedSize(nelems);
    var requiredPages := AlignUp(PAGE_SIZE, requiredMemory) / PAGE_SIZE;
    assert requiredPages == RequiredPages(elemSize, nelems);
    area := pages.Allocate(requiredPages);
    if area == 0 {
      m := LayMap(pages, 0, 0);
    } else {
      m := LayMap(pages, area, nelems);
    }
  }

  /** Lay a slab's bitmap out in memory that is not the page bitmap. */
  method LayMap(pages: PageAllocator, area: nat, nelems: nat) returns (m: BitArray)
    requires pages.Valid() && nelems <= SIZE_LIMIT - 8 && area + ExpectedSize(nelems) <= pages.ram.Length
    requires forall a: nat :: pages.InMap(a) ==> !(area <= a < area + ExpectedSize(nelems))
    modifies pages.ram
    ensures pages.Valid()
    ensures fresh(m) && m.ram == pages.ram && m.Fits()
    ensures m.data == area && m.size == nelems && forall c :: 0 <= c < nelems ==> m.Bits()[c]
    ensures forall a :: 0 <= a < pages.ram.Length && !(area <= a < area + ExpectedSize(nelems)) ==>
      pages.ram[a] == old(pages.ram[a])
  {
    m := FreshMap(pages.ram, area, nelems);
    pages.UndisturbedBy();
  }

  class SlabAllocator {
    const pages: PageAllocator
    const elemSize: nat
    const nelems: nat
    const area: nat
    const memory: nat
    const allocationMap: BitArray
    const initialized: bool

    /** Bitmap first, chunks behind it. */
    ghost predicate Sound() {
      && initialized
      && area != 0
      && allocationMap.ram == pages.ram
      && allocationMap.data == area && allocationMap.size == nelems && allocationMap.Fits()
      && memory == area + ExpectedSize(nelems)
    }

    ghost predicate InMap(a: nat) {
      area <= a < area + ExpectedSize(nelems)
    }

    /** Which chunks are free. */
    ghost function FreeChunks(): (b: seq<bool>)
      requires Sound()
      reads pages.ram
    {
      allocationMap.Bits()
    }

    constructor (pages: PageAllocator, elemSize: nat, nelems: nat)
      requires pages.Valid() && nelems <= SIZE_LIMIT - 8
      requires elemSize * nelems + ExpectedSize(nelems) <= SIZE_LIMIT - PAGE_SIZE
      modifies pages, pages.primary, pages.primary.lists, pages.primary.next, pages.ram
      ensures this.pages == pages && this.elemSize == elemSize && this.nelems == nelems
      ensures pages.Valid()
      ensures pages.State() == Allocated(old(pages.State()), RequiredPages(elemSize, nelems))
      ensures area == (if RequiredPages(elemSize, nelems) == 0 then ZERO_SIZE_PAGE
                       else PAGE_SIZE * Grant(old(pages.primary.free), RequiredPages(elemSize, nelems)))
      ensures initialized <==> area != 0
      ensures initialized ==> Sound() && forall c :: 0 <= c < nelems ==> FreeChunks()[c]
      ensures forall a :: 0 <= a < pages.ram.Length && !pages.InMap(a) && !InMap(a) ==>
        pages.ram[a] == old(pages.ram[a])
    {
      this.pages, this.elemSize, this.nelems := pages, elemSize, nelems;
      var where, m := CarveArea(pages, elemSize, nelems);
      area := where;
      allocationMap := m;
      initialized := where != 0;
      memory := if where == 0 then 0 else where + ExpectedSize(nelems);
      new;
    }

    /** First byte of a chunk. */
    function ChunkAt(c: nat): nat {
      memory + c * elemSize
    }

    /** Hand out the lowest free chunk; null when all are taken. */
    method Allocate() returns (freeMem: nat, ghost c: nat)
      requires Sound()
      modifies pages.ram
      ensures freeMem == 0 ==> FreeChunks() == old(FreeChunks()) && forall d :: 0 <= d < nelems ==> !FreeChunks()[d]
      ensures freeMem != 0 ==> c < nelems && old(FreeChunks())[c] && freeMem == ChunkAt(c)
      ensures freeMem != 0 ==> forall d :: 0 <= d < c ==> !old(FreeChunks())[d]
      ensures freeMem != 0 ==> FreeChunks() == old(FreeChunks())[c := false]
      ensures forall a :: 0 <= a < pages.ram.Length && !InMap(a) ==> pages.ram[a] == old(pages.ram[a])
    {
      hide ExpectedSize, HasBit;
      c := 0;
      for chunk := 0 to nelems
        invariant pages.ram[..] == old(pages.ram[..]) && FreeChunks() == old(FreeChunks())
        invariant forall d :: 0 <= d < chunk ==> !old(FreeChunks())[d]
      {
        var isFree := allocationMap.Get(chunk);
        if isFree {
          MulMono(0, chunk, elemSize);
          var offset: nat := chunk * elemSize;
          freeMem := memory + offset;
          assert freeMem != 0;
          allocationMap.Set(chunk, false);
          c := chunk;
          return;
        }
      }
      freeMem := 0;
    }

    /** Does the address lie among the chunks? */
    predicate Owns(address: nat) {
      memory <= address < memory + nelems * elemSize
    }

    /** Free the chunk that holds the address. */
    method Deallocate(address: nat)
      requires Sound() && (address == 0 || Owns(address))
      modifies pages.ram
      ensures address == 0 ==> FreeChunks() == old(FreeChunks())
      ensures address != 0 ==> elemSize > 0 && 0 <= (address - memory) / elemSize < nelems
      ensures address != 0 ==> FreeChunks() == old(FreeChunks())[(address - memory) / elemSize := true]
      ensures forall a :: 0 <= a < pages.ram.Length && !InMap(a) ==> pages.ram[a] == old(pages.ram[a])
    {
      if address == 0 {
        return;
      }
      ChunkInRange(address - memory, nelems, elemSize);
      var chunk := (address - memory) / elemSize;
      allocationMap.Set(chunk, true);
    }
  }
}
