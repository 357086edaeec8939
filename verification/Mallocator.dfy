/** `kmalloc` and `kfree`: a chain of slabs in front of the page allocator (kernel/memory/mallocator.cpp). */
module Mallocators {
  import opened Dyadic
  import opened PageGrants
  import opened PageRuns
  import opened BitArrays
  import opened PageAllocators
  import opened Slabs

  /** Chunk size of the slab at `index` of the chain. */
  function ChainUnitSize(index: nat): (bytes: nat)
    ensures bytes >= 8
  {
    if index == 0 then 8 else index * 16
  }

  /** First slab to try for a request, with 32-bit arithmetic. */
  function FirstSlab(bytes: nat, chainLength: nat): nat {
    if bytes <= 8 then 0
    else if AlignUp(16, bytes) / 16 >= chainLength then chainLength
    else AlignUp(16, bytes) / 16
  }

  /** Every slab that is tried has large enough chunks, unless the request wraps around. */
  lemma SlabSuffices(bytes: nat, i: nat, chainLength: nat)
    requires bytes < SIZE_LIMIT && FirstSlab(bytes, chainLength) <= i < chainLength < 0x0FFF_FF00
    ensures bytes <= ChainUnitSize(i) <==> bytes <= SIZE_LIMIT - PAGE_SIZE
  {
  }

  /** The slabs that are tried are those with large enough chunks, unless the request wraps around. */
  lemma FirstSlabIs(bytes: nat, j: nat, chainLength: nat)
    requires bytes < SIZE_LIMIT && j < chainLength < 0x0FFF_FF00
    ensures FirstSlab(bytes, chainLength) <= j <==> bytes <= (if j == 0 then 8 else 16 * j) || bytes > 0xFFFF_FFF0
  {
    if bytes <= 0xFFFF_FFF0 {
      AlignUpIsLeast(16, bytes);
    } else {
      assert AlignUp(16, bytes) == 0;
    }
    hide AlignUp;
  }

  /** Requests near the end of the address space wrap around to the smallest chunk, or to no pages at all. */
  lemma LargeRequestsWrap()
    ensures FirstSlab(0xFFFF_FFF8, 33) == 0 && ChainUnitSize(0) == 8
    ensures AlignUp(PAGE_SIZE, 0xFFFF_F001) / PAGE_SIZE == 0
  {
  }

  /** So have the pages of the fallback. */
  lemma PagesSuffice(bytes: nat)
    requires bytes < SIZE_LIMIT
    ensures bytes <= PAGE_SIZE * (AlignUp(PAGE_SIZE, bytes) / PAGE_SIZE) <==> bytes <= SIZE_LIMIT - PAGE_SIZE
    ensures AlignUp(PAGE_SIZE, bytes) / PAGE_SIZE < PAGE_LIMIT
  {
  }

  function Quotient(bytes: nat, unit: nat): (q: nat)
    requires unit > 0
    ensures q * unit <= bytes < (q + 1) * unit
  {
    QuotientIs(bytes, unit);
    bytes / unit
  }

  lemma QuotientIs(bytes: nat, unit: nat)
    requires unit > 0
    ensures 0 <= bytes / unit && bytes / unit * unit <= bytes < (bytes / unit + 1) * unit
  {
    assert bytes == bytes / unit * unit + bytes % unit;
    assert (bytes / unit + 1) * unit == bytes / unit * unit + unit;
  }

  /** How many chunks the slab at `index` of the chain has. */
  function ChainUnits(chainMemory: nat, index: nat): nat {
    Quotient(chainMemory, ChainUnitSize(index))
  }

  /** The pages for a slab are granted; a slab without chunks needs none. */
  ghost predicate SlabGranted(s: Pages, elemSize: nat, nelems: nat) {
    nelems == 0 || Grant(s.free, RequiredPages(elemSize, nelems)) != 0
  }

  /** Free pages and live blocks after `k` slabs of a chain have been built. */
  ghost function ChainBuilt(s: Pages, chainMemory: nat, k: nat): Pages {
    if k == 0 then s
    else Allocated(ChainBuilt(s, chainMemory, k - 1),
                   RequiredPages(ChainUnitSize(k - 1), ChainUnits(chainMemory, k - 1)))
  }

  /** Each of the first `k` slabs of a chain is granted its pages when its turn comes. */
  ghost predicate ChainGranted(s: Pages, chainMemory: nat, k: nat) {
    forall i :: 0 <= i < k ==>
      SlabGranted(ChainBuilt(s, chainMemory, i), ChainUnitSize(i), ChainUnits(chainMemory, i))
  }

  /** The page for the chain's own descriptors, and then the pages of every slab, are granted. */
  ghost predicate StartGranted(s: Pages, chainMemory: nat, chainLength: nat, descriptorSize: nat) {
    && SlabGranted(s, descriptorSize * chainLength, 1)
    && ChainGranted(Allocated(s, RequiredPages(descriptorSize * chainLength, 1)), chainMemory, chainLength)
  }

  ghost function Started(s: Pages, chainMemory: nat, chainLength: nat, descriptorSize: nat): Pages {
    ChainBuilt(Allocated(s, RequiredPages(descriptorSize * chainLength, 1)), chainMemory, chainLength)
  }

  /** Where a live address came from. */
  datatype Origin = FromSlab(index: nat, chunk: nat) | FromPages

  /** A slab with any chunks at all occupies a live block of pages. */
  ghost predicate Housed(s: SlabAllocator, blocks: map<nat, nat>) {
    && s.Sound()
    && (s.nelems > 0 ==>
          && s.area % PAGE_SIZE == 0
          && s.area / PAGE_SIZE in blocks
          && ExpectedSize(s.nelems) + s.nelems * s.elemSize <= PAGE_SIZE * blocks[s.area / PAGE_SIZE])
  }

  /** Slabs that have chunks have them in different blocks. */
  ghost predicate Scattered(slabs: seq<SlabAllocator>) {
    forall i, j :: 0 <= i < j < |slabs| && slabs[i].nelems > 0 && slabs[j].nelems > 0 ==> slabs[i].area != slabs[j].area
  }

  /** Page of a byte of a slab. */
  lemma InHouse(s: SlabAllocator, blocks: map<nat, nat>, x: nat)
    requires Housed(s, blocks) && s.area <= x < s.memory + s.nelems * s.elemSize
    ensures s.nelems > 0 && x / PAGE_SIZE in Range(s.area / PAGE_SIZE, blocks[s.area / PAGE_SIZE])
  {
    MulMono(0, s.nelems, s.elemSize);
  }

  /** A page lies in one live block only. */
  lemma SameBlock(blocks: map<nat, nat>, p: nat, q: nat, x: nat)
    requires Separate(blocks) && p in blocks && q in blocks && x in Range(p, blocks[p]) && x in Range(q, blocks[q])
    ensures p == q
  {
  }

  lemma ChunkBytes(s: SlabAllocator, c: nat)
    requires c < s.nelems
    ensures s.memory <= s.ChunkAt(c) && s.ChunkAt(c) + s.elemSize <= s.memory + s.nelems * s.elemSize
  {
    MulStep(c, s.nelems, s.elemSize);
    MulMono(0, c, s.elemSize);
  }

  /** Different chunks of a slab share no byte, and a chunk is found from any of its bytes. */
  lemma ChunksApart(s: SlabAllocator, c: nat, d: nat, x: nat)
    requires s.ChunkAt(c) <= x < s.ChunkAt(c) + s.elemSize && s.ChunkAt(d) <= x < s.ChunkAt(d) + s.elemSize
    ensures c == d
  {
    if c < d {
      MulStep(c, d, s.elemSize);
    } else if d < c {
      MulStep(d, c, s.elemSize);
    }
  }

  /** Slabs of one page allocator, each in a live block of its own. */
  ghost predicate Standing(slabs: seq<SlabAllocator>, pages: PageAllocator)
    reads pages
  {
    && Scattered(slabs)
    && forall i :: 0 <= i < |slabs| ==> slabs[i].pages == pages && Housed(slabs[i], pages.live)
  }

  /** The bitmap of a housed slab is in managed pages, so not in the page bitmap and not in a free page. */
  lemma MapInHouse(s: SlabAllocator, pages: PageAllocator, x: nat)
    requires pages.Valid() && Housed(s, pages.live) && s.InMap(x)
    ensures s.nelems > 0 && x / PAGE_SIZE in Range(s.area / PAGE_SIZE, pages.live[s.area / PAGE_SIZE])
    ensures !pages.InMap(x) && x / PAGE_SIZE !in pages.primary.free
  {
    MulMono(0, s.nelems, s.elemSize);
    InHouse(s, pages.live, x);
    assert InLive(pages.live, x / PAGE_SIZE);
  }

  /** Build one more slab; the slabs that stand already are not disturbed. */
  method AddSlab(pages: PageAllocator, ghost slabs: seq<SlabAllocator>, elemSize: nat, nelems: nat)
    returns (slab: SlabAllocator)
    requires pages.Valid() && nelems <= SIZE_LIMIT - 8
    requires forall i :: 0 <= i < |slabs| ==> slabs[i].pages == pages && Housed(slabs[i], pages.live)
    requires elemSize * nelems + ExpectedSize(nelems) <= SIZE_LIMIT - PAGE_SIZE
    modifies pages, pages.primary, pages.primary.lists, pages.primary.next, pages.ram
    ensures pages.Valid() && slab.pages == pages && slab.elemSize == elemSize && slab.nelems == nelems
    ensures pages.State() == Allocated(old(pages.State()), RequiredPages(elemSize, nelems))
    ensures slab.initialized <==> SlabGranted(old(pages.State()), elemSize, nelems)
    ensures slab.initialized ==> Housed(slab, pages.live)
    ensures slab.initialized ==> forall c :: 0 <= c < nelems ==> slab.FreeChunks()[c]
    ensures slab.initialized ==> forall i :: 0 <= i < |slabs| ==>
      Housed(slabs[i], pages.live) && slabs[i].FreeChunks() == old(slabs[i].FreeChunks())
    ensures slab.initialized && nelems > 0 ==>
      forall i :: 0 <= i < |slabs| && slabs[i].nelems > 0 ==> slabs[i].area != slab.area
  {
    hide PageAllocator.Valid, BitAt, SlabGranted, Allocated, RequiredPages;
    forall i, x: nat | 0 <= i < |slabs| && slabs[i].InMap(x)
      ensures !pages.InMap(x) && x / PAGE_SIZE !in pages.primary.free
    {
      MapInHouse(slabs[i], pages, x);
    }
    slab := NewSlab(pages, elemSize, nelems);
    if slab.initialized {
      forall i | 0 <= i < |slabs| ensures slabs[i].FreeChunks() == old(slabs[i].FreeChunks()) {
        BitsFrame(old(pages.ram[..]), pages.ram[..], slabs[i].area, slabs[i].nelems);
      }
    }
  }

  /** Build a slab; it writes to the page bitmap and to pages that were free. */
  method NewSlab(pages: PageAllocator, elemSize: nat, nelems: nat) returns (slab: SlabAllocator)
    requires pages.Valid() && nelems <= SIZE_LIMIT - 8
    requires elemSize * nelems + ExpectedSize(nelems) <= SIZE_LIMIT - PAGE_SIZE
    modifies pages, pages.primary, pages.primary.lists, pages.primary.next, pages.ram
    ensures pages.Valid() && slab.pages == pages && slab.elemSize == elemSize && slab.nelems == nelems
    ensures pages.State() == Allocated(old(pages.State()), RequiredPages(elemSize, nelems))
    ensures slab.initialized <==> SlabGranted(old(pages.State()), elemSize, nelems)
    ensures slab.initialized ==> Housed(slab, pages.live)
    ensures slab.initialized ==> forall c :: 0 <= c < nelems ==> slab.FreeChunks()[c]
    ensures slab.initialized && nelems > 0 ==> slab.area / PAGE_SIZE !in old(pages.live)
    ensures forall p :: p in old(pages.live) ==> p in pages.live && pages.live[p] == old(pages.live)[p]
    ensures slab.initialized ==> forall a: nat ::
      a < pages.ram.Length && !pages.InMap(a) && a / PAGE_SIZE !in old(pages.primary.free) ==>
        pages.ram[a] == old(pages.ram[a])
  {
    NewHouse(pages.State(), pages.Managed(), elemSize, nelems);
    hide PageAllocator.Valid, BitAt, AlignUp, RequiredPages, ExpectedSize, Grant;
    ghost var p := Grant(pages.primary.free, RequiredPages(elemSize, nelems));
    slab := new SlabAllocator(pages, elemSize, nelems);
    assert nelems > 0 ==> slab.area == PAGE_SIZE * p && slab.area / PAGE_SIZE == p;
  }

  /** Pages granted for a slab are free, hold it, and start at no live block. */
  lemma NewHouse(s: Pages, managed: set<nat>, elemSize: nat, nelems: nat)
    requires Tiled(s, managed) && elemSize * nelems + ExpectedSize(nelems) <= SIZE_LIMIT - PAGE_SIZE
    ensures RequiredPages(elemSize, nelems) == 0 <==> nelems == 0
    ensures ExpectedSize(nelems) + nelems * elemSize <= PAGE_SIZE * RequiredPages(elemSize, nelems)
    ensures var p := Grant(s.free, RequiredPages(elemSize, nelems));
      nelems > 0 && p != 0 ==>
        && p !in s.live
        && forall x :: PAGE_SIZE * p <= x < PAGE_SIZE * p + ExpectedSize(nelems) ==> x / PAGE_SIZE in s.free
  {
    hide AlignUp, RequiredPages, ExpectedSize, Tiled, Grant, Allocated;
    RequiredPagesSuffice(elemSize, nelems);
    MulCommutes(elemSize, nelems);
    var n := RequiredPages(elemSize, nelems);
    AllocatedTiled(s, managed, n);
    var p := Grant(s.free, n);
    if nelems > 0 && p != 0 {
      FirstBytes(p, n, ExpectedSize(nelems));
    }
  }

  lemma MulCommutes(a: nat, b: nat)
    ensures a * b == b * a
  {
  }

  /** Bytes at the start of a run of pages are on those pages. */
  lemma FirstBytes(p: nat, n: nat, bytes: nat)
    requires bytes <= PAGE_SIZE * n
    ensures forall x :: PAGE_SIZE * p <= x < PAGE_SIZE * p + bytes ==> x / PAGE_SIZE in Range(p, n)
  {
  }

  /** The slabs of a chain, with all their chunks free, beside the slab that holds the chain itself. */
  ghost predicate Ready(chain: seq<SlabAllocator>, internal: SlabAllocator, pages: PageAllocator, chainMemory: nat)
    reads pages, pages.ram
  {
    && Standing(chain, pages)
    && internal.pages == pages && Housed(internal, pages.live) && internal.nelems == 1
    && (forall i :: 0 <= i < |chain| && chain[i].nelems > 0 ==> chain[i].area != internal.area)
    && (forall i :: 0 <= i < |chain| ==>
          chain[i].elemSize == ChainUnitSize(i) && chain[i].nelems == ChainUnits(chainMemory, i))
    && (forall i, c :: 0 <= i < |chain| && 0 <= c < chain[i].nelems ==> chain[i].FreeChunks()[c])
    && internal.FreeChunks() == [false]
  }

  /** The slabs have chunks of 8, 16, 32, 48 and so on bytes, and no room for one more in their share of memory. */
  ghost predicate Measured(chain: seq<SlabAllocator>, chainMemory: nat) {
    forall i :: 0 <= i < |chain| ==>
      && chain[i].elemSize == (if i == 0 then 8 else 16 * i)
      && chain[i].nelems * chain[i].elemSize <= chainMemory < (chain[i].nelems + 1) * chain[i].elemSize
  }

  lemma ReadyIsMeasured(chain: seq<SlabAllocator>, internal: SlabAllocator, pages: PageAllocator, chainMemory: nat)
    requires Ready(chain, internal, pages, chainMemory)
    ensures Measured(chain, chainMemory)
  {
  }

  lemma QuotientFits(unit: nat, nelems: nat, memory: nat, rest: nat)
    requires unit >= 8 && memory == nelems * unit + rest && memory <= 0x4000_0000
    ensures nelems <= SIZE_LIMIT - 8 && unit * nelems + ExpectedSize(nelems) <= SIZE_LIMIT - PAGE_SIZE
  {
    MulMono(8, unit, nelems);
    assert unit * nelems == nelems * unit;
  }

  /** Size and number of the chunks of a slab of the chain. */
  method ChunksOf(chainMemory: nat, index: nat) returns (elemSize: nat, nelems: nat)
    requires chainMemory <= 0x4000_0000
    ensures elemSize == ChainUnitSize(index) && nelems == ChainUnits(chainMemory, index) <= SIZE_LIMIT - 8
    ensures elemSize * nelems + ExpectedSize(nelems) <= SIZE_LIMIT - PAGE_SIZE
  {
    elemSize := ChainUnitSize(index);
    hide ChainUnitSize;
    nelems := chainMemory / elemSize;
    QuotientFits(elemSize, nelems, chainMemory, chainMemory % elemSize);
  }

  /** Build the next slab of the chain. */
  method ExtendChain(pages: PageAllocator, internal: SlabAllocator, chain: seq<SlabAllocator>, chainMemory: nat)
    returns (ok: bool, longer: seq<SlabAllocator>)
    requires pages.Valid() && chainMemory <= 0x4000_0000 && Ready(chain, internal, pages, chainMemory)
    modifies pages, pages.primary, pages.primary.lists, pages.primary.next, pages.ram
    ensures pages.Valid() && (ok ==> |longer| == |chain| + 1 && Ready(longer, internal, pages, chainMemory))
    ensures var unit, nelems := ChainUnitSize(|chain|), ChainUnits(chainMemory, |chain|);
      && (ok <==> SlabGranted(old(pages.State()), unit, nelems))
      && pages.State() == Allocated(old(pages.State()), RequiredPages(unit, nelems))
  {
    hide PageAllocator.Valid, ChainUnitSize, ChainUnits, ExpectedSize, SlabGranted, Allocated, RequiredPages, Housed;
    var elemSize, nelems := ChunksOf(chainMemory, |chain|);
    ghost var standing := chain + [internal];
    assert forall i :: 0 <= i < |chain| ==> standing[i] == chain[i];
    var slab := AddSlab(pages, standing, elemSize, nelems);
    assert internal == standing[|chain|];
    ok := slab.initialized;
    longer := chain + [slab];
  }

  /** Build the chain, one slab after the other; stop, with a panic, at the first that does not fit. */
  method BuildChain(pages: PageAllocator, internal: SlabAllocator, chainMemory: nat, chainLength: nat)
    returns (ok: bool, chain: seq<SlabAllocator>)
    requires pages.Valid() && chainMemory <= 0x4000_0000 && Ready([], internal, pages, chainMemory)
    modifies pages, pages.primary, pages.primary.lists, pages.primary.next, pages.ram
    ensures pages.Valid() && (ok ==> |chain| == chainLength && Ready(chain, internal, pages, chainMemory))
    ensures ok <==> ChainGranted(old(pages.State()), chainMemory, chainLength)
    ensures ok ==> pages.State() == ChainBuilt(old(pages.State()), chainMemory, chainLength)
  {
    chain := [];
    hide PageAllocator.Valid, Ready, ChainUnitSize, ChainUnits, SlabGranted, Allocated, RequiredPages;
    for slabIdx := 0 to chainLength
      invariant pages.Valid() && |chain| == slabIdx && Ready(chain, internal, pages, chainMemory)
      invariant ChainGranted(old(pages.State()), chainMemory, slabIdx)
      invariant pages.State() == ChainBuilt(old(pages.State()), chainMemory, slabIdx)
    {
      ok, chain := ExtendChain(pages, internal, chain, chainMemory);
      if !ok {
        return;
      }
    }
    ok := true;
  }

  /** Take a chunk of a slab that stands alone. */
  method TakeChunk(pages: PageAllocator, slab: SlabAllocator)
    requires pages.Valid() && slab.pages == pages && Housed(slab, pages.live)
    modifies pages.ram
    ensures pages.Valid() && pages.State() == old(pages.State())
    ensures old(slab.FreeChunks()) == [true] ==> slab.FreeChunks() == [false]
  {
    forall x: nat | slab.InMap(x) ensures !pages.InMap(x) {
      MapInHouse(slab, pages, x);
    }
    assert pages.Layout();
    hide PageAllocator.Valid, Housed;
    var chunk, _ := slab.Allocate();
    pages.UndisturbedBy();
  }

  /** A slab with a single chunk, for the chain's descriptors. */
  method DescriptorSlab(pages: PageAllocator, chainSize: nat) returns (internal: SlabAllocator)
    requires pages.Valid() && chainSize + 1 <= SIZE_LIMIT - PAGE_SIZE
    modifies pages, pages.primary, pages.primary.lists, pages.primary.next, pages.ram
    ensures pages.Valid() && pages.State() == Allocated(old(pages.State()), RequiredPages(chainSize, 1))
    ensures internal.pages == pages && internal.nelems == 1 && internal.elemSize == chainSize
    ensures internal.initialized <==> SlabGranted(old(pages.State()), chainSize, 1)
    ensures internal.initialized ==> Housed(internal, pages.live) && internal.FreeChunks() == [true]
  {
    assert chainSize * 1 + ExpectedSize(1) == chainSize + 1;
    hide PageAllocator.Valid, RequiredPages, Grant, ExpectedSize, SlabGranted, Allocated, Housed;
    internal := NewSlab(pages, chainSize, 1);
  }

  /** Take the memory for the chain's descriptors. */
  method TakeDescriptors(pages: PageAllocator, chainSize: nat, ghost chainMemory: nat) returns (internal: SlabAllocator)
    requires pages.Valid() && chainSize + 1 <= SIZE_LIMIT - PAGE_SIZE
    modifies pages, pages.primary, pages.primary.lists, pages.primary.next, pages.ram
    ensures pages.Valid() && pages.State() == Allocated(old(pages.State()), RequiredPages(chainSize, 1))
    ensures internal.initialized <==> SlabGranted(old(pages.State()), chainSize, 1)
    ensures internal.initialized ==> Ready([], internal, pages, chainMemory) && internal.elemSize == chainSize
  {
    hide PageAllocator.Valid, RequiredPages, SlabGranted, Allocated, Housed;
    internal := DescriptorSlab(pages, chainSize);
    if internal.initialized {
      TakeChunk(pages, internal);
    }
  }

  /** Take the memory for the chain's descriptors, then build the chain. */
  method BuildAll(pages: PageAllocator, chainMemory: nat, chainLength: nat, descriptorSize: nat)
    returns (ok: bool, internal: SlabAllocator, chain: seq<SlabAllocator>)
    requires pages.Valid() && chainMemory <= 0x4000_0000
    requires descriptorSize * chainLength + 1 <= SIZE_LIMIT - PAGE_SIZE
    modifies pages, pages.primary, pages.primary.lists, pages.primary.next, pages.ram
    ensures pages.Valid() && (ok ==> |chain| == chainLength && Ready(chain, internal, pages, chainMemory))
    ensures ok <==> StartGranted(old(pages.State()), chainMemory, chainLength, descriptorSize)
    ensures ok ==> pages.State() == Started(old(pages.State()), chainMemory, chainLength, descriptorSize)
    ensures ok ==> internal.elemSize == descriptorSize * chainLength
  {
    MulMono(0, descriptorSize, chainLength);
    var chainSize: nat := descriptorSize * chainLength;
    hide PageAllocator.Valid, Ready, RequiredPages, SlabGranted, ChainGranted, ChainBuilt, Allocated;
    internal := TakeDescriptors(pages, chainSize, chainMemory);
    ok, chain := false, [];
    if internal.initialized {
      ok, chain := BuildChain(pages, internal, chainMemory, chainLength);
    }
  }

  /** A slab, of whose chunks these are free, has none left. */
  ghost predicate Full(free: seq<bool>) {
    forall c :: 0 <= c < |free| ==> !free[c]
  }

  ghost predicate LowestFree(free: seq<bool>, c: nat) {
    c < |free| && free[c] && forall d :: 0 <= d < c ==> !free[d]
  }

  /** No slab that is tried for the request has a chunk left. */
  ghost predicate SlabsFull(chunks: seq<seq<bool>>, bytes: nat, upTo: nat)
    requires upTo <= |chunks|
  {
    forall i :: FirstSlab(bytes, |chunks|) <= i < upTo ==> Full(chunks[i])
  }

  /** One chunk becomes free or taken. */
  ghost function WithChunk(chunks: seq<seq<bool>>, i: nat, c: nat, free: bool): seq<seq<bool>>
    requires i < |chunks| && c < |chunks[i]|
  {
    chunks[i := chunks[i][c := free]]
  }

  /** Free pages and live blocks, live addresses, and which chunks of which slabs are free. */
  datatype Memory = Memory(pages: Pages, live: map<nat, Origin>, chunks: seq<seq<bool>>)

  /** The lowest free chunk of a slab is taken and its address becomes live. */
  ghost predicate Issued(m: Memory, m': Memory, a: nat) {
    && a > ZERO_SIZE_PAGE && a !in m.live
    && a in m'.live && m'.live == m.live[a := m'.live[a]] && m'.live[a].FromSlab?
    && var i, c := m'.live[a].index, m'.live[a].chunk;
    && i < |m.chunks| && LowestFree(m.chunks[i], c)
    && m'.chunks == WithChunk(m.chunks, i, c, false) && m'.pages == m.pages
  }

  /** Slab `i` has been tried: its lowest free chunk becomes live, or nothing changes because it has none. */
  ghost predicate SlabTried(i: nat, m: Memory, m': Memory, memory: nat)
    requires i < |m.chunks|
  {
    if memory == 0 then m' == m && Full(m.chunks[i])
    else Issued(m, m', memory) && m'.live[memory].index == i
  }

  /** The slabs have been tried in order, from the first sufficient one up to the first with a free chunk. */
  ghost predicate SlabsTried(bytes: nat, m: Memory, m': Memory, memory: nat) {
    if memory == 0 then m' == m && SlabsFull(m.chunks, bytes, |m.chunks|)
    else
      && Issued(m, m', memory)
      && FirstSlab(bytes, |m.chunks|) <= m'.live[memory].index
      && SlabsFull(m.chunks, bytes, m'.live[memory].index)
  }

  lemma OneTried(bytes: nat, i: nat, m: Memory, m': Memory, memory: nat)
    requires FirstSlab(bytes, |m.chunks|) <= i < |m.chunks| && SlabsFull(m.chunks, bytes, i)
    requires SlabTried(i, m, m', memory)
    ensures memory == 0 ==> m' == m && SlabsFull(m.chunks, bytes, i + 1)
    ensures memory != 0 ==> SlabsTried(bytes, m, m', memory)
  {
  }

  /** First page of the block that a request for `n` pages gets; 0 if it gets none. */
  ghost function GrantOf(free: set<nat>, n: nat): nat {
    if n == 0 then 0 else Grant(free, n)
  }

  /** Address that such a request is answered with. */
  ghost function PagesAnswer(n: nat, p: nat): nat {
    if n == 0 then ZERO_SIZE_PAGE else PAGE_SIZE * p
  }

  ghost function MoreBlocks(blocks: map<nat, nat>, p: nat, n: nat): map<nat, nat> {
    if p == 0 then blocks else blocks[p := n]
  }

  ghost function MoreLive(live: map<nat, Origin>, p: nat): map<nat, Origin> {
    if p == 0 then live else live[PAGE_SIZE * p := FromPages]
  }

  ghost function FewerBlocks(blocks: map<nat, nat>, p: nat): map<nat, nat> {
    if p == 0 then blocks else blocks - {p}
  }

  /** The block at page `p` is released; null and the zero-size page, which are on page 0, are ignored. */
  ghost function PutBack(s: Pages, p: nat): Pages
    requires p != 0 ==> p in s.live
  {
    if p == 0 then s else Released(s, p)
  }

  /** The page fallback answers the request for `n` pages. */
  ghost predicate ServedByPages(n: nat, m: Memory, m': Memory, memory: nat) {
    var p := GrantOf(m.pages.free, n);
    && m'.pages == Allocated(m.pages, n) && m'.chunks == m.chunks
    && memory == PagesAnswer(n, p) && memory !in m.live && m'.live == MoreLive(m.live, p)
  }

  /** Freeing a live address gives its chunk back to its slab, or its block to the page allocator. */
  ghost predicate Freed(m: Memory, m': Memory, memory: nat) {
    && m'.live == m.live - {memory}
    && if memory !in m.live then m'.pages == m.pages && m'.chunks == m.chunks
       else match m.live[memory]
         case FromPages =>
           var p := memory / PAGE_SIZE;
           p != 0 && p in m.pages.live && m'.pages == Released(m.pages, p) && m'.chunks == m.chunks
         case FromSlab(i, c) =>
           m'.pages == m.pages && i < |m.chunks| && c < |m.chunks[i]| && m'.chunks == WithChunk(m.chunks, i, c, true)
  }

  /** A request is answered from the first sufficient slab with a free chunk; from whole pages if there is none. */
  ghost predicate Served(bytes: nat, m: Memory, m': Memory, memory: nat) {
    if memory in m'.live && m'.live[memory].FromSlab? then memory != 0 && SlabsTried(bytes, m, m', memory)
    else
      && SlabsFull(m.chunks, bytes, |m.chunks|)
      && ServedByPages(AlignUp(PAGE_SIZE, bytes) / PAGE_SIZE, m, m', memory)
  }

  lemma TriedInVain(bytes: nat, m: Memory, m': Memory)
    requires SlabsTried(bytes, m, m', 0)
    ensures m' == m
  {
  }

  lemma ServedSomehow(bytes: nat, m: Memory, m1: Memory, m': Memory, tried: nat, memory: nat)
    requires SlabsTried(bytes, m, m1, tried)
    requires if tried != 0 then m' == m1 && memory == tried
             else ServedByPages(AlignUp(PAGE_SIZE, bytes) / PAGE_SIZE, m1, m', memory)
    ensures Served(bytes, m, m', memory)
  {
    hide AlignUp, Allocated, GrantOf, PagesAnswer, SlabsFull;
  }

  /** What one request takes, freeing its answer restores: pages, live addresses and chunks are as they were. */
  lemma ServedThenFreed(bytes: nat, m: Memory, m': Memory, m'': Memory, memory: nat, managed: set<nat>)
    requires Tiled(m.pages, managed) && Served(bytes, m, m', memory) && Freed(m', m'', memory)
    ensures m'' == m
  {
    hide Tiled, Grant, AlignUp, SlabsFull;
    if memory in m'.live && m'.live[memory].FromSlab? {
      var i := m'.live[memory].index;
      assert m''.chunks[i] == m.chunks[i];
      assert m''.live == m.live && m''.chunks == m.chunks;
    } else {
      var n := AlignUp(PAGE_SIZE, bytes) / PAGE_SIZE;
      var p := GrantOf(m.pages.free, n);
      AllocatedTiled(m.pages, managed, n);
      if p != 0 {
        assert memory / PAGE_SIZE == p;
        assert m''.live == m.live && m''.pages.live == m.pages.live && m''.pages.free == m.pages.free;
      }
    }
  }

  class Mallocator {
    const pages: PageAllocator
    const chain: seq<SlabAllocator>
    const internalAllocator: SlabAllocator
    const initialized: bool
    ghost var live: map<nat, Origin>

    constructor (pages: PageAllocator, chainMemory: nat, chainLength: nat, descriptorSize: nat)
      requires pages.Valid() && chainMemory <= 0x4000_0000 && descriptorSize >= 28
      requires descriptorSize * chainLength + 1 <= SIZE_LIMIT - PAGE_SIZE
      modifies pages, pages.primary, pages.primary.lists, pages.primary.next, pages.ram
      ensures this.pages == pages && pages.Valid()
      ensures initialized ==> Valid() && live == map[] && |chain| == chainLength
      ensures initialized <==> StartGranted(old(pages.State()), chainMemory, chainLength, descriptorSize)
      ensures initialized ==> pages.State() == Started(old(pages.State()), chainMemory, chainLength, descriptorSize)
      ensures initialized ==> Measured(chain, chainMemory) && internalAllocator.elemSize == descriptorSize * chainLength
      ensures initialized ==> internalAllocator.FreeChunks() == [false]
    {
      hide PageAllocator.Valid, StartGranted, Started, Measured, ChainUnits;
      MulMono(28, descriptorSize, chainLength);
      this.pages := pages;
      live := map[];
      var ok, internal, slabs := BuildAll(pages, chainMemory, chainLength, descriptorSize);
      if ok {
        ReadyIsMeasured(slabs, internal, pages, chainMemory);
      }
      initialized := ok;
      internalAllocator := internal;
      chain := slabs;
    }

    /** The slabs stand in different live blocks of the page allocator. */
    ghost predicate Built()
      reads pages
    {
      && |chain| < 0x0FFF_FF00
      && Standing(chain, pages)
      && internalAllocator.pages == pages && Housed(internalAllocator, pages.live) && internalAllocator.nelems == 1
      && (forall i :: 0 <= i < |chain| && chain[i].nelems > 0 ==> chain[i].area != internalAllocator.area)
      && (forall i :: 0 <= i < |chain| ==> chain[i].elemSize == ChainUnitSize(i))
    }

    /** Bytes that a live address stands for. */
    ghost function Extent(a: nat): nat
      requires a in live && WellIssued(a)
      reads this, pages, pages.ram
    {
      match live[a]
      case FromSlab(i, c) => chain[i].elemSize
      case FromPages => PAGE_SIZE * pages.live[a / PAGE_SIZE]
    }

    /** The address is what its origin would hand out, and its origin knows it is taken. */
    ghost predicate WellIssued(a: nat)
      requires a in live
      reads this, pages, pages.ram
    {
      match live[a]
      case FromSlab(i, c) =>
        && i < |chain| && chain[i].Sound() && chain[i].pages == pages
        && c < chain[i].nelems && a == chain[i].ChunkAt(c) && !chain[i].FreeChunks()[c]
      case FromPages =>
        && a % PAGE_SIZE == 0 && a / PAGE_SIZE in pages.live
        && internalAllocator.area != a
        && forall i :: 0 <= i < |chain| && chain[i].nelems > 0 ==> chain[i].area != a
    }

    /** Every chunk of a slab that is not free is live. */
    ghost predicate NoLeak(i: nat)
      requires i < |chain| && chain[i].Sound()
      reads this, chain[i].pages.ram
    {
      forall c {:trigger chain[i].ChunkAt(c)} :: 0 <= c < chain[i].nelems && !chain[i].FreeChunks()[c] ==>
        chain[i].ChunkAt(c) in live && live[chain[i].ChunkAt(c)] == FromSlab(i, c)
    }

    ghost predicate Valid()
      reads this, pages, pages.primary, pages.primary.lists, pages.primary.next, pages.ram
    {
      && pages.Valid()
      && Built()
      && (forall a :: a in live ==> WellIssued(a))
      && (forall i :: 0 <= i < |chain| ==> NoLeak(i))
    }

    /** Page `p` starts the block of a slab. */
    ghost predicate SlabBlock(p: nat) {
      || internalAllocator.area == PAGE_SIZE * p
      || exists i :: 0 <= i < |chain| && chain[i].nelems > 0 && chain[i].area == PAGE_SIZE * p
    }

    /** Page `p` starts a live block that belongs to another user of the page allocator. */
    ghost predicate ForeignIn(p: nat, blocks: map<nat, nat>, live: map<nat, Origin>) {
      p in blocks && !SlabBlock(p) && !(PAGE_SIZE * p in live && live[PAGE_SIZE * p].FromPages?)
    }

    ghost predicate Foreign(p: nat)
      reads this, pages
    {
      ForeignIn(p, pages.live, live)
    }

    /** Byte `x` lies behind the live address `a`. */
    ghost predicate Holds(a: nat, x: nat)
      reads this, pages, pages.ram
    {
      a in live && WellIssued(a) && a <= x < a + Extent(a)
    }

    /** Byte `x` is in the hands of a client: behind a live address, or in a block of pages of another user. */
    ghost predicate InUse(x: nat)
      reads this, pages, pages.ram
    {
      (exists a :: Holds(a, x)) || exists p :: Foreign(p) && x / PAGE_SIZE in Range(p, pages.live[p])
    }

    /** A byte of the page bitmap or of the bitmap of a slab of the chain. */
    ghost predicate InMaps(x: nat) {
      pages.InMap(x) || exists i :: 0 <= i < |chain| && chain[i].InMap(x)
    }

    /** A byte that no allocator uses for itself. */
    ghost predicate Private(x: nat)
      reads pages.primary
    {
      && x < pages.ram.Length && x / PAGE_SIZE < pages.primary.next.Length
      && !InMaps(x) && x / PAGE_SIZE !in pages.primary.free
    }

    /** The byte, and the first word of its page, have not changed. */
    twostate predicate Kept(x: nat)
      reads pages.ram, pages.primary.next
    {
      && x < pages.ram.Length && pages.ram[x] == old(pages.ram[x])
      && x / PAGE_SIZE < pages.primary.next.Length
      && pages.primary.next[x / PAGE_SIZE] == old(pages.primary.next[x / PAGE_SIZE])
    }

    /** What clients held before is as it was. */
    twostate predicate HeldKept()
      reads this, pages, pages.primary, pages.primary.next, pages.ram
    {
      forall x: nat :: old(InUse(x)) ==> Kept(x)
    }

    /** What clients hold now is as it was. */
    twostate predicate RestKept()
      reads this, pages, pages.primary, pages.primary.next, pages.ram
    {
      forall x: nat :: InUse(x) ==> Kept(x)
    }

    /** No byte outside the bitmaps has changed. */
    twostate predicate MapsOnly()
      reads pages.ram
    {
      forall x: nat :: x < pages.ram.Length && !InMaps(x) ==> pages.ram[x] == old(pages.ram[x])
    }

    /** No byte outside the bitmaps and no word outside the given pages has changed. */
    twostate predicate WritesOnly(new free: set<nat>)
      reads pages.ram, pages.primary.next
    {
      && MapsOnly()
      && forall q :: 0 <= q < pages.primary.next.Length && q !in free ==>
          pages.primary.next[q] == old(pages.primary.next[q])
    }

    ghost predicate AllSound() {
      forall i :: 0 <= i < |chain| ==> chain[i].Sound() && chain[i].pages == pages
    }

    /** Which chunks of which slabs are free. */
    ghost function Chunks(): (f: seq<seq<bool>>)
      requires AllSound()
      reads pages.ram
      ensures |f| == |chain|
      ensures forall i :: 0 <= i < |chain| ==> f[i] == chain[i].FreeChunks() && |f[i]| == chain[i].nelems
    {
      seq(|chain|, i requires 0 <= i < |chain| && AllSound() reads pages.ram => chain[i].FreeChunks())
    }

    /** Block of pages that a live address lies in. */
    ghost function Home(a: nat): nat
      requires Built() && a in live && WellIssued(a)
      reads this, pages, pages.ram
    {
      match live[a]
      case FromSlab(i, c) => chain[i].area / PAGE_SIZE
      case FromPages => a / PAGE_SIZE
    }

    lemma AtHome(a: nat, x: nat)
      requires Built() && a in live && WellIssued(a) && a <= x < a + Extent(a)
      ensures Home(a) in pages.live && x / PAGE_SIZE in Range(Home(a), pages.live[Home(a)])
    {
      match live[a]
      case FromSlab(i, c) =>
        ChunkBytes(chain[i], c);
        InHouse(chain[i], pages.live, x);
      case FromPages =>
    }

    /** Live addresses in one block were issued by one slab, or are the same block. */
    lemma SameHome(a: nat, b: nat)
      requires Built() && a in live && WellIssued(a) && b in live && WellIssued(b) && Home(a) == Home(b)
      ensures live[a].FromSlab? ==> live[b].FromSlab? && live[a].index == live[b].index
      ensures live[a].FromPages? ==> a == b
    {
      assert live[a].FromSlab? ==> chain[live[a].index].area == PAGE_SIZE * Home(a);
      assert live[b].FromSlab? ==> chain[live[b].index].area == PAGE_SIZE * Home(b);
    }

    /** Two live addresses share no byte. */
    lemma LiveApart(a: nat, b: nat, x: nat)
      requires Valid() && a in live && b in live && a <= x < a + Extent(a) && b <= x < b + Extent(b)
      ensures a == b
    {
      AtHome(a, x);
      AtHome(b, x);
      SameBlock(pages.live, Home(a), Home(b), x / PAGE_SIZE);
      hide Valid;
      SameHome(a, b);
      if live[a].FromSlab? {
        ChunksApart(chain[live[a].index], live[a].chunk, live[b].chunk, x);
      }
    }

    /** A live address at home in a slab's block was issued by that slab. */
    lemma AtHomeInSlab(a: nat, s: SlabAllocator)
      requires Built() && a in live && WellIssued(a) && Housed(s, pages.live) && s.nelems > 0
      requires (s == internalAllocator || s in chain) && Home(a) == s.area / PAGE_SIZE
      ensures live[a].FromSlab? && chain[live[a].index] == s && s != internalAllocator
    {
      if live[a].FromSlab? {
        assert chain[live[a].index].area == s.area;
      }
    }

    /** So was one that has a byte anywhere in the slab. */
    lemma IssuedHere(a: nat, s: SlabAllocator, x: nat)
      requires Built() && Separate(pages.live) && a in live && WellIssued(a) && a <= x < a + Extent(a)
      requires Housed(s, pages.live) && (s == internalAllocator || s in chain)
      requires s.area <= x < s.memory + s.nelems * s.elemSize
      ensures live[a].FromSlab? && chain[live[a].index] == s && s != internalAllocator
    {
      AtHome(a, x);
      InHouse(s, pages.live, x);
      hide Separate;
      assert Home(a) == s.area / PAGE_SIZE by {
        SameBlock(pages.live, Home(a), s.area / PAGE_SIZE, x / PAGE_SIZE);
      }
      AtHomeInSlab(a, s);
    }

    /** No byte of a live address lies in a slab's bitmap. */
    lemma MapApart(a: nat, s: SlabAllocator, x: nat)
      requires Built() && Separate(pages.live) && a in live && WellIssued(a) && a <= x < a + Extent(a)
      requires Housed(s, pages.live) && (s == internalAllocator || s in chain)
      ensures !s.InMap(x) && (s == internalAllocator ==> !s.Owns(x))
    {
      hide Separate, Built;
      if s.InMap(x) || s.Owns(x) {
        MulMono(0, s.nelems, s.elemSize);
        IssuedHere(a, s, x);
        ChunkBytes(s, live[a].chunk);
      }
    }

    /**
     * Isolation: the bytes of a live address belong to no other live address, to no bitmap, and to no free page.
     */
    lemma Isolated(a: nat, x: nat)
      requires Valid() && a in live && a <= x < a + Extent(a)
      ensures forall b :: b in live && b != a ==> !(b <= x < b + Extent(b))
      ensures !pages.InMap(x)
      ensures forall i :: 0 <= i < |chain| ==> !chain[i].InMap(x)
      ensures !internalAllocator.InMap(x) && !internalAllocator.Owns(x)
      ensures x / PAGE_SIZE !in pages.primary.free
      ensures x < pages.ram.Length && x / PAGE_SIZE < pages.primary.next.Length
    {
      AtHome(a, x);
      assert InLive(pages.live, x / PAGE_SIZE);
      forall b | b in live && b != a ensures !(b <= x < b + Extent(b)) {
        if b <= x < b + Extent(b) {
          LiveApart(a, b, x);
        }
      }
      forall i | 0 <= i < |chain| ensures !chain[i].InMap(x) {
        MapApart(a, chain[i], x);
      }
      MapApart(a, internalAllocator, x);
    }

    /** The bytes of another user's block are behind no live address, in no slab, and in no free page. */
    lemma ForeignApart(p: nat, x: nat)
      requires Valid() && Foreign(p) && x / PAGE_SIZE in Range(p, pages.live[p])
      ensures forall a :: a in live ==> !(a <= x < a + Extent(a))
      ensures Private(x) && !internalAllocator.InMap(x) && !internalAllocator.Owns(x)
    {
      assert InLive(pages.live, x / PAGE_SIZE);
      forall a | a in live ensures !(a <= x < a + Extent(a)) {
        if a <= x < a + Extent(a) {
          AtHome(a, x);
          NotAtHome(p, a);
          SameBlock(pages.live, Home(a), p, x / PAGE_SIZE);
        }
      }
      forall i | 0 <= i < |chain| ensures !chain[i].InMap(x) {
        OutOfSlab(p, chain[i], x);
      }
      OutOfSlab(p, internalAllocator, x);
    }

    lemma NotAtHome(p: nat, a: nat)
      requires Built() && Foreign(p) && a in live && WellIssued(a)
      ensures Home(a) != p
    {
      if live[a].FromSlab? {
        assert chain[live[a].index].area == PAGE_SIZE * (chain[live[a].index].area / PAGE_SIZE);
      } else {
        assert a == PAGE_SIZE * (a / PAGE_SIZE);
      }
    }

    lemma OutOfSlab(p: nat, s: SlabAllocator, x: nat)
      requires Foreign(p) && Separate(pages.live) && x / PAGE_SIZE in Range(p, pages.live[p])
      requires Housed(s, pages.live) && (s == internalAllocator || s in chain)
      ensures !s.InMap(x) && !s.Owns(x)
    {
      if s.InMap(x) || s.Owns(x) {
        MulMono(0, s.nelems, s.elemSize);
        InHouse(s, pages.live, x);
        SameBlock(pages.live, s.area / PAGE_SIZE, p, x / PAGE_SIZE);
      }
    }

    /** What is in the hands of a client is used by no allocator. */
    ghost predicate Guarded()
      reads this, pages, pages.primary, pages.ram
    {
      forall x: nat :: InUse(x) ==> Private(x)
    }

    lemma AllPrivate()
      requires Valid()
      ensures Guarded()
    {
      forall x: nat | InUse(x) ensures Private(x) {
        if a :| Holds(a, x) {
          Isolated(a, x);
        } else {
          var p :| Foreign(p) && x / PAGE_SIZE in Range(p, pages.live[p]);
          ForeignApart(p, x);
        }
      }
    }

    /** Writes to bitmaps and to pages that were free touch nothing that a client held. */
    twostate lemma ClientsKept()
      requires old(Guarded()) && WritesOnly(old(pages.primary.free))
      ensures HeldKept()
    {
      hide InUse, InMaps;
    }

    /** Writes to bitmaps and to pages that are free now touch nothing that a client still holds. */
    twostate lemma ClientsLeft()
      requires Guarded() && WritesOnly(pages.primary.free)
      ensures RestKept()
    {
      hide InUse, InMaps;
    }

    /** A free chunk is not live. */
    lemma NotYetLive(i: nat, c: nat)
      requires Valid() && i < |chain| && c < chain[i].nelems && chain[i].FreeChunks()[c]
      ensures chain[i].ChunkAt(c) !in live
      ensures !pages.InMap(chain[i].ChunkAt(c)) && chain[i].ChunkAt(c) > ZERO_SIZE_PAGE
    {
      var a := chain[i].ChunkAt(c);
      ChunkBytes(chain[i], c);
      InHouse(chain[i], pages.live, a);
      assert InLive(pages.live, a / PAGE_SIZE);
      if a in live {
        AtHome(a, a);
        assert Home(a) == chain[i].area / PAGE_SIZE;
        if live[a].FromSlab? {
          assert live[a].index == i;
          ChunksApart(chain[i], c, live[a].chunk, a);
        }
      }
    }

    /** The bitmap of one slab is outside the page bitmap and the other slabs' bitmaps. */
    lemma MapsApart(i: nat, x: nat)
      requires Valid() && i < |chain| && chain[i].InMap(x)
      ensures !pages.InMap(x)
      ensures forall j :: 0 <= j < |chain| && j != i ==> !chain[j].InMap(x)
    {
      MapInHouse(chain[i], pages, x);
      forall j | 0 <= j < |chain| && j != i ensures !chain[j].InMap(x) {
        if chain[j].InMap(x) {
          MapInHouse(chain[j], pages, x);
        }
      }
    }

    /** Change one slab; the page allocator and the other slabs are not disturbed. */
    method SlabAllocate(i: nat) returns (memory: nat, ghost c: nat)
      requires Valid() && AllSound() && i < |chain|
      modifies pages.ram
      ensures pages.Valid() && MapsOnly()
      ensures memory == 0 ==> Chunks() == old(Chunks()) && Full(old(Chunks())[i])
      ensures memory != 0 ==>
        && memory == chain[i].ChunkAt(c) && LowestFree(old(Chunks())[i], c)
        && Chunks() == WithChunk(old(Chunks()), i, c, false)
    {
      MapIsAlone(i);
      assert pages.Layout();
      hide PageAllocator.Valid, Valid, MapAlone;
      memory, c := chain[i].Allocate();
      OthersKept(i);
    }

    /** Try one slab. */
    method TakeFromSlab(i: nat) returns (memory: nat)
      requires Valid() && AllSound() && i < |chain|
      modifies this, pages.ram
      ensures Valid() && MapsOnly()
      ensures SlabTried(i, old(All()), All(), memory)
    {
      LowestNotLive(i);
      hide PageAllocator.Valid, Valid, MapsOnly, LowestFree, Chunks, WithChunk, AllSound, Full;
      memory := IssueChunk(i);
      assert Taken(memory);
      TakenValid(memory);
    }

    /** Take a chunk of one slab and record its address. */
    method IssueChunk(i: nat) returns (memory: nat)
      requires Valid() && AllSound() && i < |chain|
      modifies this, pages.ram
      ensures pages.Valid() && MapsOnly()
      ensures memory == 0 ==> All() == old(All()) && Full(old(Chunks())[i])
      ensures memory != 0 ==>
        && memory in live && live[memory].FromSlab? && live[memory].index == i
        && memory == chain[i].ChunkAt(live[memory].chunk) && LowestFree(old(Chunks())[i], live[memory].chunk)
        && All() == Memory(old(pages.State()), old(live)[memory := live[memory]],
                           WithChunk(old(Chunks()), i, live[memory].chunk, false))
    {
      hide PageAllocator.Valid, Valid, InMaps, LowestFree, Chunks, WithChunk, AllSound, Full;
      ghost var c;
      memory, c := SlabAllocate(i);
      assert live == old(live);
      if memory != 0 {
        live := live[memory := FromSlab(i, c)];
      }
    }

    lemma LowestNotLive(i: nat)
      requires Valid() && AllSound() && i < |chain|
      ensures forall d: nat :: LowestFree(Chunks()[i], d) ==>
        chain[i].ChunkAt(d) !in live && chain[i].ChunkAt(d) > ZERO_SIZE_PAGE
    {
      forall d: nat | LowestFree(Chunks()[i], d)
        ensures chain[i].ChunkAt(d) !in live && chain[i].ChunkAt(d) > ZERO_SIZE_PAGE
      {
        NotYetLive(i, d);
      }
    }

    /** A chunk has been taken, or nothing has changed. */
    twostate predicate Taken(memory: nat)
      requires AllSound()
      reads this, pages, pages.primary, pages.ram
    {
      if memory == 0 then All() == old(All())
      else Issued(old(All()), All(), memory) && memory == chain[live[memory].index].ChunkAt(live[memory].chunk)
    }

    /** Taking a free chunk and making its address live keeps the invariant. */
    twostate lemma TakenValid(memory: nat)
      requires old(Valid()) && pages.Valid() && AllSound() && Taken(memory)
      ensures Valid()
    {
      hide PageAllocator.Valid;
      assert Built();
      TakenNoLeak(memory);
      hide Built, NoLeak;
      forall a | a in live ensures WellIssued(a) {
        assert a in old(live) ==> old(WellIssued(a));
      }
    }

    twostate lemma TakenNoLeak(memory: nat)
      requires AllSound() && Taken(memory) && forall j :: 0 <= j < |chain| ==> old(NoLeak(j))
      ensures forall j :: 0 <= j < |chain| ==> NoLeak(j)
    {
      forall j | 0 <= j < |chain| ensures NoLeak(j) {
        assert old(NoLeak(j));
        forall d | 0 <= d < chain[j].nelems && !chain[j].FreeChunks()[d]
          ensures chain[j].ChunkAt(d) in live && live[chain[j].ChunkAt(d)] == FromSlab(j, d)
        {
          if memory == 0 || live[memory] != FromSlab(j, d) {
            assert !old(chain[j].FreeChunks())[d];
          }
        }
      }
    }

    /** Slabs are in live blocks, and an address from the page fallback is a live block that is no slab's. */
    ghost predicate Footed(m: Memory) {
      && (forall p :: SlabBlock(p) ==> p in m.pages.live)
      && (forall a :: a in m.live && m.live[a].FromPages? ==>
            a % PAGE_SIZE == 0 && a / PAGE_SIZE in m.pages.live && !SlabBlock(a / PAGE_SIZE))
    }

    lemma Footing()
      requires Valid()
      ensures AllSound() && Footed(All())
    {
      hide PageAllocator.Valid;
      forall a | a in live && live[a].FromPages?
        ensures a % PAGE_SIZE == 0 && a / PAGE_SIZE in pages.live && !SlabBlock(a / PAGE_SIZE)
      {
        assert WellIssued(a);
        assert a == PAGE_SIZE * (a / PAGE_SIZE);
      }
    }

    /** The slabs' blocks and chunks, and the addresses that slabs issued, are the same. */
    ghost predicate Steady(m: Memory, m': Memory) {
      && m'.chunks == m.chunks
      && (forall p :: SlabBlock(p) && p in m.pages.live ==> p in m'.pages.live && m'.pages.live[p] == m.pages.live[p])
      && (forall a :: a in m.live && m.live[a].FromSlab? ==> a in m'.live && m'.live[a] == m.live[a])
      && (forall a :: a in m'.live && m'.live[a].FromSlab? ==> a in m.live && m'.live[a] == m.live[a])
    }

    /** Blocks of pages that belong to others stay theirs. */
    ghost predicate KeepsForeign(m: Memory, m': Memory) {
      forall p :: ForeignIn(p, m.pages.live, m.live) ==>
        ForeignIn(p, m'.pages.live, m'.live) && m'.pages.live[p] == m.pages.live[p]
    }

    /** One more block, for another user or for `kmalloc`. */
    lemma BlockAdded(m: Memory, m': Memory, p: nat, n: nat)
      requires Footed(m) && (p != 0 ==> p !in m.pages.live && PAGE_SIZE * p !in m.live)
      requires m'.pages.live == MoreBlocks(m.pages.live, p, n) && m'.chunks == m.chunks
      requires m'.live == m.live || m'.live == MoreLive(m.live, p)
      ensures Footed(m') && Steady(m, m') && KeepsForeign(m, m')
      ensures p != 0 && m'.live == m.live ==> ForeignIn(p, m'.pages.live, m.live) && m'.pages.live[p] == n
    {
      hide SlabBlock;
    }

    /** A block of `kmalloc` goes, if there is one. */
    lemma BlockReturned(m: Memory, m': Memory, memory: nat)
      requires Footed(m) && (memory in m.live <==> memory / PAGE_SIZE != 0)
      requires memory in m.live ==> memory == PAGE_SIZE * (memory / PAGE_SIZE) && m.live[memory].FromPages?
      requires memory in m.live ==> memory / PAGE_SIZE in m.pages.live
      requires m'.pages == PutBack(m.pages, memory / PAGE_SIZE)
      requires m'.chunks == m.chunks && m'.live == m.live - {memory}
      ensures Footed(m') && Steady(m, m') && Freed(m, m', memory)
    {
      hide SlabBlock;
    }

    /** A block of another user goes, if there is one. */
    lemma BlockReleased(m: Memory, m': Memory, p: nat)
      requires Footed(m) && m'.pages.live == FewerBlocks(m.pages.live, p) && m'.chunks == m.chunks
      requires m'.live == m.live && (p != 0 ==> ForeignIn(p, m.pages.live, m.live))
      ensures Footed(m') && Steady(m, m')
      ensures forall q :: ForeignIn(q, m.pages.live, m.live) && q != p ==>
        ForeignIn(q, m'.pages.live, m'.live) && m'.pages.live[q] == m.pages.live[q]
    {
      hide SlabBlock;
    }

    lemma NothingChanged(m: Memory)
      ensures Steady(m, m)
    {
    }

    /** `kmalloc` leaves blocks of pages that belong to others alone. */
    lemma ServedForeign(bytes: nat, m: Memory, m': Memory, memory: nat, managed: set<nat>)
      requires Tiled(m.pages, managed) && Served(bytes, m, m', memory)
      ensures KeepsForeign(m, m')
    {
      hide SlabBlock, SlabsFull, Tiled, Grant, AlignUp, LowestFree;
      AllocatedTiled(m.pages, managed, AlignUp(PAGE_SIZE, bytes) / PAGE_SIZE);
    }

    /** So does `kfree`. */
    lemma FreedForeign(m: Memory, m': Memory, memory: nat)
      requires Footed(m) && Freed(m, m', memory)
      ensures KeepsForeign(m, m')
    {
    }

    /** The slabs' blocks are live as before. */
    twostate lemma StillBuilt()
      requires old(Built())
      requires forall p :: SlabBlock(p) && p in old(pages.live) ==>
        p in pages.live && pages.live[p] == old(pages.live)[p]
      ensures Built()
    {
      hide Scattered;
      assert Housed(internalAllocator, pages.live) by {
        assert SlabBlock(internalAllocator.area / PAGE_SIZE);
      }
      forall i | 0 <= i < |chain| ensures Housed(chain[i], pages.live) {
        assert old(Housed(chain[i], pages.live));
        assert chain[i].nelems > 0 ==> SlabBlock(chain[i].area / PAGE_SIZE);
      }
    }

    /** What happens to other blocks of pages than the slabs' keeps the invariant. */
    twostate lemma StillValid()
      requires old(Valid()) && pages.Valid() && AllSound()
      requires Footed(All()) && Steady(old(All()), All())
      ensures Valid()
    {
      hide PageAllocator.Valid;
      StillBuilt();
      hide Standing, Housed;
      forall a | a in live ensures WellIssued(a) {
        assert live[a].FromSlab? ==> old(WellIssued(a));
        assert a % PAGE_SIZE == 0 ==> a == PAGE_SIZE * (a / PAGE_SIZE);
      }
      forall j | 0 <= j < |chain| ensures NoLeak(j) {
        assert old(NoLeak(j));
      }
    }

    /** Slab bitmaps are outside the page bitmap. */
    lemma MapsOutside(i: nat)
      requires Valid() && i < |chain|
      ensures forall x: nat :: chain[i].InMap(x) ==> !pages.InMap(x) && x / PAGE_SIZE !in pages.primary.free
    {
      forall x: nat | chain[i].InMap(x) ensures !pages.InMap(x) && x / PAGE_SIZE !in pages.primary.free {
        MapInHouse(chain[i], pages, x);
      }
    }

    /** Pages that are granted belong to no live address. */
    lemma GrantNotLive(n: nat)
      requires Valid() && n > 0 && Grant(pages.primary.free, n) != 0
      ensures PAGE_SIZE * Grant(pages.primary.free, n) !in live
      ensures Grant(pages.primary.free, n) !in pages.live
    {
      var p := Grant(pages.primary.free, n);
      AllocatedTiled(pages.State(), pages.Managed(), n);
      assert p in Range(p, n) && p in pages.primary.free && !InLive(pages.live, p);
      hide PageAllocator.Valid, Grant, NoLeak;
      if PAGE_SIZE * p in live {
        AtHome(PAGE_SIZE * p, PAGE_SIZE * p);
      }
    }

    /** Allocate pages, which disturbs no slab. */
    method AllocatePages(n: nat) returns (memory: nat)
      requires Valid() && AllSound() && n <= 0x8000_0000
      modifies pages, pages.primary, pages.primary.lists, pages.primary.next, pages.ram
      ensures pages.Valid() && pages.State() == Allocated(old(pages.State()), n)
      ensures memory == if n == 0 then ZERO_SIZE_PAGE else PAGE_SIZE * Grant(old(pages.primary.free), n)
      ensures Chunks() == old(Chunks()) && WritesOnly(old(pages.primary.free))
    {
      forall i | 0 <= i < |chain| ensures forall x: nat :: chain[i].InMap(x) ==> !pages.InMap(x) {
        MapsOutside(i);
      }
      assert pages.Valid();
      hide PageAllocator.Valid, Valid, Allocated;
      memory := pages.Allocate(n);
      ChunksKept();
    }

    /** Pages that are handed out are a new block at an address that is not live. */
    method GrabPages(n: nat) returns (memory: nat, ghost p: nat)
      requires Valid() && AllSound() && n <= 0x8000_0000
      modifies pages, pages.primary, pages.primary.lists, pages.primary.next, pages.ram
      ensures pages.Valid() && pages.State() == Allocated(old(pages.State()), n)
      ensures p == GrantOf(old(pages.primary.free), n) && memory == PagesAnswer(n, p) && memory !in live
      ensures pages.live == MoreBlocks(old(pages.live), p, n)
      ensures p != 0 ==> p !in old(pages.live) && PAGE_SIZE * p !in live
      ensures Chunks() == old(Chunks()) && WritesOnly(old(pages.primary.free))
    {
      p := GrantOf(pages.primary.free, n);
      if p != 0 {
        GrantNotLive(n);
      }
      assert 0 !in live && ZERO_SIZE_PAGE !in live by {
        NoLowAddress();
      }
      hide PageAllocator.Valid, Valid, Grant, Chunks, WritesOnly;
      memory := AllocatePages(n);
    }

    /** Fall back to whole pages. */
    method TakePages(n: nat) returns (memory: nat)
      requires Valid() && AllSound() && Footed(All()) && n < PAGE_LIMIT
      modifies this, pages, pages.primary, pages.primary.lists, pages.primary.next, pages.ram
      ensures Valid() && ServedByPages(n, old(All()), All(), memory)
      ensures WritesOnly(old(pages.primary.free))
    {
      hide Valid, PageAllocator.Valid, GrantOf, PagesAnswer, MoreBlocks, MoreLive, Chunks, WritesOnly, AllSound;
      hide Footed, Steady, KeepsForeign, Allocated;
      ghost var p;
      memory, p := GrabPages(n);
      live := MoreLive(live, p);
      BlockAdded(old(All()), All(), p, n);
      StillValid();
    }

    lemma IssuedChunk(a: nat)
      requires Valid() && a in live && live[a].FromSlab?
      ensures WellIssued(a) && Extent(a) == ChainUnitSize(live[a].index)
    {
    }

    lemma IssuedPages(p: nat)
      requires Valid() && PAGE_SIZE * p in live && live[PAGE_SIZE * p].FromPages?
      ensures WellIssued(PAGE_SIZE * p) && p in pages.live && Extent(PAGE_SIZE * p) == PAGE_SIZE * pages.live[p]
    {
      hide PageAllocator.Valid;
      assert WellIssued(PAGE_SIZE * p);
      assert PAGE_SIZE * p / PAGE_SIZE == p;
    }

    /** Another user of the page allocator, such as a task with its stack, takes pages. */
    method AllocPages(n: nat) returns (memory: nat)
      requires Valid() && n <= 0x8000_0000
      modifies pages, pages.primary, pages.primary.lists, pages.primary.next, pages.ram
      ensures Valid() && pages.State() == Allocated(old(pages.State()), n)
      ensures var p := GrantOf(old(pages.primary.free), n);
        memory == PagesAnswer(n, p) && (p != 0 ==> Foreign(p) && pages.live[p] == n)
      ensures AllSound() && KeepsForeign(old(All()), All()) && HeldKept()
    {
      AllPrivate();
      Footing();
      hide Valid, PageAllocator.Valid, GrantOf, PagesAnswer, MoreBlocks, Chunks, WritesOnly, AllSound;
      hide Footed, Steady, KeepsForeign, Allocated, SlabBlock, Guarded, HeldKept;
      ghost var p;
      memory, p := GrabPages(n);
      BlockAdded(old(All()), All(), p, n);
      StillValid();
      ClientsKept();
    }

    /** And gives them back. */
    method FreePages(memory: nat)
      requires Valid()
      requires memory == 0 || memory == ZERO_SIZE_PAGE || (memory % PAGE_SIZE == 0 && Foreign(memory / PAGE_SIZE))
      modifies pages, pages.primary, pages.primary.lists, pages.primary.next, pages.ram
      ensures Valid()
      ensures memory / PAGE_SIZE != 0 ==> memory / PAGE_SIZE in old(pages.live)
      ensures pages.State() == PutBack(old(pages.State()), memory / PAGE_SIZE)
      ensures forall q :: old(Foreign(q)) && q != memory / PAGE_SIZE ==>
        Foreign(q) && pages.live[q] == old(pages.live)[q]
      ensures RestKept()
    {
      Footing();
      hide Valid, PageAllocator.Valid, Chunks, WritesOnly, Footed, Steady, AllSound, PutBack, FewerBlocks;
      hide SlabBlock, Guarded, RestKept;
      ReleaseBlock(memory);
      BlockReleased(old(All()), All(), memory / PAGE_SIZE);
      StillValid();
      AllPrivate();
      ClientsLeft();
    }

    /** At least `bytes` bytes are behind an address that `Allocate` answered with. */
    ghost predicate HasRoom(memory: nat, bytes: nat)
      reads this, pages, pages.ram
    {
      if memory == ZERO_SIZE_PAGE then bytes == 0
      else memory in live && WellIssued(memory) && bytes <= Extent(memory)
    }

    /** `kmalloc`. */
    method Allocate(bytes: nat) returns (memory: nat)
      requires Valid() && bytes < SIZE_LIMIT
      modifies this, pages, pages.primary, pages.primary.lists, pages.primary.next, pages.ram
      ensures Valid() && AllSound()
      ensures Served(bytes, old(All()), All(), memory)
      ensures memory != 0 ==> (HasRoom(memory, bytes) <==> bytes <= 0xFFFF_F000)
      ensures FitsAreFull(old(Chunks()), bytes, SlabOf(memory)) && Snug(memory, bytes)
      ensures KeepsForeign(old(All()), All()) && HeldKept()
    {
      AllPrivate();
      Footing();
      ghost var managed := pages.Managed();
      assert Tiled(pages.State(), managed);
      hide Tiled, PageAllocator.Valid, Valid, Served, HasRoom, Guarded, HeldKept, Footed, KeepsForeign;
      hide FitsAreFull, SlabOf, Snug, AllSound, WritesOnly, Chunks;
      memory := Serve(bytes);
      ServedRoom(bytes, old(All()), memory);
      ServedSmallest(bytes, old(All()), memory);
      ServedForeign(bytes, old(All()), All(), memory, managed);
      ClientsKept();
    }

    ghost function All(): Memory
      requires AllSound()
      reads this, pages, pages.primary, pages.ram
    {
      Memory(pages.State(), live, Chunks())
    }

    /** Slab that an address comes from; one past the chain if it comes from none. */
    ghost function SlabOf(memory: nat): nat
      reads this
    {
      if memory in live && live[memory].FromSlab? then live[memory].index else |chain|
    }

    /** Every earlier slab whose chunks are large enough has none left. */
    ghost predicate FitsAreFull(chunks: seq<seq<bool>>, bytes: nat, upTo: nat) {
      forall j :: 0 <= j < upTo && j < |chain| && j < |chunks| && bytes <= chain[j].elemSize ==> Full(chunks[j])
    }

    /** A block of pages is larger than the request by less than a page. */
    ghost predicate Snug(memory: nat, bytes: nat)
      reads this, pages, pages.ram
    {
      memory in live && live[memory].FromPages? && WellIssued(memory) ==> Extent(memory) < bytes + 4096
    }

    /** No slab with large enough chunks is passed over. */
    lemma ServedSmallest(bytes: nat, m: Memory, memory: nat)
      requires Valid() && AllSound() && bytes < SIZE_LIMIT && Served(bytes, m, All(), memory)
      requires |m.chunks| == |chain|
      ensures FitsAreFull(m.chunks, bytes, SlabOf(memory))
    {
      forall j | 0 <= j < SlabOf(memory) && j < |chain| && bytes <= chain[j].elemSize ensures Full(m.chunks[j]) {
        FirstSlabIs(bytes, j, |chain|);
      }
    }

    /** What is behind a new address is large enough, unless the request wraps around. */
    lemma ServedRoom(bytes: nat, m: Memory, memory: nat)
      requires Valid() && AllSound() && bytes < SIZE_LIMIT && Served(bytes, m, All(), memory)
      ensures memory != 0 ==> (HasRoom(memory, bytes) <==> bytes <= 0xFFFF_F000)
      ensures Snug(memory, bytes)
    {
      assert |chain| < 0x0FFF_FF00;
      NoLowAddress();
      if memory in live && live[memory].FromSlab? {
        IssuedChunk(memory);
        SlabSuffices(bytes, live[memory].index, |chain|);
      } else {
        PagesSuffice(bytes);
        if bytes <= SIZE_LIMIT - PAGE_SIZE {
          PagesHold(bytes);
        }
        var p := GrantOf(m.pages.free, AlignUp(PAGE_SIZE, bytes) / PAGE_SIZE);
        if p != 0 {
          IssuedPages(p);
        }
      }
    }

    /** Try the slabs, then the pages. */
    method Serve(bytes: nat) returns (memory: nat)
      requires Valid() && AllSound() && Footed(All()) && bytes < SIZE_LIMIT
      modifies this, pages, pages.primary, pages.primary.lists, pages.primary.next, pages.ram
      ensures Valid() && Served(bytes, old(All()), All(), memory)
      ensures WritesOnly(old(pages.primary.free))
    {
      PagesSuffice(bytes);
      hide PageAllocator.Valid, Valid, AlignUp, InMaps, SlabsTried, ServedByPages, Served;
      hide Footed, AllSound, Chunks;
      memory := TrySlabs(bytes);
      ghost var tried, m := memory, All();
      if memory == 0 {
        TriedInVain(bytes, old(All()), m);
        var pagesNeeded := AlignUp(PAGE_SIZE, bytes) / PAGE_SIZE;
        memory := TakePages(pagesNeeded);
      }
      ServedSomehow(bytes, old(All()), m, All(), tried, memory);
    }

    /** The slabs from the first sufficient one on, in order. */
    method TrySlabs(bytes: nat) returns (memory: nat)
      requires Valid() && AllSound() && bytes < SIZE_LIMIT
      modifies this, pages.ram
      ensures Valid() && SlabsTried(bytes, old(All()), All(), memory) && WritesOnly(old(pages.primary.free))
    {
      assert pages.Layout();
      hide PageAllocator.Valid, Valid, FirstSlab, InMaps, AllSound, Chunks, SlabTried, Full;
      var slabIdx := FirstToTry(bytes);
      memory := 0;
      while slabIdx != |chain|
        invariant FirstSlab(bytes, |chain|) <= slabIdx <= |chain| && memory == 0
        invariant Valid() && All() == old(All()) && SlabsFull(old(Chunks()), bytes, slabIdx) && MapsOnly()
        decreases |chain| - slabIdx
      {
        memory := TakeFromSlab(slabIdx);
        OneTried(bytes, slabIdx, old(All()), All(), memory);
        if memory != 0 {
          return;
        }
        slabIdx := slabIdx + 1;
      }
    }

    method FirstToTry(bytes: nat) returns (slabIdx: nat)
      requires bytes < SIZE_LIMIT
      ensures slabIdx == FirstSlab(bytes, |chain|) <= |chain|
    {
      if bytes <= 8 {
        slabIdx := 0;
      } else {
        slabIdx := AlignUp(16, bytes) / 16;
        if slabIdx >= |chain| {
          slabIdx := |chain|;
        }
      }
    }

    /** Neither null nor the zero-size page is ever live. */
    lemma NoLowAddress()
      requires Valid()
      ensures forall a :: a in live ==> a > ZERO_SIZE_PAGE
    {
      forall a | a in live ensures a > ZERO_SIZE_PAGE {
        assert WellIssued(a) && Extent(a) > 0;
        AtHome(a, a);
        assert InLive(pages.live, a / PAGE_SIZE);
      }
    }

    lemma OwnedIsIssued(memory: nat, j: nat)
      requires Valid() && j < |chain| && chain[j].Owns(memory)
      requires memory == 0 || memory == ZERO_SIZE_PAGE || memory in live
      ensures memory in live && live[memory].FromSlab? && live[memory].index == j
    {
      InHouse(chain[j], pages.live, memory);
      assert InLive(pages.live, memory / PAGE_SIZE);
      assert memory in live && Extent(memory) > 0;
      AtHome(memory, memory);
      hide PageAllocator.Layout, PageAllocator.MapIsEnds, NoLeak, ExpectedSize;
      assert Home(memory) == chain[j].area / PAGE_SIZE;
    }

    /** Exactly the slab that issued a live address owns it. */
    lemma Routing(memory: nat, j: nat)
      requires Valid() && j < |chain|
      requires memory == 0 || memory == ZERO_SIZE_PAGE || memory in live
      ensures chain[j].Owns(memory) <==> memory in live && live[memory].FromSlab? && live[memory].index == j
      ensures chain[j].Owns(memory) ==> (memory - chain[j].memory) / chain[j].elemSize == live[memory].chunk
    {
      hide PageAllocator.Valid, NoLeak;
      if chain[j].Owns(memory) {
        OwnedIsIssued(memory, j);
      }
      if memory in live && live[memory].FromSlab? && live[memory].index == j {
        ChunkBytes(chain[j], live[memory].chunk);
        DivModUnique(live[memory].chunk, 0, chain[j].elemSize);
      }
    }

    /** Writes outside the slabs' bitmaps leave every chunk as free or taken as it was. */
    twostate lemma ChunksKept()
      requires AllSound()
      requires forall i, a: nat :: 0 <= i < |chain| && a < pages.ram.Length && chain[i].InMap(a) ==>
        pages.ram[a] == old(pages.ram[a])
      ensures Chunks() == old(Chunks())
    {
      hide BitAt;
      forall i | 0 <= i < |chain| ensures chain[i].FreeChunks() == old(chain[i].FreeChunks()) {
        BitsFrame(old(pages.ram[..]), pages.ram[..], chain[i].area, chain[i].nelems);
      }
    }

    /** The bitmap of slab `i` is outside the page bitmap and the other slabs' bitmaps. */
    ghost predicate MapAlone(i: nat)
      requires i < |chain|
    {
      forall x: nat :: chain[i].InMap(x) ==>
        !pages.InMap(x) && forall j :: 0 <= j < |chain| && j != i ==> !chain[j].InMap(x)
    }

    lemma MapIsAlone(i: nat)
      requires Valid() && i < |chain|
      ensures MapAlone(i) && AllSound() && pages.Valid()
    {
      hide PageAllocator.Valid;
      forall x: nat | chain[i].InMap(x)
        ensures !pages.InMap(x) && forall j :: 0 <= j < |chain| && j != i ==> !chain[j].InMap(x)
      {
        MapsApart(i, x);
      }
    }

    /** What is written to one slab's bitmap disturbs neither the page allocator nor the other slabs. */
    twostate lemma OthersKept(i: nat)
      requires i < |chain| && MapAlone(i) && AllSound() && old(pages.Valid())
      requires unchanged(pages) && unchanged(pages.primary)
      requires unchanged(pages.primary.lists) && unchanged(pages.primary.next)
      requires forall a: nat :: a < pages.ram.Length && !chain[i].InMap(a) ==> pages.ram[a] == old(pages.ram[a])
      ensures pages.Valid()
      ensures forall j :: 0 <= j < |chain| && j != i ==> chain[j].FreeChunks() == old(chain[j].FreeChunks())
    {
      hide PageAllocator.Valid, BitAt;
      pages.UndisturbedBy();
      forall j | 0 <= j < |chain| && j != i ensures chain[j].FreeChunks() == old(chain[j].FreeChunks()) {
        BitsFrame(old(pages.ram[..]), pages.ram[..], chain[j].area, chain[j].nelems);
      }
    }

    /** Free a chunk of one slab; nothing else is disturbed. */
    method SlabDeallocate(i: nat, memory: nat)
      requires Valid() && AllSound() && i < |chain| && chain[i].Owns(memory) && memory in live
      modifies pages.ram
      ensures pages.Valid() && MapsOnly()
      ensures live[memory].FromSlab? && live[memory].index == i && live[memory].chunk < chain[i].nelems
      ensures Chunks() == WithChunk(old(Chunks()), i, live[memory].chunk, true)
    {
      Routing(memory, i);
      MapIsAlone(i);
      hide PageAllocator.Valid, MapAlone;
      FreeChunk(i, memory, live[memory].chunk);
    }

    method FreeChunk(i: nat, memory: nat, ghost chunk: nat)
      requires i < |chain| && pages.Valid() && AllSound() && MapAlone(i) && chain[i].Owns(memory)
      requires (memory - chain[i].memory) / chain[i].elemSize == chunk
      modifies pages.ram
      ensures pages.Valid() && MapsOnly() && chunk < chain[i].nelems
      ensures Chunks() == WithChunk(old(Chunks()), i, chunk, true)
    {
      assert pages.Layout() && memory != 0;
      hide PageAllocator.Valid, MapAlone;
      chain[i].Deallocate(memory);
      OthersKept(i);
    }

    /** Give a chunk back to the slab that issued it. */
    method ReturnToSlab(i: nat, memory: nat)
      requires Valid() && AllSound() && i < |chain| && chain[i].Owns(memory) && memory in live
      modifies this, pages.ram
      ensures Valid() && Freed(old(All()), All(), memory) && WritesOnly(pages.primary.free)
    {
      assert pages.Layout();
      hide PageAllocator.Valid, Valid, InMaps, AllSound, Chunks, WithChunk, SlabAllocator.Owns;
      SlabDeallocate(i, memory);
      live := live - {memory};
      ReturnedValid(memory);
    }

    /** Freeing a taken chunk and dropping its address keeps the invariant. */
    twostate lemma ReturnedValid(memory: nat)
      requires old(Valid()) && pages.Valid() && AllSound() && pages.live == old(pages.live)
      requires memory in old(live) && old(live)[memory].FromSlab? && old(live)[memory].index < |chain|
      requires old(live)[memory].chunk < |old(Chunks())[old(live)[memory].index]| && live == old(live) - {memory}
      requires Chunks() == WithChunk(old(Chunks()), old(live)[memory].index, old(live)[memory].chunk, true)
      ensures Valid()
    {
      hide PageAllocator.Valid;
      assert Built();
      hide Built;
      assert old(WellIssued(memory));
      forall a | a in live ensures WellIssued(a) {
        assert old(WellIssued(a));
      }
      forall j | 0 <= j < |chain| ensures NoLeak(j) {
        assert old(NoLeak(j));
      }
    }

    lemma BlockOfLive(memory: nat)
      requires Valid() && memory in live && live[memory].FromPages?
      ensures memory % PAGE_SIZE == 0 && memory / PAGE_SIZE in pages.live && memory != 0 && memory != ZERO_SIZE_PAGE
    {
      assert WellIssued(memory) && Extent(memory) > 0;
      AtHome(memory, memory);
      assert InLive(pages.live, memory / PAGE_SIZE);
    }

    /** Release a block of pages, which disturbs no slab. */
    method ReleaseBlock(memory: nat)
      requires Valid() && AllSound()
      requires memory == 0 || memory == ZERO_SIZE_PAGE || (memory % PAGE_SIZE == 0 && memory / PAGE_SIZE in pages.live)
      modifies pages, pages.primary, pages.primary.lists, pages.primary.next, pages.ram
      ensures pages.Valid() && unchanged(this)
      ensures memory / PAGE_SIZE != 0 ==> memory / PAGE_SIZE in old(pages.live)
      ensures pages.State() == PutBack(old(pages.State()), memory / PAGE_SIZE)
      ensures pages.live == FewerBlocks(old(pages.live), memory / PAGE_SIZE)
      ensures Chunks() == old(Chunks()) && WritesOnly(pages.primary.free)
    {
      forall i | 0 <= i < |chain| ensures forall x: nat :: chain[i].InMap(x) ==> !pages.InMap(x) {
        MapsOutside(i);
      }
      assert pages.Valid();
      hide PageAllocator.Valid, Valid;
      pages.Deallocate(memory);
      ChunksKept();
    }

    /** An address that no slab issued is a live block of its own, or on page 0. */
    lemma AboutToReturn(memory: nat)
      requires Valid() && (memory == 0 || memory == ZERO_SIZE_PAGE || memory in live)
      requires memory in live ==> live[memory].FromPages?
      ensures memory in live <==> memory / PAGE_SIZE != 0
      ensures memory in live ==> memory == PAGE_SIZE * (memory / PAGE_SIZE) && memory / PAGE_SIZE in pages.live
    {
      NoLowAddress();
      hide Valid;
      if memory in live {
        BlockOfLive(memory);
      }
    }

    /** Give whole pages back to the page allocator. */
    method ReturnPages(memory: nat)
      requires Valid() && AllSound() && Footed(All())
      requires memory == 0 || memory == ZERO_SIZE_PAGE || memory in live
      requires memory in live ==> live[memory].FromPages?
      modifies this, pages, pages.primary, pages.primary.lists, pages.primary.next, pages.ram
      ensures Valid() && Freed(old(All()), All(), memory) && WritesOnly(pages.primary.free)
    {
      AboutToReturn(memory);
      hide Valid, PageAllocator.Valid, Chunks, WritesOnly, Footed, Steady, AllSound, PutBack, Freed;
      DropBlock(memory);
      BlockReturned(old(All()), All(), memory);
      StillValid();
    }

    /** Release a block and forget its address. */
    method DropBlock(memory: nat)
      requires Valid() && AllSound()
      requires memory == 0 || memory == ZERO_SIZE_PAGE || (memory % PAGE_SIZE == 0 && memory / PAGE_SIZE in pages.live)
      modifies this, pages, pages.primary, pages.primary.lists, pages.primary.next, pages.ram
      ensures pages.Valid() && WritesOnly(pages.primary.free)
      ensures memory / PAGE_SIZE != 0 ==> memory / PAGE_SIZE in old(pages.live)
      ensures All() == Memory(PutBack(old(pages.State()), memory / PAGE_SIZE), old(live) - {memory}, old(Chunks()))
    {
      hide Valid, PageAllocator.Valid, Chunks, InMaps, AllSound, FewerBlocks, PutBack;
      ReleaseBlock(memory);
      assert live == old(live);
      live := live - {memory};
    }

    /** The first slab that owns the address: the one that issued it, if any did. */
    method FindOwner(memory: nat) returns (chainIdx: nat)
      requires Valid() && (memory == 0 || memory == ZERO_SIZE_PAGE || memory in live)
      ensures chainIdx <= |chain|
      ensures chainIdx < |chain| ==> chain[chainIdx].Owns(memory) && memory in live
      ensures chainIdx < |chain| ==> live[memory].FromSlab? && live[memory].index == chainIdx
      ensures chainIdx == |chain| && memory in live ==> live[memory].FromPages?
    {
      hide PageAllocator.Valid;
      chainIdx := 0;
      while chainIdx != |chain|
        invariant chainIdx <= |chain|
        invariant memory in live && live[memory].FromSlab? ==> live[memory].index >= chainIdx
        decreases |chain| - chainIdx
      {
        Routing(memory, chainIdx);
        if chain[chainIdx].Owns(memory) {
          return;
        }
        chainIdx := chainIdx + 1;
      }
      assert memory in live ==> WellIssued(memory);
    }

    /** `kfree`. */
    method Deallocate(memory: nat)
      requires Valid() && (memory == 0 || memory == ZERO_SIZE_PAGE || memory in live)
      modifies this, pages, pages.primary, pages.primary.lists, pages.primary.next, pages.ram
      ensures Valid() && AllSound() && Freed(old(All()), All(), memory)
      ensures KeepsForeign(old(All()), All()) && RestKept()
    {
      Footing();
      hide PageAllocator.Valid, Valid, Freed, Chunks, Guarded, RestKept, Footed, KeepsForeign, AllSound, WritesOnly;
      Return(memory);
      FreedForeign(old(All()), All(), memory);
      AllPrivate();
      ClientsLeft();
    }

    /** To the slab that owns the address, or else to the page allocator. */
    method Return(memory: nat)
      requires Valid() && AllSound() && Footed(All()) && (memory == 0 || memory == ZERO_SIZE_PAGE || memory in live)
      modifies this, pages, pages.primary, pages.primary.lists, pages.primary.next, pages.ram
      ensures Valid() && Freed(old(All()), All(), memory) && WritesOnly(pages.primary.free)
    {
      hide PageAllocator.Valid, Valid, Freed, Chunks, Footed, AllSound, InMaps, SlabAllocator.Owns;
      var chainIdx := FindOwner(memory);
      if chainIdx != |chain| {
        ReturnToSlab(chainIdx, memory);
      } else {
        ReturnPages(memory);
      }
    }

    /** A write to a byte that no allocator uses reaches neither page allocator nor slabs. */
    method StrayWrite(x: nat, value: bv8, word: nat)
      requires pages.Valid() && AllSound() && Private(x)
      modifies pages.ram, pages.primary.next
      ensures pages.Valid() && Chunks() == old(Chunks()) && pages.ram[x] == value
      ensures forall y :: 0 <= y < pages.ram.Length && y != x ==> pages.ram[y] == old(pages.ram[y])
    {
      assert pages.Layout();
      hide PageAllocator.Valid;
      pages.ram[x] := value;
      pages.primary.next[x / PAGE_SIZE] := word;
      pages.UndisturbedBy();
      ChunksKept();
    }

    /**
     * A client may write any byte of its memory, and with it the word at the start of the page; the allocators
     * and the memory of every other client stay as they were.
     */
    method ClientWrite(x: nat, value: bv8, word: nat)
      requires Valid() && InUse(x)
      modifies pages.ram, pages.primary.next
      ensures Valid() && live == old(live) && pages.State() == old(pages.State())
      ensures x < pages.ram.Length && pages.ram[x] == value
      ensures forall y :: 0 <= y < pages.ram.Length && y != x ==> pages.ram[y] == old(pages.ram[y])
    {
      AllPrivate();
      Footing();
      NothingChanged(All());
      assert Private(x);
      hide Valid, PageAllocator.Valid, InUse, Guarded, Private, Chunks, Footed, Steady, AllSound;
      StrayWrite(x, value, word);
      StillValid();
    }
  }
}
