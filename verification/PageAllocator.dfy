/** Page allocation that keeps no sizes, only the ends of blocks (kernel/memory/page_allocator.cpp). */
module PageAllocators {
  import opened Dyadic
  import opened PageGrants
  import opened PageRuns
  import opened BuddySystem
  import opened BitArrays
  import opened ListGraph

  /** Answer to a request for no pages: a valid address that is no page. */
  const ZERO_SIZE_PAGE: nat := 0x10

  /** Pages that a 32-bit address space can hold. */
  const PAGE_LIMIT: nat := 0x10_0000

  /** Page `q` is the last page of a live block. */
  ghost predicate EndsAt(live: map<nat, nat>, q: nat) {
    exists p :: p in live && p + live[p] == q + 1
  }

  lemma EndsAdd(live: map<nat, nat>, p: nat, n: nat, q: nat)
    requires p !in live
    ensures EndsAt(live[p := n], q) <==> EndsAt(live, q) || p + n == q + 1
  {
    var more := live[p := n];
    if p + n == q + 1 {
      assert p in more;
    } else if EndsAt(live, q) {
      var r :| r in live && r + live[r] == q + 1;
      assert r in more;
    }
    if EndsAt(more, q) && p + n != q + 1 {
      var r :| r in more && r + more[r] == q + 1;
      assert r in live;
    }
  }

  /** The last page of a live block is the last page of no other. */
  lemma EndsDrop(live: map<nat, nat>, p: nat, q: nat)
    requires Separate(live) && p in live
    ensures EndsAt(live - {p}, q) <==> EndsAt(live, q) && p + live[p] != q + 1
  {
    var less := live - {p};
    if EndsAt(live, q) && p + live[p] != q + 1 {
      var r :| r in live && r + live[r] == q + 1;
      assert r in less;
    }
    if EndsAt(less, q) {
      var r :| r in less && r + less[r] == q + 1;
      assert q in Range(r, live[r]);
      assert q !in Range(p, live[p]);
    }
  }

  /** From the first page of a live block, the first end of a block is its own. */
  lemma FirstEnd(live: map<nat, nat>, p: nat, q: nat)
    requires Separate(live) && p in live && q in Range(p, live[p])
    ensures EndsAt(live, q) <==> q + 1 == p + live[p]
  {
    if EndsAt(live, q) {
      var r :| r in live && r + live[r] == q + 1;
      assert q in Range(r, live[r]);
    }
  }

  /** The pages reserved for the bitmap are as few as hold it. */
  lemma MapFits(size: nat)
    requires size <= PAGE_LIMIT
    ensures var mapPages := AlignUp(PAGE_SIZE, ExpectedSize(size)) / PAGE_SIZE;
      ExpectedSize(size) <= 4096 * mapPages < ExpectedSize(size) + 4096
  {
  }

  class PageAllocator {
    const ram: array<bv8>
    const primary: BuddyAllocator
    const map_: BitArray
    /** First page that is ever handed out. */
    ghost const base: nat
    ghost var live: map<nat, nat>

    ghost function Managed(): set<nat>
      requires base <= primary.region.end
    {
      Range(base, primary.region.end - base)
    }

    ghost function State(): Pages
      reads this, primary
    {
      Pages(primary.free, live)
    }

    /** Memory, region, bitmap and managed pages, in this order, without overlap. */
    ghost predicate Layout() {
      && primary.region.begin <= base <= primary.region.end <= PAGE_LIMIT
      && 0 < primary.region.begin
      && primary.region.end <= primary.next.Length
      && PAGE_SIZE * primary.region.end <= ram.Length
      && primary.next as object != ram as object
      && map_.ram == ram && map_.size == primary.region.Size() && map_.Fits()
      && map_.data + ExpectedSize(map_.size) <= PAGE_SIZE * base
      && PAGE_SIZE * primary.region.begin <= map_.data
    }

    /** The set bits are exactly the last pages of live blocks. */
    ghost predicate MapIsEnds()
      requires Layout()
      reads this, ram
    {
      forall i :: 0 <= i < map_.size ==> (map_.Bits()[i] <==> EndsAt(live, primary.region.begin + i))
    }

    ghost predicate Valid()
      reads this, primary, primary.lists, primary.next, ram
    {
      && Layout()
      && primary.Valid()
      && Tiled(State(), Managed())
      && MapIsEnds()
    }

    constructor (primary: BuddyAllocator, ram: array<bv8>, firstFree: nat)
      requires primary.Valid() && primary.free == {} && primary.next as object != ram as object
      requires 0 < primary.region.begin <= firstFree
      requires primary.region.end <= PAGE_LIMIT && primary.region.end <= primary.next.Length
      requires primary.region.begin <= primary.region.end
      requires firstFree + AlignUp(PAGE_SIZE, ExpectedSize(primary.region.Size())) / PAGE_SIZE <= primary.region.end
      requires ram.Length >= PAGE_SIZE * primary.region.end
      modifies primary, primary.lists, primary.next, ram
      ensures Valid() && live == map[] && this.primary == primary && this.ram == ram
      ensures State().free == Managed() && map_.data == 4096 * firstFree
      ensures base == firstFree + AlignUp(PAGE_SIZE, ExpectedSize(primary.region.Size())) / PAGE_SIZE
      ensures var mapBytes := ExpectedSize(primary.region.Size());
        mapBytes <= 4096 * (base - firstFree) < mapBytes + 4096
    {
      hide BuddyAllocator.Valid, BitAt, AlignUp, ExpectedSize;
      MapFits(primary.region.Size());
      this.primary := primary;
      this.ram := ram;
      live := map[];
      var region := primary.region;
      var mapSize := AlignUp(PAGE_SIZE, ExpectedSize(region.Size())) / PAGE_SIZE;
      var pages := PageBlock(firstFree + mapSize, region.end - (firstFree + mapSize));
      base := firstFree + mapSize;
      primary.Put(pages);
      map_ := new BitArray(ram, PAGE_SIZE * firstFree, region.Size());
      new;
    }

    ghost predicate InMap(a: nat) {
      map_.data <= a < map_.data + ExpectedSize(map_.size)
    }

    /** Record a block that has just been handed out. */
    method MarkLive(ptr: nat, n: nat)
      requires Layout() && MapIsEnds() && ptr !in live && n > 0
      requires primary.region.begin <= ptr && ptr + n <= primary.region.end
      modifies this`live, ram
      ensures MapIsEnds() && live == old(live)[ptr := n]
      ensures forall a :: 0 <= a < ram.Length && !InMap(a) ==> ram[a] == old(ram[a])
    {
      var pageIndex := primary.region.IndexOf(ptr);
      var lastPageInBlock := pageIndex + n - 1;
      map_.Set(lastPageInBlock, true);
      live := live[ptr := n];
      forall i | 0 <= i < map_.size
        ensures map_.Bits()[i] <==> EndsAt(live, primary.region.begin + i)
      {
        EndsAdd(old(live), ptr, n, primary.region.begin + i);
      }
    }

    /** Nothing outside the bitmap and the given pages is written. */
    twostate predicate WritesOnly(pages: set<nat>)
      reads this, primary, primary.next, ram
    {
      && (forall q :: 0 <= q < primary.next.Length && q !in pages ==> primary.next[q] == old(primary.next[q]))
      && (forall a :: 0 <= a < ram.Length && !InMap(a) ==> ram[a] == old(ram[a]))
    }

    /** Writes to memory outside the bitmap and to pages that are not free do not disturb the allocator. */
    twostate lemma UndisturbedBy()
      requires old(Valid()) && unchanged(this) && unchanged(primary) && unchanged(primary.lists)
      requires forall q :: 0 <= q < primary.next.Length && q in primary.free ==> primary.next[q] == old(primary.next[q])
      requires forall a :: 0 <= a < ram.Length && InMap(a) ==> ram[a] == old(ram[a])
      ensures Valid()
    {
      hide EndsAt, BitAt, Tiled, Represents, Linked;
      primary.UndisturbedBy();
      BitsFrame(old(ram[..]), ram[..], map_.data, map_.size);
      assert map_.Bits() == old(map_.Bits());
    }

    /** Take the block and mark its end. */
    method AllocateBlock(pages: nat) returns (ptr: nat)
      requires Valid() && 0 < pages <= 0x8000_0000
      modifies this, primary, primary.lists, primary.next, ram
      ensures Valid()
      ensures ptr == Grant(old(primary.free), pages)
      ensures ptr != 0 ==> base <= ptr && ptr + pages <= primary.region.end && primary.next[ptr] == 0
      ensures State() == Allocated(old(State()), pages)
      ensures WritesOnly(old(primary.free))
    {
      hide BuddyAllocator.Valid, MapIsEnds, EndsAt, Tiled, Separate;
      AllocatedTiled(State(), Managed(), pages);
      var freeMemory := primary.Get(pages);
      ptr := freeMemory.ptr;
      if ptr == 0 {
        assert State() == old(State());
      } else {
        assert ptr in Range(ptr, pages) && ptr + pages - 1 in Range(ptr, pages);
        MarkLive(ptr, pages);
      }
    }

    method Allocate(pages: nat) returns (memory: nat)
      requires Valid() && pages <= 0x8000_0000
      modifies this, primary, primary.lists, primary.next, ram
      ensures Valid()
      ensures memory == if pages == 0 then 0x10 else 4096 * Grant(old(primary.free), pages)
      ensures pages != 0 && memory != 0 ==> memory / 4096 < primary.next.Length && primary.next[memory / 4096] == 0
      ensures pages != 0 && memory != 0 ==>
        map_.data + ExpectedSize(map_.size) <= PAGE_SIZE * base <= memory && memory + PAGE_SIZE * pages <= ram.Length
      ensures State() == Allocated(old(State()), pages)
      ensures WritesOnly(old(primary.free))
    {
      assert Layout();
      hide Valid, Grant, Allocated;
      if pages == 0 {
        return ZERO_SIZE_PAGE;
      }
      var ptr := AllocateBlock(pages);
      assert PAGE_SIZE * ptr / 4096 == ptr;
      return PAGE_SIZE * ptr;
    }

    method Deallocate(memory: nat)
      requires Valid()
      requires memory == 0 || memory == ZERO_SIZE_PAGE || (memory % PAGE_SIZE == 0 && memory / PAGE_SIZE in live)
      modifies this, primary, primary.lists, primary.next, ram
      ensures Valid()
      ensures State() == if memory == 0 || memory == ZERO_SIZE_PAGE then old(State())
                         else Released(old(State()), memory / PAGE_SIZE)
      ensures WritesOnly(primary.free)
    {
      if memory == 0 || memory == ZERO_SIZE_PAGE {
        return;
      }
      var frame := memory / PAGE_SIZE;
      DeallocateBlock(frame);
    }

    /** Find the end of the block and put it back. */
    method DeallocateBlock(frame: nat)
      requires Valid() && frame in live
      modifies this, primary, primary.lists, primary.next, ram
      ensures Valid() && State() == Released(old(State()), frame)
      ensures WritesOnly(primary.free)
    {
      hide BuddyAllocator.Valid, MapIsEnds, EndsAt, Tiled, Separate;
      ReleasedTiled(State(), Managed(), frame);
      assert frame in Range(frame, live[frame]) && frame + live[frame] - 1 in Range(frame, live[frame]);
      var blk := ScanBlock(frame);
      primary.Put(blk);
    }

    /** Recover the size of a live block from the end marks, and clear its mark. */
    method ScanBlock(frame: nat) returns (blk: PageBlock)
      requires Layout() && MapIsEnds() && Separate(live) && frame in live
      requires primary.region.begin <= frame && frame + live[frame] <= primary.region.end
      modifies this`live, ram
      ensures blk == PageBlock(frame, old(live)[frame]) && live == old(live) - {frame} && MapIsEnds()
      ensures forall a :: 0 <= a < ram.Length && !InMap(a) ==> ram[a] == old(ram[a])
    {
      var pageIndex := primary.region.IndexOf(frame);
      blk := PageBlock(frame, 0);
      var index := pageIndex;
      while index != primary.region.Size()
        invariant live == old(live) && ram[..] == old(ram[..])
        invariant pageIndex <= index < primary.region.Size()
        invariant index - pageIndex == blk.size < live[frame] && blk.ptr == frame
        invariant MapIsEnds()
        decreases primary.region.Size() - index
      {
        FirstEnd(live, frame, primary.region.begin + index);
        blk := PageBlock(blk.ptr, blk.size + 1);
        var end := map_.Get(index);
        if end {
          map_.Set(index, false);
          break;
        }
        index := index + 1;
      }
      live := live - {frame};
      forall i | 0 <= i < map_.size
        ensures map_.Bits()[i] <==> EndsAt(live, primary.region.begin + i)
      {
        EndsDrop(old(live), frame, primary.region.begin + i);
      }
    }

    /** No request is for more pages than a 32-bit shift can count. */
    ghost predicate Bounded(script: seq<Request>) {
      forall i :: 0 <= i < |script| && script[i].Alloc? ==> script[i].pages <= 0x8000_0000
    }

    /** Carry a script of requests out; what happens is what the run over free and live pages says. */
    method Execute(script: seq<Request>) returns (answers: seq<nat>)
      requires Valid() && LegalRun(World(State(), []), script)
      requires Bounded(script)
      modifies this, primary, primary.lists, primary.next, ram
      ensures Valid() && World(State(), answers) == Run(World(old(State()), []), script)
    {
      hide Valid, Allocated, Released, Grant;
      answers := [];
      assert script[0..] == script;
      for i := 0 to |script|
        invariant Valid() && LegalRun(World(State(), answers), script[i..])
        invariant Run(World(State(), answers), script[i..]) == Run(World(old(State()), []), script)
      {
        assert script[i..][1..] == script[i + 1..];
        ghost var w := World(State(), answers);
        match script[i]
        case Alloc(n) =>
          var memory := Allocate(n);
          answers := answers + [memory / PAGE_SIZE];
          assert World(State(), answers) == Step(w, script[i]);
        case Free(a) =>
          Deallocate(PAGE_SIZE * answers[a]);
          assert World(State(), answers) == Step(w, script[i]);
      }
    }

    /** A script that ends with the same blocks live as it began with restores all eleven lists exactly. */
    method ExecuteAndRestore(script: seq<Request>) returns (answers: seq<nat>)
      requires Valid() && LegalRun(World(State(), []), script) && Bounded(script)
      requires Run(World(State(), []), script).pages.live == live
      modifies this, primary, primary.lists, primary.next, ram
      ensures Valid() && State() == old(State()) && primary.Contents() == old(primary.Contents())
      ensures answers == Run(World(old(State()), []), script).answers
    {
      ghost var before := primary.Contents();
      primary.ListsAscend();
      ReplayGivesSameAddresses(State(), Managed(), script, []);
      hide LegalRun, Run, BuddyAllocator.Shape, Tiled, MapIsEnds;
      answers := Execute(script);
      primary.ListsAscend();
      ListsDetermined(primary.free, before, primary.Contents());
    }

    /**
     * Such a script is forgotten: whatever is asked for afterwards gets the answers that it would have got in its
     * place. In particular the same script again gets the same addresses.
     */
    method ExecuteAndReplay(script: seq<Request>, replay: seq<Request>) returns (first: seq<nat>, second: seq<nat>)
      requires Valid() && Bounded(script) && Bounded(replay)
      requires LegalRun(World(State(), []), script) && LegalRun(World(State(), []), replay)
      requires Run(World(State(), []), script).pages.live == live
      modifies this, primary, primary.lists, primary.next, ram
      ensures Valid() && World(State(), second) == Run(World(old(State()), []), replay)
      ensures script == replay ==> first == second
    {
      hide Valid, LegalRun, Run;
      first := ExecuteAndRestore(script);
      second := Execute(replay);
    }
  }
}
