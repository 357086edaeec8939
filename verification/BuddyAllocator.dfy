/** The buddy system over eleven free lists (kernel/memory/buddy_allocator.cpp). */
module BuddySystem {
  import opened Dyadic
  import opened FreeLists
  import opened ListGraph
  import opened PageGrants

  /** Half-open interval of page frames (kernel/memory/memory_region.hpp). */
  datatype MemoryRegion = MemoryRegion(begin: nat, end: nat) {
    function Size(): int {
      end - begin
    }

    function IndexOf(frame: nat): int {
      frame - begin
    }
  }

  /** A block of consecutive pages; `ptr` 0 is the null pointer. */
  datatype PageBlock = PageBlock(ptr: nat, size: nat)

  /** The lists are exactly the canonical blocks of the free set. */
  ghost predicate Represents(free: set<nat>, lists: seq<seq<nat>>) {
    && |lists| == MAX_ORDER + 1
    && forall i, p :: 0 <= i < |lists| ==> (p in lists[i] <==> Canonical(free, i, p))
  }

  ghost predicate Apart(s: seq<nat>, t: seq<nat>) {
    forall p :: p in s ==> p !in t
  }

  /** Two lists share no page. */
  lemma ListsDisjoint(free: set<nat>, lists: seq<seq<nat>>, i: nat, j: nat, p: nat)
    requires Represents(free, lists) && i < j < |lists| && p in lists[i]
    ensures p !in lists[j]
  {
    if p in lists[j] {
      assert Canonical(free, i, p) && Canonical(free, j, p);
      CanonicalUnique(free, i, p, j, p, p);
    }
  }

  /** Listing a block whose buddy is not listed frees its pages. */
  lemma PutStays(free: set<nat>, before: seq<seq<nat>>, after: seq<seq<nat>>, k: nat, frame: nat)
    requires Represents(free, before) && k < |before| == |after|
    requires Aligned(frame, k) && Range(frame, Pow2(k)) !! free
    requires k < MAX_ORDER ==> Buddy(frame, k) !in before[k]
    requires forall i :: 0 <= i < |before| && i != k ==> after[i] == before[i]
    requires forall p :: p in after[k] <==> p in before[k] || p == frame
    ensures Represents(free + Range(frame, Pow2(k)), after)
  {
    forall i, p | 0 <= i < |after|
      ensures p in after[i] <==> Canonical(free + Range(frame, Pow2(k)), i, p)
    {
      AddCanonical(free, k, frame, i, p);
      assert p in before[i] <==> Canonical(free, i, p);
    }
  }

  /** Unlisting a block takes its pages out of the free set. */
  lemma Unlist(free: set<nat>, before: seq<seq<nat>>, after: seq<seq<nat>>, k: nat, b: nat)
    requires Represents(free, before) && k < |before| == |after| && b in before[k]
    requires forall i :: 0 <= i < |before| && i != k ==> after[i] == before[i]
    requires forall p :: p in after[k] <==> p in before[k] && p != b
    ensures Range(b, Pow2(k)) <= free
    ensures Represents(free - Range(b, Pow2(k)), after)
  {
    assert Canonical(free, k, b);
    forall i, p | 0 <= i < |after|
      ensures p in after[i] <==> Canonical(free - Range(b, Pow2(k)), i, p)
    {
      RemoveCanonical(free, k, b, i, p);
      assert p in before[i] <==> Canonical(free, i, p);
    }
  }

  /** A block that is not free is on no list and collides with none. */
  lemma ReadyForPut(free: set<nat>, lists: seq<seq<nat>>, k: nat, frame: nat)
    requires Represents(free, lists) && k < |lists| && Range(frame, Pow2(k)) !! free
    ensures frame !in lists[k]
    ensures forall p :: p in lists[k] ==> Aligned(p, k) && p in free
    ensures forall i :: 0 <= i < |lists| && i != k ==> Apart(lists[i], lists[k] + [frame])
  {
    assert frame in Range(frame, Pow2(k));
    ListedFree(free, lists);
    assert forall p :: p in lists[k] ==> Canonical(free, k, p);
  }

  /** Moving a free buddy over to its partner makes a block of the next order. */
  lemma Doubled(free: set<nat>, k: nat, frame: nat)
    requires Aligned(frame, k) && Range(frame, Pow2(k)) !! free && Range(Buddy(frame, k), Pow2(k)) <= free
    ensures Aligned(Floor(frame, k + 1), k + 1)
    ensures Floor(frame, k + 1) + Pow2(k + 1) - 1 in free + Range(frame, Pow2(k))
    ensures Range(Floor(frame, k + 1), Pow2(k + 1)) !! free - Range(Buddy(frame, k), Pow2(k))
    ensures free - Range(Buddy(frame, k), Pow2(k)) + Range(Floor(frame, k + 1), Pow2(k + 1))
         == free + Range(frame, Pow2(k))
  {
    BuddyFacts(frame, k);
    assert Floor(frame, k + 1) + Pow2(k + 1) - 1 in Range(Floor(frame, k + 1), Pow2(k + 1));
  }

  lemma NotAlignedAbove(odd: nat, top: nat, j: nat)
    requires top < j && odd % 2 == 1
    ensures !Aligned(odd * Pow2(top), j)
  {
    var m := Pow2(top);
    HalvesOf(odd, m);
    DivModUnique(odd / 2, m, 2 * m);
    if Aligned(odd * m, j) {
      AlignedLower(odd * m, top + 1, j);
    }
  }

  /** Either the free set is `target`, or it lacks just the block (frame, k), which is still to be put. */
  ghost predicate Carry(free: set<nat>, target: set<nat>, frame: nat, k: nat, limit: nat) {
    if frame == 0 then
      free == target
    else
      && k <= MAX_ORDER
      && Aligned(frame, k)
      && frame + Pow2(k) <= limit
      && Range(frame, Pow2(k)) !! free
      && free + Range(frame, Pow2(k)) == target
  }

  /** Merging with a listed buddy leaves the doubled block to be put one order up. */
  lemma PutMerges(free: set<nat>, before: seq<seq<nat>>, after: seq<seq<nat>>, k: nat, frame: nat,
                  target: set<nat>, limit: nat)
    requires Represents(free, before) && |before| == |after| && k < MAX_ORDER && frame != 0
    requires Carry(free, target, frame, k, limit) && (forall q :: q in free ==> q < limit)
    requires Buddy(frame, k) in before[k] && Floor(frame, k + 1) != 0
    requires forall i :: 0 <= i < |before| && i != k ==> after[i] == before[i]
    requires forall p :: p in after[k] <==> p in before[k] && p != Buddy(frame, k)
    ensures Represents(free - Range(Buddy(frame, k), Pow2(k)), after)
    ensures Carry(free - Range(Buddy(frame, k), Pow2(k)), target, Floor(frame, k + 1), k + 1, limit)
  {
    Unlist(free, before, after, k, Buddy(frame, k));
    Doubled(free, k, frame);
  }

  /** Whatever the list did with the block, the lists represent a free set that lacks at most a carried block. */
  lemma PutStep(free: set<nat>, before: seq<seq<nat>>, after: seq<seq<nat>>, k: nat, frame: nat, squashed: nat,
                target: set<nat>, limit: nat)
    returns (free': set<nat>)
    requires Represents(free, before) && |before| == |after| && (forall q :: q in free ==> 0 < q < limit)
    requires frame != 0 && Carry(free, target, frame, k, limit)
    requires forall i :: 0 <= i < |before| && i != k ==> after[i] == before[i]
    requires PutSpec(before[k], after[k], frame, k, k < MAX_ORDER, squashed)
    ensures Represents(free', after) && Carry(free', target, squashed, k + 1, limit)
    ensures forall q :: q in free' ==> 0 < q < limit
  {
    assert |before| == MAX_ORDER + 1;
    hide Represents, Canonical, Aligned, Pow2, Floor, Buddy;
    if squashed == 0 {
      PutStays(free, before, after, k, frame);
      free' := free + Range(frame, Pow2(k));
    } else {
      PutMerges(free, before, after, k, frame, target, limit);
      free' := free - Range(Buddy(frame, k), Pow2(k));
    }
  }

  /** Listed blocks are free and no page is on two lists. */
  lemma ListedFree(free: set<nat>, lists: seq<seq<nat>>)
    requires Represents(free, lists)
    ensures forall i, p :: 0 <= i < |lists| && p in lists[i] ==> p in free
    ensures forall i, k :: 0 <= i < |lists| && 0 <= k < |lists| && i != k ==> Apart(lists[i], lists[k])
  {
    forall i, p | 0 <= i < |lists| && p in lists[i] ensures p in free {
      assert p in Range(p, Pow2(i));
    }
    forall i, k | 0 <= i < |lists| && 0 <= k < |lists| && i != k ensures Apart(lists[i], lists[k]) {
      forall p | p in lists[i] ensures p !in lists[k] {
        if i < k {
          ListsDisjoint(free, lists, i, k, p);
        } else if p in lists[k] {
          ListsDisjoint(free, lists, k, i, p);
        }
      }
    }
  }

  lemma HeadRemoved(s: seq<nat>)
    requires s != [] && Ascending(s)
    ensures forall p :: p in s[1..] <==> p in s && p != s[0]
  {
    RemoveFacts(s, 0);
    assert RemovedAt(s, 0) == s[1..];
  }

  /** The head of an ascending list is the lowest block of its order. */
  lemma HeadIsLowest(free: set<nat>, lists: seq<seq<nat>>, k: nat)
    requires Represents(free, lists) && k < |lists| && lists[k] != [] && Ascending(lists[k])
    ensures Lowest(free, k, lists[k][0])
  {
    assert lists[k][0] in lists[k];
    forall q: nat | Canonical(free, k, q) ensures lists[k][0] <= q {
      assert q in lists[k];
    }
  }

  /** Putting the tail of a taken block back leaves only its first `n` pages taken. */
  lemma SplitBlock(free: set<nat>, p: nat, n: nat, m: nat)
    requires n <= m && Range(p, m) <= free
    ensures Range(p + n, m - n) !! free - Range(p, m)
    ensures free - Range(p, m) + Range(p + n, m - n) == free - Range(p, n)
    ensures n < m ==> p + m - 1 in free
  {
    assert n < m ==> p + m - 1 in Range(p, m);
  }

  /** Whether a block of order `k` leaves pages over, as a count. */
  function Extra(k: nat, pages: nat): nat {
    if pages < Pow2(k) then 1 else 0
  }

  class BuddyAllocator {
    const next: array<nat>
    const lists: seq<FreeList>
    const region: MemoryRegion
    var allocations: nat
    var deallocations: nat
    ghost var free: set<nat>

    /** Eleven distinct, well-formed lists over one memory. */
    ghost predicate Shape()
      reads lists, next
    {
      && |lists| == MAX_ORDER + 1
      && (forall i, j :: 0 <= i < j < |lists| ==> lists[i] != lists[j])
      && (forall i :: 0 <= i < |lists| ==> Sound(i))
    }

    ghost predicate Sound(i: nat)
      requires i < |lists|
      reads lists, next
    {
      && lists[i].next == next
      && lists[i].order == i
      && lists[i].disableSquashing == (i == MAX_ORDER)
      && lists[i].Valid()
    }

    ghost function Contents(): (c: seq<seq<nat>>)
      reads lists
      ensures |c| == |lists| && forall i :: 0 <= i < |lists| ==> c[i] == lists[i].Items
    {
      seq(|lists|, i requires 0 <= i < |lists| reads lists => lists[i].Items)
    }

    ghost predicate Valid()
      reads this, lists, next
    {
      && Shape()
      && (forall q :: q in free ==> 0 < q < next.Length)
      && Represents(free, Contents())
    }

    constructor (next: array<nat>, region: MemoryRegion)
      requires next.Length > 0
      ensures Valid() && |lists| == 11 && free == {} && this.next == next && this.region == region
      ensures fresh(this) && forall i :: 0 <= i < |lists| ==> fresh(lists[i])
      ensures allocations == deallocations == 0
    {
      this.next := next;
      this.region := region;
      allocations, deallocations := 0, 0;
      free := {};
      var made: seq<FreeList> := [];
      for i := 0 to MAX_ORDER + 1
        invariant |made| == i
        invariant forall j :: 0 <= j < i ==> fresh(made[j])
        invariant forall j, l :: 0 <= j < l < i ==> made[j] != made[l]
        invariant forall j :: 0 <= j < i ==> made[j].Valid() && made[j].Items == [] && made[j].next == next
        invariant forall j :: 0 <= j < i ==> made[j].order == j && made[j].disableSquashing == (j == MAX_ORDER)
      {
        var list := new FreeList(next, i, i == MAX_ORDER);
        made := made + [list];
      }
      lists := made;
      assert forall i, p :: Canonical({}, i, p) ==> p in Range(p, Pow2(i));
    }

    lemma ListsAscend()
      requires Valid()
      ensures forall i :: 0 <= i < |lists| ==> Ascending(Contents()[i])
    {
      forall i | 0 <= i < |lists| ensures Ascending(Contents()[i]) {
        assert Sound(i);
      }
    }

    /** Whatever is written to pages that are not free, the lists stay as they are. */
    twostate lemma UndisturbedBy()
      requires old(Valid()) && unchanged(this) && unchanged(lists)
      requires forall q :: 0 <= q < next.Length && q in free ==> next[q] == old(next[q])
      ensures Valid()
    {
      ListedFree(free, old(Contents()));
      assert Contents() == old(Contents());
      forall i | 0 <= i < |lists| ensures Sound(i) {
        assert old(Sound(i));
        LinkedFrame(old(next[..]), next[..], lists[i].list, lists[i].Items);
      }
    }

    /** Change one list; the others, whose pages are elsewhere, keep their contents. */
    method ListPut(k: nat, frame: nat) returns (squashed: nat)
      requires Valid() && k <= MAX_ORDER && 0 < frame < next.Length
      requires Aligned(frame, k) && Range(frame, Pow2(k)) !! free
      modifies lists[k], next
      ensures Shape()
      ensures forall i :: 0 <= i < |lists| && i != k ==> Contents()[i] == old(Contents()[i])
      ensures PutSpec(old(Contents()[k]), Contents()[k], frame, k, k < MAX_ORDER, squashed)
      ensures forall q :: 0 <= q < next.Length && q !in free && q != frame ==> next[q] == old(next[q])
    {
      ReadyForPut(free, Contents(), k, frame);
      assert Sound(k);
      squashed := lists[k].Put(frame);
      forall i | 0 <= i < |lists| ensures Sound(i) {
        if i != k {
          assert old(Sound(i)) && Apart(old(lists[i].Items), old(lists[k].Items) + [frame]);
          LinkedFrame(old(next[..]), next[..], lists[i].list, lists[i].Items);
        }
      }
    }

    /** Put one aligned block on its list: either it stays there, or it comes back doubled. */
    method PutAt(k: nat, frame: nat, ghost target: set<nat>) returns (squashed: nat)
      requires Valid() && frame != 0 && Carry(free, target, frame, k, next.Length)
      modifies this`free, lists, next
      ensures Valid() && Carry(free, target, squashed, k + 1, next.Length)
      ensures forall q :: 0 <= q < next.Length && q !in target ==> next[q] == old(next[q])
    {
      ghost var before := Contents();
      assert frame in Range(frame, Pow2(k));
      assert |lists| == MAX_ORDER + 1;
      hide Shape, Represents, PutSpec, Carry;
      squashed := ListPut(k, frame);
      free := PutStep(free, before, Contents(), k, frame, squashed, target, next.Length);
    }

    /** The largest order that fits into the block and that its first page is aligned to. */
    method ComputeOrder(blk: PageBlock) returns (order: nat)
      requires blk.size >= 1
      ensures order <= 10 && Pow2(order) <= blk.size && Aligned(blk.ptr, order)
      ensures forall j: nat :: order < j <= 10 ==> !(Pow2(j) <= blk.size && Aligned(blk.ptr, j))
    {
      order := 0;
      var pageNumber := blk.ptr;
      while pageNumber % 2 == 0 && order < MAX_ORDER
        invariant order <= MAX_ORDER && blk.ptr == pageNumber * Pow2(order) + 0
        decreases MAX_ORDER - order
      {
        HalvesOf(pageNumber, Pow2(order));
        order := order + 1;
        pageNumber := pageNumber / 2;
      }
      ghost var top := order;
      ghost var odd := pageNumber;
      DivModUnique(odd, 0, Pow2(top));
      forall j: nat | top < j <= MAX_ORDER ensures !Aligned(blk.ptr, j) {
        NotAlignedAbove(odd, top, j);
      }
      while Pow2(order) > blk.size
        invariant order <= top
        invariant forall j: nat :: order < j <= top ==> Pow2(j) > blk.size
      {
        order := order - 1;
      }
      AlignedLower(blk.ptr, order, top);
    }

    /** Put a block of any size: its aligned pieces in turn, each with its cascade of merges. */
    method Put(blk0: PageBlock)
      requires Valid() && Range(blk0.ptr, blk0.size) !! free
      requires blk0.size > 0 ==> 0 < blk0.ptr && blk0.ptr + blk0.size <= next.Length
      modifies this, lists, next
      ensures Valid() && free == old(free) + Range(blk0.ptr, blk0.size)
      ensures allocations == old(allocations)
      ensures deallocations == old(deallocations) + if blk0.size > 0 then 1 else 0
      ensures forall q :: 0 <= q < next.Length && q !in free ==> next[q] == old(next[q])
    {
      if blk0.size == 0 {
        return;
      }
      deallocations := deallocations + 1;
      var blk := blk0;
      while blk.size != 0
        invariant Valid() && blk.ptr + blk.size == blk0.ptr + blk0.size && blk0.ptr <= blk.ptr
        invariant free == old(free) + Range(blk0.ptr, blk.ptr - blk0.ptr)
        invariant allocations == old(allocations) && deallocations == old(deallocations) + 1
        invariant forall q :: 0 <= q < next.Length && q !in free ==> next[q] == old(next[q])
        decreases blk.size
      {
        var blockOrder := ComputeOrder(blk);
        PutPiece(blockOrder, blk.ptr);
        var blockSize := Pow2(blockOrder);
        blk := PageBlock(blk.ptr + blockSize, blk.size - blockSize);
      }
    }

    /** Put one aligned block and carry the merged blocks upwards. */
    method PutPiece(blockOrder: nat, frame: nat)
      requires Valid() && blockOrder <= MAX_ORDER && Aligned(frame, blockOrder)
      requires Range(frame, Pow2(blockOrder)) !! free && 0 < frame && frame + Pow2(blockOrder) <= next.Length
      modifies this`free, lists, next
      ensures Valid() && free == old(free) + Range(frame, Pow2(blockOrder))
      ensures forall q :: 0 <= q < next.Length && q !in free ==> next[q] == old(next[q])
    {
      hide Valid, Aligned, Pow2;
      ghost var target := free + Range(frame, Pow2(blockOrder));
      var squashedPages := PutAt(blockOrder, frame, target);
      if squashedPages != 0 {
        var puttingList: nat := blockOrder + 1;
        squashedPages := PutAt(puttingList, squashedPages, target);
        while squashedPages != 0
          invariant Valid() && Carry(free, target, squashedPages, puttingList + 1, next.Length)
          invariant forall q :: 0 <= q < next.Length && q !in target ==> next[q] == old(next[q])
          decreases squashedPages != 0, MAX_ORDER - puttingList
        {
          puttingList := puttingList + 1;
          squashedPages := PutAt(puttingList, squashedPages, target);
        }
      }
    }

    /** Take the head of one list; the other lists keep their contents. */
    method ListPop(k: nat) returns (frame: nat)
      requires Valid() && k <= MAX_ORDER
      modifies lists[k], next
      ensures Shape()
      ensures forall i :: 0 <= i < |lists| && i != k ==> Contents()[i] == old(Contents()[i])
      ensures old(Contents()[k]) == [] ==> frame == 0 && Contents()[k] == []
      ensures old(Contents()[k]) != [] ==>
        frame == old(Contents()[k])[0] != 0 && Contents()[k] == old(Contents()[k])[1..]
      ensures 0 < frame < next.Length ==> next[frame] == 0
      ensures forall q :: 0 <= q < next.Length && q !in free ==> next[q] == old(next[q])
    {
      hide Canonical, Pow2;
      ListedFree(free, Contents());
      assert Sound(k);
      frame := lists[k].Get();
      forall i | 0 <= i < |lists| ensures Sound(i) {
        if i != k {
          assert old(Sound(i)) && Apart(old(Contents()[i]), old(Contents()[k]));
          LinkedFrame(old(next[..]), next[..], lists[i].list, lists[i].Items);
        }
      }
    }

    /** Take the lowest block of one order. */
    method ListGet(k: nat) returns (frame: nat)
      requires Valid() && k <= MAX_ORDER
      modifies this`free, lists[k], next
      ensures Valid()
      ensures frame == 0 ==> free == old(free) && !HasBlock(free, k)
      ensures frame != 0 ==> Lowest(old(free), k, frame) && free == old(free) - Range(frame, Pow2(k))
      ensures 0 < frame < next.Length ==> next[frame] == 0
      ensures forall q :: 0 <= q < next.Length && q !in old(free) ==> next[q] == old(next[q])
    {
      ListsAscend();
      hide Canonical, Pow2, Sound;
      ghost var before := Contents();
      frame := ListPop(k);
      ghost var after := Contents();
      if frame == 0 {
        assert forall p :: p !in before[k];
        assert after == before;
      } else {
        HeadIsLowest(free, before, k);
        HeadRemoved(before[k]);
        Unlist(free, before, after, k, frame);
        free := free - Range(frame, Pow2(k));
      }
    }

    method SmallestOrder(pages: nat) returns (order: nat)
      ensures order == NeededOrder(pages)
    {
      order := 0;
      while pages > Pow2(order)
        invariant order > 0 ==> Pow2(order - 1) < pages
        decreases pages - Pow2(order)
      {
        order := order + 1;
      }
      NeededOrderIs(pages, order);
    }

    /** Take the lowest block of the smallest order that suffices for `pages` pages. */
    method TakeBlock(pages: nat) returns (ptr: nat, order: nat)
      requires Valid() && pages <= 0x8000_0000
      modifies this`free, lists, next
      ensures Valid()
      ensures ptr == 0 ==> free == old(free) && NoneBelow(free, pages, MAX_ORDER + 1)
      ensures ptr != 0 ==> Grants(old(free), pages, ptr, order) && free == old(free) - Range(ptr, Pow2(order))
      ensures forall q :: 0 <= q < next.Length && q !in old(free) ==> next[q] == old(next[q])
      ensures 0 < ptr < next.Length ==> next[ptr] == 0
    {
      assert |lists| == MAX_ORDER + 1;
      hide Valid, NeededOrder, Lowest, HasBlock;
      ptr := 0;
      order := SmallestOrder(pages);
      if order > MAX_ORDER {
        return;
      }

      while order <= MAX_ORDER
        invariant NeededOrder(pages) <= order <= MAX_ORDER + 1
        invariant Valid() && free == old(free) && NoneBelow(free, pages, order) && ptr == 0
        invariant forall q :: 0 <= q < next.Length && q !in old(free) ==> next[q] == old(next[q])
      {
        ptr := ListGet(order);
        if ptr != 0 {
          return;
        }
        order := order + 1;
      }
    }

    /** Hand out `pages` pages and put the rest of the block they came from back. */
    method Get(pages: nat) returns (blk: PageBlock)
      requires Valid() && pages <= 0x8000_0000
      modifies this, lists, next
      ensures Valid() && blk.ptr == Grant(old(free), pages) && blk.size == (if blk.ptr == 0 then 0 else pages)
      ensures free == old(free) - Range(blk.ptr, blk.size)
      ensures allocations == old(allocations) + 1
      ensures blk.ptr == 0 ==> deallocations == old(deallocations)
      ensures blk.ptr != 0 ==>
        exists k: nat :: Grants(old(free), pages, blk.ptr, k) && deallocations == old(deallocations) + Extra(k, pages)
      ensures forall q :: 0 <= q < next.Length && q !in old(free) ==> next[q] == old(next[q])
      ensures 0 < pages && blk.ptr != 0 ==> blk.ptr < next.Length && next[blk.ptr] == 0
    {
      hide Shape, Represents, Aligned, Pow2, Floor;
      allocations := allocations + 1;
      var ptr, order := TakeBlock(pages);
      if ptr == 0 {
        NoGrant(free, pages);
        return PageBlock(0, 0);
      }

      GrantIs(old(free), pages, ptr, order);
      Pow2Mono(NeededOrder(pages), order);
      var extraMemory := PageBlock(ptr + pages, Pow2(order) - pages);
      SplitBlock(old(free), ptr, pages, Pow2(order));
      if extraMemory.size != 0 {
        Put(extraMemory);
      }
      return PageBlock(ptr, pages);
    }
  }

  /** The lists are a function of the free set: no history can tell two valid allocators apart. */
  lemma ListsDetermined(free: set<nat>, a: seq<seq<nat>>, b: seq<seq<nat>>)
    requires Represents(free, a) && Represents(free, b)
    requires forall i :: 0 <= i < |a| ==> Ascending(a[i]) && Ascending(b[i])
    ensures a == b
  {
    forall i | 0 <= i < |a| ensures a[i] == b[i] {
      forall p ensures p in a[i] <==> p in b[i] {
        assert p in a[i] <==> Canonical(free, i, p);
      }
      AscendingUnique(a[i], b[i]);
    }
  }

  /** Every free page lies in exactly one listed block. */
  lemma Partition(free: set<nat>, lists: seq<seq<nat>>, q: nat) returns (k: nat, p: nat)
    requires Represents(free, lists) && q in free
    ensures k < |lists| && p in lists[k] && q in Range(p, Pow2(k))
    ensures forall j, r :: 0 <= j < |lists| && r in lists[j] && q in Range(r, Pow2(j)) ==> j == k && r == p
  {
    p, k := Cover(free, q, 0);
    assert q in Range(q, Pow2(0));
    forall j, r | 0 <= j < |lists| && r in lists[j] && q in Range(r, Pow2(j)) ensures j == k && r == p {
      assert Canonical(free, j, r);
      CanonicalUnique(free, k, p, j, r, q);
    }
  }

  /** Getting a block and putting it back restores every list. */
  method GetThenPut(buddy: BuddyAllocator, pages: nat)
    requires buddy.Valid() && pages <= 0x8000_0000
    modifies buddy, buddy.lists, buddy.next
    ensures buddy.Valid() && buddy.Contents() == old(buddy.Contents())
  {
    ghost var before := buddy.Contents();
    buddy.ListsAscend();
    GrantComplete(buddy.free, pages);
    var blk := buddy.Get(pages);
    assert blk.ptr != 0 ==> Range(blk.ptr, pages) <= old(buddy.free);
    assert blk.size > 0 ==> blk.ptr + blk.size - 1 in Range(blk.ptr, blk.size);
    buddy.Put(blk);
    assert buddy.free == old(buddy.free);
    ghost var after := buddy.Contents();
    buddy.ListsAscend();
    ListsDetermined(buddy.free, before, after);
  }
}
