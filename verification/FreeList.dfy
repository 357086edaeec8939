/** The sorted intrusive list of free blocks of one order (kernel/memory/free_list.cpp). */
module FreeLists {
  import opened Dyadic
  import opened ListGraph

  ghost predicate Ascending(s: seq<nat>) {
    forall i, j :: 0 <= i < j < |s| ==> s[i] < s[j]
  }

  ghost function InsertedAt(s: seq<nat>, i: nat, x: nat): seq<nat>
    requires i <= |s|
  {
    s[..i] + [x] + s[i..]
  }

  ghost function RemovedAt(s: seq<nat>, i: nat): seq<nat>
    requires i < |s|
  {
    s[..i] + s[i + 1..]
  }

  lemma InsertFacts(s: seq<nat>, i: nat, x: nat)
    requires i <= |s| && Ascending(s)
    requires forall j :: 0 <= j < i ==> s[j] < x
    requires forall j :: i <= j < |s| ==> x < s[j]
    ensures Ascending(InsertedAt(s, i, x))
    ensures forall p :: p in InsertedAt(s, i, x) <==> p in s || p == x
  {
    var t := InsertedAt(s, i, x);
    assert s == s[..i] + s[i..];
    assert forall j :: 0 <= j < |t| ==> t[j] == (if j < i then s[j] else if j == i then x else s[j - 1]);
  }

  lemma RemoveFacts(s: seq<nat>, i: nat)
    requires i < |s| && Ascending(s)
    ensures Ascending(RemovedAt(s, i))
    ensures forall p :: p in RemovedAt(s, i) <==> p in s && p != s[i]
  {
    var t := RemovedAt(s, i);
    assert s == s[..i] + [s[i]] + s[i + 1..];
    assert forall j :: 0 <= j < |t| ==> t[j] == (if j < i then s[j] else s[j + 1]);
  }

  /** A set of pages has only one ascending listing. */
  lemma {:induction false} AscendingUnique(s: seq<nat>, t: seq<nat>)
    requires Ascending(s) && Ascending(t)
    requires forall p :: p in s <==> p in t
    ensures s == t
  {
    if s == [] {
      assert forall i :: 0 <= i < |t| ==> t[i] in s;
    } else {
      assert s[0] in t && t != [];
      assert t[0] in s;
      assert s[0] == t[0];
      forall p ensures p in s[1..] <==> p in t[1..] {
        assert p in s[1..] <==> p in s && p != s[0];
        assert p in t[1..] <==> p in t && p != t[0];
      }
      AscendingUnique(s[1..], t[1..]);
    }
  }

  /** Outcome of the consistency check: all well, or one of its two panics. */
  datatype Verdict = Fine | LoopDetected | StatsInvalid

  /** Are two frames one block apart? (free_list.cpp:194) */
  predicate AreConsequent(first: nat, second: nat, order: nat) {
    second - first == Pow2(order)
  }

  /** Is bit `order` of the page number clear? (free_list.cpp:200) */
  predicate IsTheFirstInBuddy(frame: nat, order: nat) {
    (frame / Pow2(order)) % 2 == 0
  }

  lemma FirstInBuddy(x: nat, k: nat)
    requires Aligned(x, k)
    ensures IsTheFirstInBuddy(x, k) <==> Buddy(x, k) == x + Pow2(k)
  {
    var m := Pow2(k);
    var q := x / m;
    assert Pow2(k + 1) == 2 * m;
    DivModUnique(q / 2, q % 2 * m, 2 * m);
    HalvesOf(q, m);
    assert x % Pow2(k + 1) == q % 2 * m;
  }

  lemma HalvesOf(q: nat, m: nat)
    ensures q * m == (q / 2) * (2 * m) + q % 2 * m
  {
    var h := q / 2;
    assert q == 2 * h + q % 2;
    assert (2 * h + q % 2) * m == 2 * h * m + q % 2 * m;
  }

  /** A merged pair starts at the lower one of the two. */
  lemma PairStart(x: nat, k: nat)
    requires Aligned(x, k)
    ensures Buddy(x, k) != x && Floor(x, k + 1) == if Buddy(x, k) < x then Buddy(x, k) else x
  {
    BuddyFacts(x, k);
  }

  /** Only the neighbour below can be a lower buddy. */
  lemma LowerBuddy(s: seq<nat>, i: nat, x: nat, k: nat)
    requires Ascending(s) && Aligned(x, k) && forall p :: p in s ==> Aligned(p, k)
    requires i <= |s| && (forall j :: 0 <= j < i ==> s[j] < x) && (forall j :: i <= j < |s| ==> x < s[j])
    ensures (i > 0 && AreConsequent(s[i - 1], x, k) && IsTheFirstInBuddy(s[i - 1], k))
       <==> (Buddy(x, k) in s && Buddy(x, k) < x)
    ensures Buddy(x, k) in s && Buddy(x, k) < x ==> Buddy(x, k) == s[i - 1]
  {
    BuddyFacts(x, k);
    if i > 0 {
      assert s[i - 1] in s;
      FirstInBuddy(s[i - 1], k);
      BuddyFacts(s[i - 1], k);
    }
    if Buddy(x, k) in s && Buddy(x, k) < x {
      var j :| 0 <= j < |s| && s[j] == Buddy(x, k);
      if j < i - 1 {
        AlignedGap(s[j], s[i - 1], k);
      }
    }
  }

  /** Only the neighbour above can be an upper buddy. */
  lemma UpperBuddy(s: seq<nat>, i: nat, x: nat, k: nat)
    requires Ascending(s) && Aligned(x, k) && forall p :: p in s ==> Aligned(p, k)
    requires i <= |s| && (forall j :: 0 <= j < i ==> s[j] < x) && (forall j :: i <= j < |s| ==> x < s[j])
    ensures (AreConsequent(x, At(s, i), k) && IsTheFirstInBuddy(x, k))
       <==> (Buddy(x, k) in s && x < Buddy(x, k))
    ensures Buddy(x, k) in s && x < Buddy(x, k) ==> i < |s| && Buddy(x, k) == s[i]
  {
    BuddyFacts(x, k);
    FirstInBuddy(x, k);
    if Buddy(x, k) in s && x < Buddy(x, k) {
      var j :| 0 <= j < |s| && s[j] == Buddy(x, k);
      if i < j {
        assert s[i] in s;
        AlignedGap(x, s[i], k);
      }
    }
  }

  /** Threading a new item in at index `i`. */
  lemma LinkedInsert(next: seq<nat>, next': seq<nat>, head: nat, s: seq<nat>, i: nat, x: nat)
    requires Linked(next, head, s) && 0 < x < |next| == |next'| && i <= |s|
    requires next'[x] == At(s, i) && (i > 0 ==> next'[s[i - 1]] == x)
    requires forall j :: 0 <= j < |s| && j != i - 1 ==> next'[s[j]] == next[s[j]]
    ensures Linked(next', if i == 0 then x else head, InsertedAt(s, i, x))
  {
    var t := InsertedAt(s, i, x);
    assert forall j :: 0 <= j < |t| ==> t[j] == (if j < i then s[j] else if j == i then x else s[j - 1]);
    forall j | 0 <= j < |t| ensures 0 < t[j] < |next'| && next'[t[j]] == At(t, j + 1) {
      if j < i {
        assert t[j] == s[j];
      } else if j > i {
        assert t[j] == s[j - 1];
      }
    }
  }

  /** Unthreading the item at index `i`. */
  lemma LinkedRemove(next: seq<nat>, next': seq<nat>, head: nat, s: seq<nat>, i: nat)
    requires Linked(next, head, s) && |next| == |next'| && i < |s|
    requires i > 0 ==> next'[s[i - 1]] == At(s, i + 1)
    requires forall j :: 0 <= j < |s| && j != i - 1 && j != i ==> next'[s[j]] == next[s[j]]
    ensures Linked(next', if i == 0 then At(s, 1) else head, RemovedAt(s, i))
  {
    var t := RemovedAt(s, i);
    assert forall j :: 0 <= j < |t| ==> t[j] == (if j < i then s[j] else s[j + 1]);
    forall j | 0 <= j < |t| ensures 0 < t[j] < |next'| && next'[t[j]] == At(t, j + 1) {
      if j < i {
        assert t[j] == s[j];
      } else {
        assert t[j] == s[j + 1];
      }
    }
  }

  /** What `FreeList::put` does to the set of listed blocks of order `k`. */
  ghost predicate PutSpec(before: seq<nat>, after: seq<nat>, frame: nat, k: nat, squashing: bool, squashed: nat) {
    if squashing && Buddy(frame, k) in before then
      && squashed == Floor(frame, k + 1) != 0
      && forall p :: p in after <==> p in before && p != Buddy(frame, k)
    else
      && squashed == 0
      && forall p :: p in after <==> p in before || p == frame
  }

  class FreeList {
    /** The first word of every page; the lists thread through the free pages themselves. */
    const next: array<nat>
    var list: nat
    var order: nat
    var disableSquashing: bool
    var items: nat
    ghost var Items: seq<nat>

    ghost predicate Valid()
      reads this, next
    {
      && next.Length > 0
      && Linked(next[..], list, Items)
      && Ascending(Items)
      && items == |Items|
    }

    constructor (next: array<nat>, order: nat, disableSquashing: bool)
      requires next.Length > 0
      ensures Valid() && Items == [] && fresh(this)
      ensures this.next == next && this.order == order && this.disableSquashing == disableSquashing
    {
      this.next := next;
      this.list := 0;
      this.order := order;
      this.disableSquashing := disableSquashing;
      this.items := 0;
      this.Items := [];
      new;
      var _ := CheckedSane();
    }

    /** Tortoise and hare, then a recount. */
    method SanityCheck() returns (v: Verdict)
      requires Closed(next[..], list)
      ensures v == LoopDetected <==> Cyclic(next[..], list)
      ensures v == Fine <==> HasLength(next[..], list, items)
    {
      ghost var graph := next[..];
      ghost var m := MeetingPoint(graph, list);
      ghost var n: nat := 0;
      var fast, slow := list, list;
      var more := true;
      while more
        invariant slow == Iter(graph, list, n) && fast == Iter(graph, list, 2 * n)
        invariant more || (n > 0 && (slow == 0 || fast == 0 || slow == fast))
        invariant more ==> n < m
        decreases m - n, more
      {
        if slow != 0 {
          slow := next[slow];
        }
        if fast != 0 {
          fast := next[fast];
        }
        assert fast == Iter(graph, list, 2 * n + 1);
        if fast != 0 {
          fast := next[fast];
        }
        n := n + 1;
        more := slow != 0 && fast != 0 && slow != fast;
      }

      if slow == fast && slow != 0 {
        RevisitIsCyclic(graph, list, n, n);
        return LoopDetected;
      }

      ghost var last := if slow == 0 then n else 2 * n;
      assert Iter(graph, list, last) == 0;
      var length := 0;
      var it := list;
      while it != 0
        invariant it == Iter(graph, list, length)
        invariant forall j: nat :: j < length ==> Iter(graph, list, j) != 0
        invariant length <= last
        decreases last - length
      {
        if length == last {
          assert false;
        }
        it := next[it];
        length := length + 1;
      }
      assert HasLength(graph, list, length);
      if length != items {
        return StatsInvalid;
      }
      return Fine;
    }

    method Get() returns (frame: nat)
      requires Valid()
      modifies this, next
      ensures Valid() && order == old(order) && disableSquashing == old(disableSquashing)
      ensures old(Items) == [] ==> frame == 0 && Items == []
      ensures old(Items) != [] ==> frame == old(Items)[0] && Items == old(Items)[1..]
      ensures 0 < frame < next.Length ==> next[frame] == 0
      ensures forall p :: 0 <= p < next.Length && p !in old(Items) ==> next[p] == old(next[p])
    {
      frame := list;
      if frame != 0 {
        list := next[list];
        next[frame] := 0;
        items := items - 1;
        Items := Items[1..];
      }
      var _ := CheckedSane();
    }

    /** The check that ends every operation panics in no valid state. */
    method CheckedSane() returns (v: Verdict)
      requires Valid()
      ensures v == Fine
    {
      LinkedIsSound(next[..], list, Items);
      v := SanityCheck();
    }

    /** The last item below `item` and the one before it; null where there is none. */
    method FindLastLesser(item: nat) returns (lastLesser: nat, prelastLesser: nat, ghost i: nat)
      requires Valid()
      ensures i <= |Items|
      ensures forall j :: 0 <= j < i ==> Items[j] < item
      ensures forall j :: i <= j < |Items| ==> item <= Items[j]
      ensures lastLesser == (if i >= 1 then Items[i - 1] else 0)
      ensures prelastLesser == (if i >= 2 then Items[i - 2] else 0)
    {
      prelastLesser, lastLesser, i := 0, 0, 0;
      var it := list;
      while it != 0 && it < item
        invariant i <= |Items| && it == At(Items, i)
        invariant forall j :: 0 <= j < i ==> Items[j] < item
        invariant lastLesser == (if i >= 1 then Items[i - 1] else 0)
        invariant prelastLesser == (if i >= 2 then Items[i - 2] else 0)
        decreases |Items| - i
      {
        prelastLesser := lastLesser;
        lastLesser := it;
        it := next[it];
        i := i + 1;
      }
    }

    /** Thread `frame` in behind `lastLesser`, or at the head of the list. */
    method InsertAfter(frame: nat, lastLesser: nat, ghost i: nat)
      requires Valid() && 0 < frame < next.Length && frame !in Items && i <= |Items|
      requires forall j :: 0 <= j < i ==> Items[j] < frame
      requires forall j :: i <= j < |Items| ==> frame < Items[j]
      requires lastLesser == (if i >= 1 then Items[i - 1] else 0)
      modifies this, next
      ensures Valid() && order == old(order) && disableSquashing == old(disableSquashing)
      ensures forall p :: p in Items <==> p in old(Items) || p == frame
      ensures forall p :: 0 <= p < next.Length && p !in old(Items) && p != frame ==> next[p] == old(next[p])
    {
      ghost var before := next[..];
      if lastLesser == 0 {
        next[frame] := list;
        list := frame;
      } else {
        next[frame] := next[lastLesser];
        next[lastLesser] := frame;
      }
      LinkedInsert(before, next[..], old(list), Items, i, frame);
      Added(i, frame);
    }

    /** Account for `frame`, which has just been threaded in at index `i`. */
    method Added(ghost i: nat, ghost frame: nat)
      requires i <= |Items| == items && next.Length > 0 && Ascending(Items)
      requires forall j :: 0 <= j < i ==> Items[j] < frame
      requires forall j :: i <= j < |Items| ==> frame < Items[j]
      requires Linked(next[..], list, InsertedAt(Items, i, frame))
      modifies this
      ensures Valid() && order == old(order) && disableSquashing == old(disableSquashing)
      ensures forall p :: p in Items <==> p in old(Items) || p == frame
    {
      InsertFacts(Items, i, frame);
      items := items + 1;
      Items := InsertedAt(Items, i, frame);
      var _ := CheckedSane();
    }

    /** Account for the item at index `i`, which has just been unthreaded. */
    method Dropped(ghost i: nat)
      requires i < |Items| == items && next.Length > 0 && Ascending(Items)
      requires Linked(next[..], list, RemovedAt(Items, i))
      modifies this
      ensures Valid() && order == old(order) && disableSquashing == old(disableSquashing)
      ensures forall p :: p in Items <==> p in old(Items) && p != old(Items[i])
    {
      RemoveFacts(Items, i);
      items := items - 1;
      Items := RemovedAt(Items, i);
      var _ := CheckedSane();
    }

    /** Unthread the head of the list. */
    method DropHead()
      requires Valid() && Items != []
      modifies this
      ensures Valid() && order == old(order) && disableSquashing == old(disableSquashing)
      ensures forall p :: p in Items <==> p in old(Items) && p != old(Items[0])
    {
      LinkedRemove(next[..], next[..], list, Items, 0);
      list := next[list];
      Dropped(0);
    }

    /** Unthread `lastLesser`, the item at index `i`, and clear its word. */
    method DropLesser(lastLesser: nat, prelastLesser: nat, ghost i: nat)
      requires Valid() && i < |Items|
      requires lastLesser == Items[i] && prelastLesser == (if i >= 1 then Items[i - 1] else 0)
      modifies this, next
      ensures Valid() && order == old(order) && disableSquashing == old(disableSquashing)
      ensures forall p :: p in Items <==> p in old(Items) && p != old(Items[i])
      ensures forall p :: 0 <= p < next.Length && p !in old(Items) ==> next[p] == old(next[p])
    {
      ghost var before := next[..];
      if prelastLesser != 0 {
        next[prelastLesser] := next[lastLesser];
        next[lastLesser] := 0;
      } else {
        list := next[lastLesser];
        next[lastLesser] := 0;
      }
      LinkedRemove(before, next[..], old(list), Items, i);
      Dropped(i);
    }

    /** Unthread `nextItem`, the item at index `i`, which follows `lastLesser`. */
    method DropNext(lastLesser: nat, nextItem: nat, ghost i: nat)
      requires Valid() && 0 < i < |Items|
      requires lastLesser == Items[i - 1] && nextItem == Items[i]
      modifies this, next
      ensures Valid() && order == old(order) && disableSquashing == old(disableSquashing)
      ensures forall p :: p in Items <==> p in old(Items) && p != old(Items[i])
      ensures forall p :: 0 <= p < next.Length && p !in old(Items) ==> next[p] == old(next[p])
    {
      ghost var before := next[..];
      next[lastLesser] := next[nextItem];
      LinkedRemove(before, next[..], old(list), Items, i);
      Dropped(i);
    }

    /** Put `frame` before the head of the list, or merge it with the head. */
    method SquashHead(frame: nat) returns (squashed: nat)
      requires Valid() && 0 < frame < next.Length && frame !in Items && Items != []
      requires Aligned(frame, order) && forall p :: p in Items ==> Aligned(p, order)
      requires forall j :: 0 <= j < |Items| ==> frame < Items[j]
      modifies this, next
      ensures Valid() && order == old(order) && disableSquashing == old(disableSquashing)
      ensures PutSpec(old(Items), Items, frame, order, true, squashed)
      ensures forall p :: 0 <= p < next.Length && p !in old(Items) && p != frame ==> next[p] == old(next[p])
    {
      PairStart(frame, order);
      LowerBuddy(Items, 0, frame, order);
      UpperBuddy(Items, 0, frame, order);
      if AreConsequent(frame, list, order) && IsTheFirstInBuddy(frame, order) {
        DropHead();
        return frame;
      } else {
        InsertAfter(frame, 0, 0);
        return 0;
      }
    }

    /** Put `frame` between its neighbours, or merge it with the one that is its buddy. */
    method Squash(frame: nat, lastLesser: nat, prelastLesser: nat, ghost i: nat) returns (squashed: nat)
      requires Valid() && 0 < frame < next.Length && frame !in Items && Items != []
      requires Aligned(frame, order) && forall p :: p in Items ==> Aligned(p, order)
      requires i <= |Items|
      requires forall j :: 0 <= j < i ==> Items[j] < frame
      requires forall j :: i <= j < |Items| ==> frame < Items[j]
      requires lastLesser == (if i >= 1 then Items[i - 1] else 0)
      requires prelastLesser == (if i >= 2 then Items[i - 2] else 0)
      modifies this, next
      ensures Valid() && order == old(order) && disableSquashing == old(disableSquashing)
      ensures PutSpec(old(Items), Items, frame, order, true, squashed)
      ensures forall p :: 0 <= p < next.Length && p !in old(Items) && p != frame ==> next[p] == old(next[p])
    {
      if lastLesser == 0 {
        squashed := SquashHead(frame);
        return;
      }

      PairStart(frame, order);
      LowerBuddy(Items, i, frame, order);
      UpperBuddy(Items, i, frame, order);
      var nextItem := next[lastLesser];
      if AreConsequent(lastLesser, frame, order) && IsTheFirstInBuddy(lastLesser, order) {
        DropLesser(lastLesser, prelastLesser, i - 1);
        return lastLesser;
      }

      if AreConsequent(frame, nextItem, order) && IsTheFirstInBuddy(frame, order) {
        DropNext(lastLesser, nextItem, i);
        return frame;
      }

      InsertAfter(frame, lastLesser, i);
      return 0;
    }

    /** Add a block, or take its buddy out and hand back the pair of them. */
    method Put(frame: nat) returns (squashed: nat)
      requires Valid() && 0 < frame < next.Length && frame !in Items
      requires Aligned(frame, order) && forall p :: p in Items ==> Aligned(p, order)
      modifies this, next
      ensures Valid() && order == old(order) && disableSquashing == old(disableSquashing)
      ensures PutSpec(old(Items), Items, frame, order, !disableSquashing, squashed)
      ensures forall p :: 0 <= p < next.Length && p !in old(Items) && p != frame ==> next[p] == old(next[p])
    {
      next[frame] := 0;
      if list == 0 {
        InsertAfter(frame, 0, 0);
        return 0;
      }

      var lastLesser, prelastLesser;
      ghost var i;
      lastLesser, prelastLesser, i := FindLastLesser(frame);
      assert forall j :: i <= j < |Items| ==> Items[j] in Items;
      if disableSquashing {
        InsertAfter(frame, lastLesser, i);
        return 0;
      }
      squashed := Squash(frame, lastLesser, prelastLesser, i);
    }
  }
}
