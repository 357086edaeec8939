/** Which block the buddy system hands out, as a function of the free pages alone. */
module PageGrants {
  import opened Dyadic

  /** Order of the smallest power-of-two block that holds `n` pages. */
  function NeededOrder(n: nat): (o: nat)
    ensures n <= Pow2(o) && (o > 0 ==> Pow2(o - 1) < n)
  {
    if n <= 1 then 0 else 1 + NeededOrder((n + 1) / 2)
  }

  lemma NeededOrderIs(n: nat, o: nat)
    requires n <= Pow2(o) && (o > 0 ==> Pow2(o - 1) < n)
    ensures NeededOrder(n) == o
  {
    if NeededOrder(n) < o {
      Pow2Mono(NeededOrder(n), o - 1);
    } else if o < NeededOrder(n) {
      Pow2Mono(o, NeededOrder(n) - 1);
    }
  }

  ghost predicate HasBlock(free: set<nat>, k: nat) {
    exists p: nat :: Canonical(free, k, p)
  }

  ghost predicate Lowest(free: set<nat>, k: nat, p: nat) {
    Canonical(free, k, p) && forall q: nat :: Canonical(free, k, q) ==> p <= q
  }

  /** No order that is large enough for `n` pages, and below `k`, has a block. */
  ghost predicate NoneBelow(free: set<nat>, n: nat, k: nat) {
    forall j: nat :: NeededOrder(n) <= j < k ==> !HasBlock(free, j)
  }

  /** Block (p, k) is the lowest one of the smallest sufficient order that has any. */
  ghost predicate Grants(free: set<nat>, n: nat, p: nat, k: nat) {
    NeededOrder(n) <= k && NoneBelow(free, n, k) && Lowest(free, k, p)
  }

  /** First page of the block handed out for `n` pages; 0 when there is none. */
  ghost function Grant(free: set<nat>, n: nat): nat {
    if exists p: nat, k: nat :: Grants(free, n, p, k) then
      var p: nat, k: nat :| Grants(free, n, p, k);
      p
    else 0
  }

  lemma GrantsUnique(free: set<nat>, n: nat, p: nat, k: nat, p': nat, k': nat)
    requires Grants(free, n, p, k) && Grants(free, n, p', k')
    ensures p == p' && k == k'
  {
    assert HasBlock(free, k) && HasBlock(free, k');
  }

  lemma GrantIs(free: set<nat>, n: nat, p: nat, k: nat)
    requires Grants(free, n, p, k)
    ensures Grant(free, n) == p
  {
    forall p': nat, k': nat | Grants(free, n, p', k') ensures p' == p {
      GrantsUnique(free, n, p, k, p', k');
    }
  }

  lemma NoGrant(free: set<nat>, n: nat)
    requires NoneBelow(free, n, MAX_ORDER + 1)
    ensures Grant(free, n) == 0
  {
    forall p: nat, k: nat ensures !Grants(free, n, p, k) {
      if Grants(free, n, p, k) {
        assert HasBlock(free, k);
      }
    }
  }

  lemma {:induction false} LowestExists(free: set<nat>, k: nat, p: nat) returns (q: nat)
    requires Canonical(free, k, p)
    ensures Lowest(free, k, q)
    decreases p
  {
    if Lowest(free, k, p) {
      q := p;
    } else {
      var p': nat :| Canonical(free, k, p') && p' < p;
      q := LowestExists(free, k, p');
    }
  }

  /** Some order from `o` up has a block: the smallest such order grants one. */
  lemma {:induction false} GrantFrom(free: set<nat>, n: nat, o: nat) returns (p: nat, k: nat)
    requires NeededOrder(n) <= o && NoneBelow(free, n, o)
    requires !NoneBelow(free, n, MAX_ORDER + 1)
    ensures Grants(free, n, p, k)
    decreases MAX_ORDER + 1 - o
  {
    if HasBlock(free, o) {
      var q: nat :| Canonical(free, o, q);
      p := LowestExists(free, o, q);
      k := o;
    } else {
      p, k := GrantFrom(free, n, o + 1);
    }
  }

  lemma SomeBlock(free: set<nat>, n: nat, q: nat)
    requires NeededOrder(n) <= MAX_ORDER && Aligned(q, NeededOrder(n)) && Range(q, Pow2(NeededOrder(n))) <= free
    ensures !NoneBelow(free, n, MAX_ORDER + 1)
  {
    var p, k := Cover(free, q, NeededOrder(n));
    assert HasBlock(free, k);
  }

  /** The largest blocks have 1024 pages. */
  lemma LargestBlock(n: nat)
    ensures Pow2(MAX_ORDER) == 1024 && (NeededOrder(n) <= MAX_ORDER <==> n <= 1024)
  {
    assert Pow2(5) == 32;
    assert Pow2(10) == 32 * Pow2(5);
    if NeededOrder(n) <= MAX_ORDER {
      Pow2Mono(NeededOrder(n), MAX_ORDER);
    } else {
      Pow2Mono(MAX_ORDER, NeededOrder(n) - 1);
    }
  }

  /** With an aligned run of 1024 free pages every request for up to 1024 pages is met, and no larger one ever is. */
  lemma GrantsUpTo1024(free: set<nat>, q: nat, n: nat)
    requires 0 !in free && q % 1024 == 0 && Range(q, 1024) <= free
    ensures Grant(free, n) != 0 <==> n <= 1024
  {
    LargestBlock(n);
    GrantComplete(free, n);
    if n <= 1024 {
      AlignedLower(q, NeededOrder(n), MAX_ORDER);
      Pow2Mono(NeededOrder(n), MAX_ORDER);
      assert Aligned(q, NeededOrder(n)) && Range(q, Pow2(NeededOrder(n))) <= Range(q, 1024);
    }
  }

  /**
   * A request is met exactly when a wholly free, aligned block of the needed power of two, of at most 1024 pages,
   * exists; what is handed out is aligned to that power and is wholly free.
   */
  lemma GrantComplete(free: set<nat>, n: nat)
    requires 0 !in free
    ensures Grant(free, n) != 0 <==>
      exists q: nat :: n <= 1024 && Aligned(q, NeededOrder(n)) && Range(q, Pow2(NeededOrder(n))) <= free
    ensures Grant(free, n) != 0 ==>
      Aligned(Grant(free, n), NeededOrder(n)) && Range(Grant(free, n), Pow2(NeededOrder(n))) <= free
    ensures Grant(free, n) != 0 ==> Range(Grant(free, n), n) <= free
  {
    var o := NeededOrder(n);
    LargestBlock(n);
    if NoneBelow(free, n, MAX_ORDER + 1) {
      NoGrant(free, n);
      forall q: nat | n <= 1024 && Aligned(q, o) && Range(q, Pow2(o)) <= free ensures false {
        SomeBlock(free, n, q);
      }
    } else {
      var p, k := GrantFrom(free, n, o);
      GrantIs(free, n, p, k);
      assert p in Range(p, Pow2(k));
      AlignedLower(p, o, k);
      Pow2Mono(o, k);
      assert Range(p, Pow2(o)) <= free;
    }
  }
}
