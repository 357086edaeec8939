/** Page ranges, power-of-two blocks, and the canonical decomposition of a set of free pages. */
module Dyadic {

  /** Largest order of a free list in the buddy system. */
  const MAX_ORDER: nat := 10

  function Pow2(k: nat): (r: nat)
    ensures r >= 1
  {
    if k == 0 then 1 else 2 * Pow2(k - 1)
  }

  /** The `n` consecutive pages that start at page `p`. */
  ghost function Range(p: nat, n: nat): (r: set<nat>)
    ensures forall q :: q in r <==> p <= q < p + n
  {
    if n == 0 then {} else Range(p, n - 1) + {p + n - 1}
  }

  predicate Aligned(p: nat, k: nat) {
    p % Pow2(k) == 0
  }

  /** First page of the order-`k` block that holds page `p`. */
  function Floor(p: nat, k: nat): nat {
    ModAtMost(p, Pow2(k));
    p - p % Pow2(k)
  }

  lemma ModAtMost(p: nat, m: nat)
    requires m > 0
    ensures p % m <= p
  {
    assert p == (p / m) * m + p % m;
  }

  /** The other half of the order-(k+1) block that holds `x`. */
  function Buddy(x: nat, k: nat): nat {
    if Floor(x, k + 1) == x then x + Pow2(k) else Floor(x, k + 1)
  }

  /** Block (p, k) is wholly free and cannot be merged any further. */
  ghost predicate Canonical(free: set<nat>, k: nat, p: nat) {
    && k <= MAX_ORDER
    && Aligned(p, k)
    && Range(p, Pow2(k)) <= free
    && (k < MAX_ORDER ==> !(Range(Floor(p, k + 1), Pow2(k + 1)) <= free))
  }

  // ----- alignment ---------------------------------------------------------

  lemma MulStep(c: nat, q: nat, m: nat)
    requires c < q
    ensures c * m + m <= q * m
  {
    assert (c + 1) * m <= q * m;
  }

  /** A quotient and a small enough remainder are those of Euclidean division. */
  lemma DivModUnique(q: nat, r: nat, m: nat)
    requires r < m
    ensures (q * m + r) % m == r && (q * m + r) / m == q
  {
    var c := (q * m + r) / m;
    assert q * m + r == c * m + (q * m + r) % m;
    if c < q {
      MulStep(c, q, m);
    } else if q < c {
      MulStep(q, c, m);
    }
  }

  lemma FloorFacts(p: nat, k: nat)
    ensures Aligned(Floor(p, k), k) && Floor(p, k) <= p < Floor(p, k) + Pow2(k)
  {
    var m := Pow2(k);
    var q := p / m;
    assert Floor(p, k) == q * m + 0;
    DivModUnique(q, 0, m);
  }

  lemma FloorUnique(p: nat, b: nat, k: nat)
    requires Aligned(b, k) && b <= p < b + Pow2(k)
    ensures Floor(p, k) == b
  {
    var m := Pow2(k);
    assert b == (b / m) * m + 0;
    DivModUnique(b / m, p - b, m);
  }

  lemma AlignedGap(a: nat, b: nat, k: nat)
    requires Aligned(a, k) && Aligned(b, k) && a < b
    ensures a + Pow2(k) <= b
  {
    if b < a + Pow2(k) {
      FloorUnique(b, a, k);
    }
  }

  /** Stepping by whole blocks of an order keeps the alignment. */
  lemma AlignedStep(a: nat, k: nat)
    requires Aligned(a, k)
    ensures Aligned(a + Pow2(k), k)
  {
    var m := Pow2(k);
    var q := a / m;
    assert a == q * m;
    assert a + m == (q + 1) * m;
    DivModUnique(q + 1, 0, m);
  }

  lemma AlignedLower(a: nat, j: nat, k: nat)
    requires j <= k && Aligned(a, k)
    ensures Aligned(a, j)
    decreases k - j
  {
    if j < k {
      var m := Pow2(k - 1);
      var q := a / (2 * m);
      assert a == q * (2 * m);
      assert a == (2 * q) * m;
      DivModUnique(2 * q, 0, m);
      AlignedLower(a, j, k - 1);
    }
  }

  lemma Pow2Mono(j: nat, k: nat)
    requires j <= k
    ensures Pow2(j) <= Pow2(k)
    decreases k - j
  {
    if j < k {
      Pow2Mono(j, k - 1);
    }
  }

  /** Two aligned blocks that share a page are nested. */
  lemma Nested(p: nat, j: nat, q: nat, k: nat, x: nat)
    requires j <= k && Aligned(p, j) && Aligned(q, k)
    requires p <= x < p + Pow2(j) && q <= x < q + Pow2(k)
    ensures q <= p && p + Pow2(j) <= q + Pow2(k)
    decreases k - j
  {
    if j == k {
      FloorUnique(x, p, k);
      FloorUnique(x, q, k);
    } else {
      AlignedLower(q, k - 1, k);
      if x < q + Pow2(k - 1) {
        Nested(p, j, q, k - 1, x);
      } else {
        AlignedStep(q, k - 1);
        Nested(p, j, q + Pow2(k - 1), k - 1, x);
      }
    }
  }

  /** An aligned block and its buddy are the two halves of their parent. */
  lemma BuddyFacts(x: nat, k: nat)
    requires Aligned(x, k)
    ensures Aligned(Buddy(x, k), k) && Aligned(Floor(x, k + 1), k + 1)
    ensures Floor(Buddy(x, k), k + 1) == Floor(x, k + 1)
    ensures Buddy(Buddy(x, k), k) == x
    ensures Buddy(x, k) == x + Pow2(k) || Buddy(x, k) + Pow2(k) == x
    ensures Floor(x, k + 1) == (if x < Buddy(x, k) then x else Buddy(x, k))
    ensures Range(Floor(x, k + 1), Pow2(k + 1)) == Range(x, Pow2(k)) + Range(Buddy(x, k), Pow2(k))
    ensures Range(x, Pow2(k)) !! Range(Buddy(x, k), Pow2(k))
  {
    var h := Floor(x, k + 1);
    FloorFacts(x, k + 1);
    AlignedLower(h, k, k + 1);
    AlignedStep(h, k);
    if x != h {
      AlignedGap(h, x, k);
      if x != h + Pow2(k) {
        AlignedGap(h + Pow2(k), x, k);
      }
    }
    FloorUnique(Buddy(x, k), h, k + 1);
  }

  // ----- how the canonical blocks change -----------------------------------

  /** A canonical block is the largest wholly free aligned block around any of its pages. */
  lemma CanonicalMaximal(free: set<nat>, k: nat, p: nat, j: nat, q: nat, x: nat)
    requires Canonical(free, k, p) && x in Range(p, Pow2(k))
    requires j <= MAX_ORDER && Aligned(q, j) && x in Range(q, Pow2(j)) && Range(q, Pow2(j)) <= free
    ensures j <= k && p <= q && q + Pow2(j) <= p + Pow2(k)
  {
    hide Aligned, Floor, Buddy, Pow2;
    if j <= k {
      Nested(q, j, p, k, x);
    } else {
      var h := Floor(p, k + 1);
      FloorFacts(p, k + 1);
      BuddyFacts(p, k);
      assert x in Range(h, Pow2(k + 1));
      Nested(h, k + 1, q, j, x);
    }
  }

  lemma CanonicalUnique(free: set<nat>, k: nat, p: nat, j: nat, q: nat, x: nat)
    requires Canonical(free, k, p) && x in Range(p, Pow2(k))
    requires Canonical(free, j, q) && x in Range(q, Pow2(j))
    ensures j == k && p == q
  {
    CanonicalMaximal(free, k, p, j, q, x);
    CanonicalMaximal(free, j, q, k, p, x);
  }

  /** Taking a canonical block out leaves every other canonical block as it was. */
  lemma RemoveCanonical(free: set<nat>, k: nat, b: nat, j: nat, p: nat)
    requires Canonical(free, k, b)
    ensures Canonical(free - Range(b, Pow2(k)), j, p) <==> Canonical(free, j, p) && !(j == k && p == b)
  {
    assert b in Range(b, Pow2(k));
    if Canonical(free, j, p) && !(j == k && p == b) {
      forall x | x in Range(p, Pow2(j)) ensures x !in Range(b, Pow2(k)) {
        if x in Range(b, Pow2(k)) {
          CanonicalUnique(free, k, b, j, p, x);
        }
      }
    }
    if Canonical(free - Range(b, Pow2(k)), j, p) {
      RemoveCreatesNone(free, k, b, j, p);
    }
  }

  lemma RemoveCreatesNone(free: set<nat>, k: nat, b: nat, j: nat, p: nat)
    requires Canonical(free, k, b) && Canonical(free - Range(b, Pow2(k)), j, p)
    ensures Canonical(free, j, p)
  {
    hide Aligned, Floor, Pow2;
    assert p in Range(p, Pow2(j));
    if j < MAX_ORDER && Range(Floor(p, j + 1), Pow2(j + 1)) <= free {
      var h := Floor(p, j + 1);
      FloorFacts(p, j + 1);
      var x :| x in Range(h, Pow2(j + 1)) && x !in free - Range(b, Pow2(k));
      CanonicalMaximal(free, k, b, j + 1, h, x);
    }
  }

  /** Adding a block whose buddy is not a canonical block makes exactly that block canonical. */
  lemma AddCanonical(free: set<nat>, k: nat, b: nat, j: nat, p: nat)
    requires k <= MAX_ORDER && Aligned(b, k) && Range(b, Pow2(k)) !! free
    requires k < MAX_ORDER ==> !Canonical(free, k, Buddy(b, k))
    ensures Canonical(free + Range(b, Pow2(k)), j, p) <==> Canonical(free, j, p) || (j == k && p == b)
  {
    ParentNotFree(free, k, b);
    if Canonical(free, j, p) {
      AddKeeps(free, k, b, j, p);
    }
    if Canonical(free + Range(b, Pow2(k)), j, p) {
      AddCreates(free, k, b, j, p);
    }
  }

  lemma AddKeeps(free: set<nat>, k: nat, b: nat, j: nat, p: nat)
    requires k <= MAX_ORDER && Aligned(b, k) && Range(b, Pow2(k)) !! free
    requires k < MAX_ORDER ==> !(Range(Floor(b, k + 1), Pow2(k + 1)) <= free + Range(b, Pow2(k)))
    requires Canonical(free, j, p)
    ensures Canonical(free + Range(b, Pow2(k)), j, p)
  {
    hide Aligned, Floor, Pow2;
    assert p in Range(p, Pow2(j));
    if j < MAX_ORDER {
      FloorFacts(p, j + 1);
      StaysBlocked(free, k, b, j + 1, Floor(p, j + 1), p);
    }
  }

  /** A block with a free page that is not wholly free does not become so. */
  lemma StaysBlocked(free: set<nat>, k: nat, b: nat, j: nat, h: nat, p: nat)
    requires k <= MAX_ORDER && Aligned(b, k) && Range(b, Pow2(k)) !! free
    requires k < MAX_ORDER ==> !(Range(Floor(b, k + 1), Pow2(k + 1)) <= free + Range(b, Pow2(k)))
    requires j <= MAX_ORDER && Aligned(h, j) && !(Range(h, Pow2(j)) <= free) && p in Range(h, Pow2(j)) && p in free
    ensures !(Range(h, Pow2(j)) <= free + Range(b, Pow2(k)))
  {
    if Range(h, Pow2(j)) <= free + Range(b, Pow2(k)) {
      var x :| x in Range(h, Pow2(j)) && x !in free;
      AroundNewBlock(free, k, b, j, h, x);
    }
  }

  lemma AddCreates(free: set<nat>, k: nat, b: nat, j: nat, p: nat)
    requires k <= MAX_ORDER && Aligned(b, k) && Range(b, Pow2(k)) !! free
    requires k < MAX_ORDER ==> !(Range(Floor(b, k + 1), Pow2(k + 1)) <= free + Range(b, Pow2(k)))
    requires Canonical(free + Range(b, Pow2(k)), j, p)
    ensures Canonical(free, j, p) || (j == k && p == b)
  {
    hide Aligned, Floor, Pow2;
    if !(Range(p, Pow2(j)) <= free) {
      var x :| x in Range(p, Pow2(j)) && x !in free;
      AroundNewBlock(free, k, b, j, p, x);
      if j < k {
        FloorFacts(p, j + 1);
        Nested(Floor(p, j + 1), j + 1, b, k, p);
      }
    }
  }

  /** Without a canonical buddy, the parent of a new block does not become free. */
  lemma ParentNotFree(free: set<nat>, k: nat, b: nat)
    requires k <= MAX_ORDER && Aligned(b, k) && Range(b, Pow2(k)) !! free
    requires k < MAX_ORDER ==> !Canonical(free, k, Buddy(b, k))
    ensures k < MAX_ORDER ==> !(Range(Floor(b, k + 1), Pow2(k + 1)) <= free + Range(b, Pow2(k)))
  {
    if k < MAX_ORDER {
      BuddyFacts(b, k);
      assert b in Range(b, Pow2(k));
      assert b in Range(Floor(b, k + 1), Pow2(k + 1));
    }
  }

  /** A wholly free aligned block that uses a page of the new block lies inside the new block. */
  lemma AroundNewBlock(free: set<nat>, k: nat, b: nat, j: nat, p: nat, x: nat)
    requires k <= MAX_ORDER && Aligned(b, k)
    requires k < MAX_ORDER ==> !(Range(Floor(b, k + 1), Pow2(k + 1)) <= free + Range(b, Pow2(k)))
    requires j <= MAX_ORDER && Aligned(p, j) && Range(p, Pow2(j)) <= free + Range(b, Pow2(k))
    requires x in Range(p, Pow2(j)) && x !in free
    ensures j <= k && b <= p && p + Pow2(j) <= b + Pow2(k)
  {
    hide Aligned, Floor, Buddy, Pow2;
    assert x in Range(b, Pow2(k));
    if j <= k {
      Nested(p, j, b, k, x);
    } else {
      BuddyFacts(b, k);
      Nested(Floor(b, k + 1), k + 1, p, j, x);
    }
  }

  /** Every wholly free aligned block lies inside a canonical block. */
  lemma {:induction false} Cover(free: set<nat>, q: nat, j: nat) returns (p: nat, k: nat)
    requires j <= MAX_ORDER && Aligned(q, j) && Range(q, Pow2(j)) <= free
    ensures j <= k && Canonical(free, k, p) && Range(q, Pow2(j)) <= Range(p, Pow2(k))
    decreases MAX_ORDER - j
  {
    BuddyFacts(q, j);
    if j < MAX_ORDER && Range(Floor(q, j + 1), Pow2(j + 1)) <= free {
      p, k := Cover(free, Floor(q, j + 1), j + 1);
    } else {
      p, k := q, j;
    }
  }
}
