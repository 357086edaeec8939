/** Walking the `next` words of pages: null-terminated and cyclic chains. Page 0 is the null pointer. */
module ListGraph {
  import opened Dyadic

  function Follow(next: seq<nat>, p: nat): nat {
    if 0 < p < |next| then next[p] else 0
  }

  /** The item reached after `n` steps; null stays null. */
  ghost function Iter(next: seq<nat>, head: nat, n: nat): nat {
    if n == 0 then head else Follow(next, Iter(next, head, n - 1))
  }

  /** Every item reached is a page of memory. */
  ghost predicate Closed(next: seq<nat>, head: nat) {
    forall n: nat :: Iter(next, head, n) < |next|
  }

  /** The chain never reaches null. */
  ghost predicate Cyclic(next: seq<nat>, head: nat) {
    forall n: nat :: Iter(next, head, n) != 0
  }

  /** The chain reaches null after exactly `n` items. */
  ghost predicate HasLength(next: seq<nat>, head: nat, n: nat) {
    && Iter(next, head, n) == 0
    && forall m: nat :: m < n ==> Iter(next, head, m) != 0
  }

  lemma {:induction false} NullStays(next: seq<nat>, head: nat, n: nat, d: nat)
    requires Iter(next, head, n) == 0
    ensures Iter(next, head, n + d) == 0
    decreases d
  {
    if d > 0 {
      NullStays(next, head, n, d - 1);
    }
  }

  lemma {:induction false} Period(next: seq<nat>, head: nat, i: nat, d: nat, m: nat)
    requires Iter(next, head, i) == Iter(next, head, i + d) && i <= m
    ensures Iter(next, head, m) == Iter(next, head, m + d)
    decreases m
  {
    if i < m {
      Period(next, head, i, d, m - 1);
    }
  }

  lemma {:induction false} Periods(next: seq<nat>, head: nat, i: nat, d: nat, m: nat, t: nat)
    requires Iter(next, head, i) == Iter(next, head, i + d) && i <= m
    ensures Iter(next, head, m) == Iter(next, head, m + t * d)
    decreases t
  {
    if t > 0 {
      Periods(next, head, i, d, m, t - 1);
      Period(next, head, i, d, m + (t - 1) * d);
      assert m + (t - 1) * d + d == m + t * d;
    }
  }

  lemma MulAtLeast(a: nat, d: nat)
    requires d > 0
    ensures a * d >= a
  {
    assert a * d == a + a * (d - 1);
  }

  /** Reaching an item again means that null is never reached. */
  lemma RevisitIsCyclic(next: seq<nat>, head: nat, i: nat, d: nat)
    requires d > 0 && Iter(next, head, i) == Iter(next, head, i + d) != 0
    ensures Cyclic(next, head)
  {
    forall n: nat ensures Iter(next, head, n) != 0 {
      if Iter(next, head, n) == 0 {
        Periods(next, head, i, d, i, n);
        MulAtLeast(n, d);
        NullStays(next, head, n, i + n * d - n);
      }
    }
  }

  // ----- a walk through finitely many pages revisits one --------------------

  lemma {:induction false} SubsetSize(a: set<nat>, b: set<nat>)
    requires a <= b
    ensures |a| <= |b|
  {
    if a != {} {
      var x :| x in a;
      SubsetSize(a - {x}, b - {x});
    }
  }

  lemma {:induction false} RangeSize(p: nat, n: nat)
    ensures |Range(p, n)| == n
  {
    if n > 0 {
      RangeSize(p, n - 1);
    }
  }

  ghost predicate Visited(next: seq<nat>, head: nat, n: nat, p: nat) {
    exists m: nat :: m < n && Iter(next, head, m) == p
  }

  /** Either the first `n` items are all different or one of them repeats. */
  lemma {:induction false} RepeatOrSpread(next: seq<nat>, head: nat, n: nat) returns (i: nat, j: nat, seen: set<nat>)
    ensures (i < j < n && Iter(next, head, i) == Iter(next, head, j))
         || (|seen| == n && forall p :: p in seen ==> Visited(next, head, n, p))
  {
    if n == 0 {
      i, j, seen := 0, 0, {};
    } else {
      i, j, seen := RepeatOrSpread(next, head, n - 1);
      if !(i < j < n - 1 && Iter(next, head, i) == Iter(next, head, j)) {
        var p := Iter(next, head, n - 1);
        if p in seen {
          i :| i < n - 1 && Iter(next, head, i) == p;
          j := n - 1;
        } else {
          var before := seen;
          seen := before + {p};
          forall q | q in seen ensures Visited(next, head, n, q) {
            if q != p {
              assert Visited(next, head, n - 1, q);
              var m: nat :| m < n - 1 && Iter(next, head, m) == q;
            }
          }
        }
      }
    }
  }

  /** The step at which two walkers, one twice as fast, meet or the slow one falls off the end. */
  lemma MeetingPoint(next: seq<nat>, head: nat) returns (m: nat)
    requires Closed(next, head)
    ensures m >= 1 && (Iter(next, head, m) == 0 || Iter(next, head, m) == Iter(next, head, 2 * m))
  {
    var i, j, seen := RepeatOrSpread(next, head, |next| + 1);
    if !(i < j < |next| + 1 && Iter(next, head, i) == Iter(next, head, j)) {
      forall p | p in seen ensures p in Range(0, |next|) {
        assert Visited(next, head, |next| + 1, p);
      }
      SubsetSize(seen, Range(0, |next|));
      RangeSize(0, |next|);
      assert false;
    }
    var d := j - i;
    m := (i + 1) * d;
    MulAtLeast(i + 1, d);
    Periods(next, head, i, d, m, i + 1);
  }

  // ----- chains that spell out a sequence -----------------------------------

  function At(s: seq<nat>, i: nat): nat {
    if i < |s| then s[i] else 0
  }

  /** The chain from `head` is `s`, all of it pages of memory. */
  ghost predicate Linked(next: seq<nat>, head: nat, s: seq<nat>) {
    && head == At(s, 0)
    && (forall i :: 0 <= i < |s| ==> 0 < s[i] < |next|)
    && (forall i {:trigger next[s[i]]} :: 0 <= i < |s| ==> next[s[i]] == At(s, i + 1))
  }

  lemma {:induction false} LinkedIter(next: seq<nat>, head: nat, s: seq<nat>, n: nat)
    requires Linked(next, head, s)
    ensures Iter(next, head, n) == At(s, n)
  {
    if n > 0 {
      LinkedIter(next, head, s, n - 1);
    }
  }

  lemma LinkedIsSound(next: seq<nat>, head: nat, s: seq<nat>)
    requires Linked(next, head, s) && |next| > 0
    ensures Closed(next, head) && !Cyclic(next, head) && HasLength(next, head, |s|)
  {
    forall n: nat ensures Iter(next, head, n) == At(s, n) {
      LinkedIter(next, head, s, n);
    }
    assert Iter(next, head, |s|) == 0;
  }

  /** A chain is unharmed by writes to the words of other pages. */
  lemma LinkedFrame(next: seq<nat>, next': seq<nat>, head: nat, s: seq<nat>)
    requires Linked(next, head, s) && |next| == |next'|
    requires forall p :: p in s && p < |next| ==> next'[p] == next[p]
    ensures Linked(next', head, s)
  {
    forall i | 0 <= i < |s| ensures next'[s[i]] == At(s, i + 1) {
      assert s[i] in s;
    }
  }
}
