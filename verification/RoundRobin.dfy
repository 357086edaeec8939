/** What consecutive scheduling passes do to the ring order, for tasks of any kind. */
module RoundRobin {

  /** The sequence without the members of a set. */
  ghost function Without<T>(s: seq<T>, dead: set<T>): seq<T> {
    if s == [] then []
    else if s[0] in dead then Without(s[1..], dead)
    else [s[0]] + Without(s[1..], dead)
  }

  lemma {:induction false} WithoutHas<T>(s: seq<T>, dead: set<T>, t: T)
    ensures t in Without(s, dead) <==> t in s && t !in dead
  {
    if s != [] {
      WithoutHas(s[1..], dead, t);
      assert s == [s[0]] + s[1..];
    }
  }

  ghost function Members<T>(s: seq<T>): set<T> {
    set t | t in s
  }

  lemma MembersConcat<T>(a: seq<T>, b: seq<T>)
    ensures Members(a + b) == Members(a) + Members(b)
  {
  }

  lemma MembersPush<T>(s: seq<T>, i: nat)
    requires i < |s|
    ensures Members(s[..i + 1]) == Members(s[..i]) + {s[i]}
  {
    assert s[..i + 1] == s[..i] + [s[i]];
  }

  lemma ConcatAssoc<T>(a: seq<T>, b: seq<T>, c: seq<T>)
    ensures a + (b + c) == a + b + c
  {
  }

  lemma PrefixGrows<T>(log: seq<T>, s: seq<T>, i: nat, j: nat)
    requires i <= j <= |s|
    ensures log + s[..i] + s[i..j] == log + s[..j]
  {
    assert s[..i] + s[i..j] == s[..j];
  }

  ghost predicate NoRepeats<T>(s: seq<T>) {
    forall i, j :: 0 <= i < j < |s| ==> s[i] != s[j]
  }

  lemma {:induction false} WithoutConcat<T>(a: seq<T>, b: seq<T>, dead: set<T>)
    ensures Without(a + b, dead) == Without(a, dead) + Without(b, dead)
  {
    if a == [] {
      assert a + b == b;
    } else {
      assert (a + b)[1..] == a[1..] + b;
      WithoutConcat(a[1..], b, dead);
    }
  }

  lemma {:induction false} WithoutNone<T>(s: seq<T>, dead: set<T>)
    requires forall t :: t in s ==> t !in dead
    ensures Without(s, dead) == s
  {
    if s != [] {
      WithoutNone(s[1..], dead);
    }
  }

  /** Taking members out in two rounds or in one is the same. */
  lemma {:induction false} WithoutTwice<T>(s: seq<T>, a: set<T>, b: set<T>)
    ensures Without(Without(s, a), b) == Without(s, a + b)
  {
    if s != [] {
      WithoutTwice(s[1..], a, b);
      if s[0] !in a {
        assert Without(s, a)[1..] == Without(s[1..], a);
      }
    }
  }

  /** Taking one member of a sequence without repeats out is cutting at its index. */
  lemma WithoutOne<T>(s: seq<T>, k: nat)
    requires k < |s| && NoRepeats(s)
    ensures Without(s, {s[k]}) == s[..k] + s[k + 1..]
  {
    assert s == s[..k] + ([s[k]] + s[k + 1..]);
    WithoutConcat(s[..k], [s[k]] + s[k + 1..], {s[k]});
    WithoutConcat([s[k]], s[k + 1..], {s[k]});
    WithoutNone(s[..k], {s[k]});
    WithoutNone(s[k + 1..], {s[k]});
  }

  /**
   * A history of passes: pass `i` switches to the tasks of `rings[i]` in order; then the new tasks stand in
   * front, and the tasks that exited are gone.
   */
  datatype History<T> = History(rings: seq<seq<T>>, created: seq<seq<T>>, dead: seq<set<T>>)

  ghost predicate WellFormed<T>(h: History<T>) {
    && |h.rings| == |h.created| + 1 == |h.dead| + 1
    && (forall i :: 0 <= i < |h.rings| ==> NoRepeats(h.rings[i]))
    && (forall i :: 0 <= i < |h.created| ==> h.rings[i + 1] == h.created[i] + Without(h.rings[i], h.dead[i]))
    && (forall i, j, t :: 0 <= j <= i < |h.created| && t in h.created[i] ==> t !in h.rings[j])
  }

  /** A history with one more pass. */
  ghost function Extended<T>(h: History<T>, created: seq<T>, dead: set<T>): History<T>
    requires h.rings != []
  {
    var last := h.rings[|h.rings| - 1];
    History(h.rings + [created + Without(last, dead)], h.created + [created], h.dead + [dead])
  }

  ghost function Flatten<T>(ss: seq<seq<T>>): seq<T> {
    if ss == [] then [] else Flatten(ss[..|ss| - 1]) + ss[|ss| - 1]
  }

  lemma ExtendedWellFormed<T>(h: History<T>, created: seq<T>, dead: set<T>)
    requires WellFormed(h) && NoRepeats(created + Without(h.rings[|h.rings| - 1], dead))
    requires forall j, t :: 0 <= j < |h.rings| && t in created ==> t !in h.rings[j]
    ensures WellFormed(Extended(h, created, dead))
    ensures Flatten(Extended(h, created, dead).rings[..|h.rings|])
         == Flatten(h.rings[..|h.rings| - 1]) + h.rings[|h.rings| - 1]
  {
    var e := Extended(h, created, dead);
    assert e.rings[..|h.rings|] == h.rings;
  }

  /** A task that is switched to in two passes is switched to in every pass between them. */
  lemma {:induction false} NoGap<T>(h: History<T>, i: nat, m: nat, j: nat, t: T)
    requires WellFormed(h) && i <= m <= j < |h.rings| && t in h.rings[i] && t in h.rings[j]
    ensures t in h.rings[m]
    decreases j - m
  {
    if m < j {
      NoGap(h, i, m + 1, j, t);
      WithoutHas(h.rings[m], h.dead[m], t);
    }
  }

  lemma {:induction false} CountOnce<T>(s: seq<T>, u: T)
    requires NoRepeats(s)
    ensures multiset(s)[u] == if u in s then 1 else 0
  {
    if s != [] {
      CountOnce(s[1..], u);
      assert s == [s[0]] + s[1..];
      assert multiset(s) == multiset{s[0]} + multiset(s[1..]);
    }
  }

  /** The parts of a sequence without repeats around an index share no member. */
  lemma SplitMembers<T>(s: seq<T>, k: nat, u: T)
    requires NoRepeats(s) && k < |s| && u in s && u != s[k]
    ensures u in s[..k] <==> u !in s[k + 1..]
  {
    assert s == s[..k] + [s[k]] + s[k + 1..];
  }

  lemma MiddleIndex<T>(a: seq<T>, x: T, b: seq<T>, q: nat)
    requires NoRepeats(a + [x] + b) && q < |a + [x] + b| && (a + [x] + b)[q] == x
    ensures q == |a| && (a + [x] + b)[..q] == a && (a + [x] + b)[q + 1..] == b
  {
    assert (a + [x] + b)[|a|] == x;
  }

  lemma WithoutAt<T>(r: seq<T>, p: nat, dead: set<T>)
    requires p < |r| && r[p] !in dead
    ensures Without(r, dead) == Without(r[..p], dead) + [r[p]] + Without(r[p + 1..], dead)
  {
    assert r == r[..p] + ([r[p]] + r[p + 1..]);
    WithoutConcat(r[..p], [r[p]] + r[p + 1..], dead);
    WithoutConcat([r[p]], r[p + 1..], dead);
  }

  /** Where the survivors of a pass stand in the next ring. */
  lemma NextRing<T>(r: seq<T>, p: nat, created: seq<T>, dead: set<T>, q: nat)
    requires NoRepeats(r) && p < |r| && NoRepeats(created + Without(r, dead))
    requires r[p] !in created && q < |created + Without(r, dead)| && (created + Without(r, dead))[q] == r[p]
    ensures (created + Without(r, dead))[..q] == created + Without(r[..p], dead)
    ensures (created + Without(r, dead))[q + 1..] == Without(r[p + 1..], dead)
  {
    var next := created + Without(r, dead);
    assert next[q] in next;
    WithoutHas(r, dead, r[p]);
    WithoutAt(r, p, dead);
    assert next == (created + Without(r[..p], dead)) + [r[p]] + Without(r[p + 1..], dead);
    MiddleIndex(created + Without(r[..p], dead), r[p], Without(r[p + 1..], dead), q);
  }

  /** Another task of the next ring is either behind `r[p]` in this pass or before it in the next. */
  lemma EitherSide<T>(r: seq<T>, p: nat, created: seq<T>, dead: set<T>, q: nat, u: T)
    requires NoRepeats(r) && p < |r| && NoRepeats(created + Without(r, dead))
    requires forall t :: t in created ==> t !in r
    requires q < |created + Without(r, dead)| && (created + Without(r, dead))[q] == r[p]
    requires u in created + Without(r, dead) && u != r[p]
    ensures u in r[p + 1..] <==> u !in (created + Without(r, dead))[..q]
  {
    NextRing(r, p, created, dead, q);
    SplitMembers(created + Without(r, dead), q, u);
    WithoutHas(r[..p], dead, u);
    WithoutHas(r[p + 1..], dead, u);
    WithoutHas(r, dead, u);
    if u in r {
      SplitMembers(r, p, u);
    }
  }

  /**
   * Strict alternation. Between the run of a task in one pass and its run in the next, every other task that
   * the next pass switches to runs exactly once.
   */
  lemma StrictAlternation<T>(h: History<T>, i: nat, p: nat, q: nat, u: T)
    requires WellFormed(h) && i + 1 < |h.rings|
    requires p < |h.rings[i]| && q < |h.rings[i + 1]| && h.rings[i][p] == h.rings[i + 1][q]
    requires u in h.rings[i + 1] && u != h.rings[i][p]
    ensures multiset(h.rings[i][p + 1..] + h.rings[i + 1][..q])[u] == 1
  {
    var after, before := h.rings[i][p + 1..], h.rings[i + 1][..q];
    EitherSide(h.rings[i], p, h.created[i], h.dead[i], q, u);
    CountOnce(after, u);
    CountOnce(before, u);
    assert multiset(after + before)[u] == multiset(after)[u] + multiset(before)[u];
  }

  // ----- the log of all turns ------------------------------------------------------

  /** Entry `x` of the log is the turn of the task at place `p` of pass `i`. */
  ghost predicate TurnAt<T>(rings: seq<seq<T>>, x: nat, i: nat, p: nat) {
    i < |rings| && p < |rings[i]| && x == |Flatten(rings[..i])| + p
  }

  lemma {:induction false} FlattenPrefix<T>(ss: seq<seq<T>>, k: nat)
    requires k <= |ss|
    ensures |Flatten(ss[..k])| <= |Flatten(ss)|
    ensures Flatten(ss)[..|Flatten(ss[..k])|] == Flatten(ss[..k])
  {
    if k == |ss| {
      assert ss[..k] == ss;
    } else {
      var front := ss[..|ss| - 1];
      FlattenPrefix(front, k);
      assert front[..k] == ss[..k];
    }
  }

  lemma FlattenPush<T>(ss: seq<seq<T>>, i: nat)
    requires i < |ss|
    ensures Flatten(ss[..i + 1]) == Flatten(ss[..i]) + ss[i]
  {
    assert ss[..i + 1][..i] == ss[..i];
  }

  lemma ReadTurn<T>(rings: seq<seq<T>>, x: nat, i: nat, p: nat)
    requires TurnAt(rings, x, i, p)
    ensures x < |Flatten(rings)| && Flatten(rings)[x] == rings[i][p]
  {
    FlattenPush(rings, i);
    FlattenPrefix(rings, i + 1);
    assert Flatten(rings)[x] == Flatten(rings)[..|Flatten(rings[..i + 1])|][x];
  }

  /** Every entry of the log is a turn of some pass. */
  lemma {:induction false} FindTurn<T>(rings: seq<seq<T>>, x: nat) returns (i: nat, p: nat)
    requires x < |Flatten(rings)|
    ensures TurnAt(rings, x, i, p) && Flatten(rings)[x] == rings[i][p]
    decreases |rings|
  {
    var front := rings[..|rings| - 1];
    if x < |Flatten(front)| {
      i, p := FindTurn(front, x);
      assert front[..i] == rings[..i];
    } else {
      i, p := |rings| - 1, x - |Flatten(front)|;
    }
    ReadTurn(rings, x, i, p);
  }

  /** Turns of an earlier pass come first. */
  lemma EarlierPass<T>(rings: seq<seq<T>>, x: nat, i: nat, p: nat, y: nat, j: nat, q: nat)
    requires TurnAt(rings, x, i, p) && TurnAt(rings, y, j, q) && i < j
    ensures x < y
  {
    FlattenPush(rings, i);
    FlattenPrefix(rings[..j], i + 1);
    assert rings[..j][..i + 1] == rings[..i + 1];
  }

  /** The log between turns of neighbouring passes. */
  lemma LogBetween<T>(rings: seq<seq<T>>, x: nat, i: nat, p: nat, y: nat, q: nat)
    requires TurnAt(rings, x, i, p) && TurnAt(rings, y, i + 1, q)
    ensures x < y < |Flatten(rings)| && Flatten(rings)[x + 1..y] == rings[i][p + 1..] + rings[i + 1][..q]
  {
    var start, a, b := Flatten(rings[..i]), rings[i], rings[i + 1];
    FlattenPush(rings, i);
    FlattenPush(rings, i + 1);
    FlattenPrefix(rings, i + 2);
    assert Flatten(rings[..i + 2]) == start + a + b;
    assert Flatten(rings)[x + 1..y] == (start + a + b)[x + 1..y];
    assert (start + a + b)[x + 1..y] == a[p + 1..] + b[..q];
  }

  /** Two turns of one task with no turn of it between them. */
  ghost predicate Consecutive<T>(log: seq<T>, x: nat, y: nat) {
    x < y < |log| && log[x] == log[y] && log[x] !in log[x + 1..y]
  }

  /** Consecutive turns of a task are turns of neighbouring passes. */
  lemma NeighbouringPasses<T>(h: History<T>, n: nat, x: nat, i: nat, p: nat, y: nat, j: nat, q: nat)
    requires WellFormed(h) && n <= |h.rings| && Consecutive(Flatten(h.rings[..n]), x, y)
    requires TurnAt(h.rings[..n], x, i, p) && TurnAt(h.rings[..n], y, j, q)
    ensures j == i + 1
  {
    var rings := h.rings[..n];
    var log := Flatten(rings);
    ReadTurn(rings, x, i, p);
    ReadTurn(rings, y, j, q);
    assert NoRepeats(h.rings[i]);
    hide Flatten, Without;
    if j < i {
      EarlierPass(rings, y, j, q, x, i, p);
    } else if j > i + 1 {
      NoGap(h, i, i + 1, j, log[x]);
      var r: nat :| r < |rings[i + 1]| && rings[i + 1][r] == log[x];
      var z := |Flatten(rings[..i + 1])| + r;
      ReadTurn(rings, z, i + 1, r);
      EarlierPass(rings, x, i, p, z, i + 1, r);
      EarlierPass(rings, z, i + 1, r, y, j, q);
    }
  }

  /**
   * Strict alternation in the log. Between two consecutive turns of a task every other task that is in the ring
   * when the pass of the second one begins has exactly one turn.
   */
  lemma AlternationInLog<T>(h: History<T>, n: nat, x: nat, y: nat, j: nat, q: nat, u: T)
    requires WellFormed(h) && n <= |h.rings| && Consecutive(Flatten(h.rings[..n]), x, y)
    requires TurnAt(h.rings[..n], y, j, q) && u in h.rings[j] && u != Flatten(h.rings[..n])[x]
    ensures multiset(Flatten(h.rings[..n])[x + 1..y])[u] == 1
  {
    var rings := h.rings[..n];
    var i, p := FindTurn(rings, x);
    ReadTurn(rings, y, j, q);
    NeighbouringPasses(h, n, x, i, p, y, j, q);
    LogBetween(rings, x, i, p, y, q);
    StrictAlternation(h, i, p, q, u);
  }

  /** Between consecutive turns of a task every other one with turns before and after has exactly one. */
  ghost predicate Alternates<T>(log: seq<T>) {
    forall x: nat, y: nat, v: nat ::
      Consecutive(log, x, y) && v < x && log[v] != log[x] && log[v] in log[y + 1..] ==>
        multiset(log[x + 1..y])[log[v]] == 1
  }

  /** A task with turns before and after turn `y` is in the ring of the pass that `y` belongs to. */
  lemma AliveThroughout<T>(h: History<T>, n: nat, v: nat, y: nat, j: nat, q: nat)
    requires WellFormed(h) && n <= |h.rings| && v < y < |Flatten(h.rings[..n])|
    requires TurnAt(h.rings[..n], y, j, q)
    requires Flatten(h.rings[..n])[v] in Flatten(h.rings[..n])[y + 1..]
    ensures Flatten(h.rings[..n])[v] in h.rings[j]
  {
    var rings := h.rings[..n];
    var log := Flatten(rings);
    var k: nat :| k < |log[y + 1..]| && log[y + 1..][k] == log[v];
    var w := y + 1 + k;
    assert log[w] == log[v];
    var i0, p0 := FindTurn(rings, v);
    var j0, q0 := FindTurn(rings, w);
    if j < i0 {
      EarlierPass(rings, y, j, q, v, i0, p0);
    } else if j0 < j {
      EarlierPass(rings, w, j0, q0, y, j, q);
    } else {
      NoGap(h, i0, j, j0, log[v]);
    }
  }

  lemma LogAlternates<T>(h: History<T>, n: nat)
    requires WellFormed(h) && n <= |h.rings|
    ensures Alternates(Flatten(h.rings[..n]))
  {
    var log := Flatten(h.rings[..n]);
    forall x: nat, y: nat, v: nat |
      Consecutive(log, x, y) && v < x && log[v] != log[x] && log[v] in log[y + 1..]
      ensures multiset(log[x + 1..y])[log[v]] == 1
    {
      var j, q := FindTurn(h.rings[..n], y);
      AliveThroughout(h, n, v, y, j, q);
      AlternationInLog(h, n, x, y, j, q, log[v]);
    }
  }
}
