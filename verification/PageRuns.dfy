/** Runs of page allocations and releases, over the free pages and the live blocks alone. */
module PageRuns {
  import opened Dyadic
  import opened PageGrants

  /** Free pages, and the size of every block that is handed out, by its first page. */
  datatype Pages = Pages(free: set<nat>, live: map<nat, nat>)

  /** `n` pages are handed out if the buddy system grants them. */
  ghost function Allocated(s: Pages, n: nat): Pages {
    var p := Grant(s.free, n);
    if n == 0 || p == 0 then s else Pages(s.free - Range(p, n), s.live[p := n])
  }

  /** The live block that starts at page `p` goes back. */
  ghost function Released(s: Pages, p: nat): Pages
    requires p in s.live
  {
    Pages(s.free + Range(p, s.live[p]), s.live - {p})
  }

  ghost predicate InLive(live: map<nat, nat>, q: nat) {
    exists p :: p in live && q in Range(p, live[p])
  }

  /** Live blocks are not empty and share no page. */
  ghost predicate Separate(live: map<nat, nat>) {
    && (forall p :: p in live ==> live[p] > 0)
    && (forall p, q :: p in live && q in live && p != q ==> Range(p, live[p]) !! Range(q, live[q]))
  }

  /** Live blocks and free pages tile the managed pages, without overlap. */
  ghost predicate Tiled(s: Pages, managed: set<nat>) {
    && 0 !in managed
    && Separate(s.live)
    && (forall q :: q in s.free ==> q in managed && !InLive(s.live, q))
    && (forall q :: InLive(s.live, q) ==> q in managed)
    && (forall q :: q in managed ==> q in s.free || InLive(s.live, q))
  }

  lemma InLiveAdd(live: map<nat, nat>, p: nat, n: nat, q: nat)
    requires p !in live
    ensures InLive(live[p := n], q) <==> q in Range(p, n) || InLive(live, q)
  {
    var more := live[p := n];
    if q in Range(p, n) {
      assert p in more;
    } else if InLive(live, q) {
      var r :| r in live && q in Range(r, live[r]);
      assert r in more;
    }
    if InLive(more, q) && q !in Range(p, n) {
      var r :| r in more && q in Range(r, more[r]);
      assert r in live;
    }
  }

  lemma InLiveDrop(live: map<nat, nat>, p: nat, q: nat)
    requires p in live && Separate(live)
    ensures InLive(live - {p}, q) <==> InLive(live, q) && q !in Range(p, live[p])
  {
    var less := live - {p};
    if InLive(live, q) && q !in Range(p, live[p]) {
      var r :| r in live && q in Range(r, live[r]);
      assert r in less;
    }
    if InLive(less, q) {
      var r :| r in less && q in Range(r, less[r]);
      assert r in live && r != p;
    }
  }

  lemma SeparateAdd(live: map<nat, nat>, p: nat, n: nat)
    requires Separate(live) && n > 0 && forall q :: q in Range(p, n) ==> !InLive(live, q)
    ensures p !in live && Separate(live[p := n])
  {
    assert p in Range(p, n);
    assert p in live ==> p in Range(p, live[p]);
    forall r | r in live ensures Range(p, n) !! Range(r, live[r]) {
      forall q | q in Range(p, n) ensures q !in Range(r, live[r]) {
        assert !InLive(live, q);
      }
    }
  }

  lemma AllocatedTiled(s: Pages, managed: set<nat>, n: nat)
    requires Tiled(s, managed)
    ensures Tiled(Allocated(s, n), managed)
    ensures n > 0 && Grant(s.free, n) != 0 ==>
      Grant(s.free, n) !in s.live && Range(Grant(s.free, n), n) <= s.free && Range(Grant(s.free, n), n) <= managed
  {
    var p := Grant(s.free, n);
    if n > 0 && p != 0 {
      GrantComplete(s.free, n);
      SeparateAdd(s.live, p, n);
      forall q ensures InLive(s.live[p := n], q) <==> q in Range(p, n) || InLive(s.live, q) {
        InLiveAdd(s.live, p, n, q);
      }
    }
  }

  lemma ReleasedTiled(s: Pages, managed: set<nat>, p: nat)
    requires Tiled(s, managed) && p in s.live
    ensures Tiled(Released(s, p), managed)
    ensures Range(p, s.live[p]) !! s.free && Range(p, s.live[p]) <= managed && 0 !in managed && s.live[p] > 0
    ensures Separate(s.live)
  {
    forall q ensures InLive(s.live - {p}, q) <==> InLive(s.live, q) && q !in Range(p, s.live[p]) {
      InLiveDrop(s.live, p, q);
    }
    forall q | q in Range(p, s.live[p]) ensures InLive(s.live, q) {
    }
  }

  /** What is live determines what is free. */
  lemma FreeDetermined(s: Pages, t: Pages, managed: set<nat>)
    requires Tiled(s, managed) && Tiled(t, managed) && s.live == t.live
    ensures s == t
  {
    forall q ensures q in s.free <==> q in t.free {
      assert InLive(s.live, q) == InLive(t.live, q);
    }
  }

  // ----- runs ----------------------------------------------------------------

  /** A request; a block is released by the position of its request among the allocations of the run. */
  datatype Request = Alloc(pages: nat) | Free(allocation: nat)

  /** The pages, and the addresses that the run's allocations were answered with. */
  datatype World = World(pages: Pages, answers: seq<nat>)

  /** Releases name an allocation of this run that failed or is still live. */
  ghost predicate Legal(w: World, r: Request) {
    r.Free? ==> r.allocation < |w.answers| && (w.answers[r.allocation] == 0 || w.answers[r.allocation] in w.pages.live)
  }

  ghost function Step(w: World, r: Request): World
    requires Legal(w, r)
  {
    match r
    case Alloc(n) => World(Allocated(w.pages, n), w.answers + [if n == 0 then 0 else Grant(w.pages.free, n)])
    case Free(i) => if w.answers[i] == 0 then w else w.(pages := Released(w.pages, w.answers[i]))
  }

  ghost predicate LegalRun(w: World, script: seq<Request>)
    decreases |script|
  {
    script == [] || (Legal(w, script[0]) && LegalRun(Step(w, script[0]), script[1..]))
  }

  ghost function Run(w: World, script: seq<Request>): World
    requires LegalRun(w, script)
    decreases |script|
  {
    if script == [] then w else Run(Step(w, script[0]), script[1..])
  }

  /** Every run keeps free pages and live blocks tiling the same managed pages. */
  lemma {:induction false} RunConserves(w: World, managed: set<nat>, script: seq<Request>)
    requires Tiled(w.pages, managed) && LegalRun(w, script)
    ensures Tiled(Run(w, script).pages, managed)
    decreases |script|
  {
    if script != [] {
      match script[0] {
        case Alloc(n) => AllocatedTiled(w.pages, managed, n);
        case Free(i) =>
          if w.answers[i] != 0 {
            ReleasedTiled(w.pages, managed, w.answers[i]);
          }
      }
      RunConserves(Step(w, script[0]), managed, script[1..]);
    }
  }

  /**
   * A run that ends with the same blocks live as it began with is forgotten: the free set is restored, and
   * any further script is answered with the same addresses as if that run had never happened.
   */
  lemma ReplayGivesSameAddresses(s: Pages, managed: set<nat>, script: seq<Request>, replay: seq<Request>)
    requires Tiled(s, managed) && LegalRun(World(s, []), script)
    requires Run(World(s, []), script).pages.live == s.live
    ensures Run(World(s, []), script).pages == s
    ensures LegalRun(World(s, []), replay) <==> LegalRun(World(Run(World(s, []), script).pages, []), replay)
    ensures LegalRun(World(s, []), replay) ==>
      Run(World(Run(World(s, []), script).pages, []), replay) == Run(World(s, []), replay)
  {
    RunConserves(World(s, []), managed, script);
    FreeDetermined(s, Run(World(s, []), script).pages, managed);
  }
}
