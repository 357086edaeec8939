/** The circular intrusive list of tasks (kernel/libkernelcxx/include/ext/intrusive_circular_list.hpp). */
module Rings {
  import opened RoundRobin

  /** A task with the list node embedded in it, and the part of its context that a switch saves. */
  class Task {
    var next: Task?
    var prev: Task?
    var exited: bool
    var started: bool
    /** Interrupt flag on the task's stack, loaded when it is switched to. */
    var savedFlag: bool

    constructor (flag: bool)
      ensures next == null && prev == null && !exited && !started && savedFlag == flag
    {
      next, prev, exited, started, savedFlag := null, null, false, false, flag;
    }
  }

  /** Index of the successor in a ring of `n`. */
  function Succ(i: nat, n: nat): nat {
    if i + 1 == n then 0 else i + 1
  }

  /** Index of the predecessor in a ring of `n`. */
  function Pred(i: nat, n: nat): int {
    if i == 0 then n - 1 else i - 1
  }

  /** The tasks are linked in a circle in this order. */
  ghost predicate Linked(s: seq<Task>)
    reads s`next, s`prev
  {
    && (forall i {:trigger s[i].next} :: 0 <= i < |s| ==> s[i].next == s[Succ(i, |s|)])
    && (forall i {:trigger s[i].prev} :: 0 <= i < |s| ==> s[i].prev == s[Pred(i, |s|)])
  }

  /** The tasks other than member `k` are linked past it. */
  ghost predicate LinkedPast(s: seq<Task>, k: nat)
    requires k < |s|
    reads s`next, s`prev
  {
    && (forall j {:trigger s[j].next} :: 0 <= j < |s| && j != k ==>
          s[j].next == s[if Succ(j, |s|) == k then Succ(k, |s|) else Succ(j, |s|)])
    && (forall j {:trigger s[j].prev} :: 0 <= j < |s| && j != k ==>
          s[j].prev == s[if Pred(j, |s|) == k then Pred(k, |s|) else Pred(j, |s|)])
  }

  lemma LinkedWithout(s: seq<Task>, k: nat)
    requires k < |s| && LinkedPast(s, k)
    ensures Linked(s[..k] + s[k + 1..])
  {
    var t := s[..k] + s[k + 1..];
    assert forall i :: 0 <= i < |t| ==> t[i] == s[if i < k then i else i + 1];
    forall i | 0 <= i < |t| ensures t[i].next == t[Succ(i, |t|)] && t[i].prev == t[Pred(i, |t|)] {
      var j := if i < k then i else i + 1;
      assert t[i] == s[j];
      RemovedIndex(i, k, |s|);
    }
  }

  class TaskRing {
    var some: Task?
    /** The tasks in ring order, from `some`. */
    ghost var Order: seq<Task>
    ghost var Nodes: set<Task>

    ghost predicate Valid()
      reads this, Nodes`next, Nodes`prev
    {
      && (forall i :: 0 <= i < |Order| ==> Order[i] in Nodes)
      && NoRepeats(Order)
      && (Order == [] <==> some == null)
      && (Order != [] ==> some == Order[0])
      && Linked(Order)
    }

    constructor ()
      ensures Valid() && Order == [] && Nodes == {} && fresh(this)
    {
      some := null;
      Order, Nodes := [], {};
    }

    /** A new task goes right behind `some`. */
    method Insert(value: Task)
      requires Valid() && value !in Order
      modifies this, value`next, value`prev, Nodes`next, Nodes`prev
      ensures Nodes == old(Nodes) + {value}
      ensures Valid() && some == (if old(some) == null then value else old(some))
      ensures Order == (if old(Order) == [] then [value] else [old(Order)[0], value] + old(Order)[1..])
    {
      if some == null {
        value.prev := value;
        value.next := value;
        some := value;
        Order, Nodes := [value], Nodes + {value};
      } else {
        ghost var s := Order;
        assert some == s[0] && some.next == s[Succ(0, |s|)];
        value.next := some.next;
        value.prev := some;
        some.next.prev := value;
        some.next := value;
        Order, Nodes := [Order[0], value] + Order[1..], Nodes + {value};
        assert forall i :: 0 <= i < |Order| ==>
          Order[i] == (if i == 0 then s[0] else if i == 1 then value else s[i - 1]);
        forall i | 0 <= i < |Order|
          ensures Order[i].next == Order[Succ(i, |Order|)] && Order[i].prev == Order[Pred(i, |Order|)]
        {
          if i > 1 {
            assert old(s[i - 1].next) == s[Succ(i - 1, |s|)] && old(s[i - 1].prev) == s[Pred(i - 1, |s|)];
          } else {
            assert old(s[0].prev) == s[Pred(0, |s|)];
          }
        }
      }
    }

    /** Tie the neighbours of a member together. */
    method Unlink(value: Task, ghost k: nat)
      requires Valid() && k < |Order| && Order[k] == value && |Order| > 1
      modifies Nodes`next, Nodes`prev
      ensures value.next == null && value.prev == null
      ensures LinkedPast(Order, k)
    {
      assert value.next == Order[Succ(k, |Order|)] && value.prev == Order[Pred(k, |Order|)];
      value.prev.next := value.next;
      value.next.prev := value.prev;
      value.next := null;
      value.prev := null;
    }

    /** Unlink a member; the answer is its successor, or null if it was alone. */
    method Remove(value: Task, ghost k: nat) returns (successor: Task?)
      requires Valid() && k < |Order| && Order[k] == value
      modifies this, Nodes`next, Nodes`prev
      ensures Nodes == old(Nodes) - {value}
      ensures Valid() && Order == old(Order)[..k] + old(Order)[k + 1..]
      ensures value.next == null && value.prev == null
      ensures successor == (if |old(Order)| == 1 then null else old(Order)[Succ(k, |old(Order)|)])
    {
      ghost var s := Order;
      assert value.next == s[Succ(k, |s|)];
      if value == value.next {
        value.next := null;
        value.prev := null;
        some := null;
        Order, Nodes := [], Nodes - {value};
        return null;
      } else {
        var ret := value.next;
        Unlink(value, k);
        if some == value {
          some := ret;
        }
        LinkedWithout(s, k);
        Order, Nodes := Order[..k] + Order[k + 1..], Nodes - {value};
        return ret;
      }
    }
  }

  /** Neighbours in the ring of `n` without member `k`, as indices into the ring with it. */
  lemma RemovedIndex(i: nat, k: nat, n: nat)
    requires i < n - 1 && k < n
    ensures var j := if i < k then i else i + 1;
      var next := Succ(i, n - 1);
      (if next < k then next else next + 1) == (if Succ(j, n) == k then Succ(k, n) else Succ(j, n))
    ensures var j := if i < k then i else i + 1;
      var prev := Pred(i, n - 1);
      (if prev < k then prev else prev + 1) == (if Pred(j, n) == k then Pred(k, n) else Pred(j, n))
  {
  }
}
