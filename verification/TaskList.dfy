/**
 The circular list of control blocks (kernel/src/task.c) in memory: `next` links between addresses
 stand for a sequence of tasks, and insertion and removal keep that reading.
 */
module TaskList {
  import opened Bits
  import opened HeapLayout
  import opened Tasks

  /** struct task, apart from `rsp`, which switch_to writes. */
  datatype Tcb = Tcb(id: Word, state: Half, stack: nat, next: nat)

  const TASK_READY: Half := 0
  const TASK_RUNNING: Half := 1
  const TASK_DEAD: Half := 2

  function Code(s: Status): Half {
    match s
    case Ready => TASK_READY
    case Running => TASK_RUNNING
    case Dead => TASK_DEAD
  }

  function StackPtr(t: Task): nat {
    match t.stack
    case BootStack => 0
    case Own(b) => b.addr + HEADER
  }

  function TcbOf(t: Task, next: nat): Tcb {
    Tcb(t.serial % WORD, Code(t.status), StackPtr(t), next)
  }

  /** The index after i in a ring of n. */
  function Succ(i: nat, n: nat): nat {
    if i + 1 == n then 0 else i + 1
  }

  ghost function Addrs(ring: seq<Task>): set<nat> {
    set t | t in ring :: Addr(t)
  }

  predicate Separate(ring: seq<Task>) {
    forall i, j | 0 <= i < j < |ring| :: Addr(ring[i]) != Addr(ring[j])
  }

  /** The control blocks in memory are those of the ring, each linked to the next, and task_list is the first. */
  ghost predicate Linked(tcbs: map<nat, Tcb>, ring: seq<Task>, list: nat) {
    && list == (if ring == [] then 0 else Addr(ring[0]))
    && Separate(ring) && tcbs.Keys == Addrs(ring)
    && forall i | 0 <= i < |ring| :: LinkAt(tcbs, ring, i)
  }

  predicate LinkAt(tcbs: map<nat, Tcb>, ring: seq<Task>, i: nat)
    requires i < |ring|
  {
    Addr(ring[i]) in tcbs && tcbs[Addr(ring[i])] == TcbOf(ring[i], Addr(ring[Succ(i, |ring|)]))
  }

  /** The stack pointers switch_to saves, in the `rsp` fields. */
  predicate Slots(slots: map<nat, nat>, ring: seq<Task>) {
    forall t | t in ring :: Addr(t) + 8 in slots && slots[Addr(t) + 8] == t.rsp
  }

  function RemoveAt(ring: seq<Task>, p: nat): seq<Task>
    requires p < |ring|
  {
    ring[..p] + ring[p + 1..]
  }

  /** Unlinking: the predecessor takes over the successor, and the list head moves on if it was the one removed. */
  lemma Unlinks(tcbs: map<nat, Tcb>, ring: seq<Task>, list: nat, q: nat, p: nat)
    requires Linked(tcbs, ring, list) && |ring| > 1 && q < |ring| && p == Succ(q, |ring|)
    ensures Addr(ring[q]) in tcbs && Addr(ring[p]) in tcbs
    ensures var t, prev := Addr(ring[p]), Addr(ring[q]);
            var next := tcbs[t].next;
            Linked(tcbs[prev := tcbs[prev].(next := next)] - {t}, RemoveAt(ring, p), if list == t then next else list)
  {
    assert LinkAt(tcbs, ring, p) && LinkAt(tcbs, ring, q);
    var r, t, prev := RemoveAt(ring, p), Addr(ring[p]), Addr(ring[q]);
    var m := tcbs[prev := tcbs[prev].(next := tcbs[t].next)] - {t};
    forall i | 0 <= i < |r|
      ensures LinkAt(m, r, i)
    {
      UnlinkedAt(tcbs, ring, q, p, m, i);
    }
    RemovedAddrs(ring, p);
    RemovedHead(tcbs, ring, p);
  }

  /** Where a task of the shorter ring was, and which task follows it now. */
  lemma RemovedAt(ring: seq<Task>, q: nat, p: nat, i: nat) returns (o: nat)
    requires |ring| > 1 && q < |ring| && p == Succ(q, |ring|) && i < |ring| - 1
    ensures var r := RemoveAt(ring, p);
            && o < |ring| && o != p && r[i] == ring[o]
            && r[Succ(i, |r|)] == ring[Succ(if o == q then p else o, |ring|)]
  {
    o := if i < p then i else i + 1;
  }

  lemma UnlinkedAt(tcbs: map<nat, Tcb>, ring: seq<Task>, q: nat, p: nat, m: map<nat, Tcb>, i: nat)
    requires Separate(ring) && (forall k | 0 <= k < |ring| :: LinkAt(tcbs, ring, k))
    requires |ring| > 1 && q < |ring| && p == Succ(q, |ring|) && i < |ring| - 1
    requires Addr(ring[q]) in tcbs && Addr(ring[p]) in tcbs
    requires m == tcbs[Addr(ring[q]) := tcbs[Addr(ring[q])].(next := tcbs[Addr(ring[p])].next)] - {Addr(ring[p])}
    ensures LinkAt(m, RemoveAt(ring, p), i)
  {
    var o := RemovedAt(ring, q, p, i);
    assert LinkAt(tcbs, ring, o) && LinkAt(tcbs, ring, p);
    assert Addr(ring[o]) != Addr(ring[p]) && (o != q ==> Addr(ring[o]) != Addr(ring[q]));
  }

  lemma RemovedHead(tcbs: map<nat, Tcb>, ring: seq<Task>, p: nat)
    requires Separate(ring) && |ring| > 1 && p < |ring| && LinkAt(tcbs, ring, p)
    ensures var r := RemoveAt(ring, p);
            && Separate(r)
            && Addr(r[0]) == if Addr(ring[0]) == Addr(ring[p]) then tcbs[Addr(ring[p])].next else Addr(ring[0])
  {
  }

  lemma RemovedAddrs(ring: seq<Task>, p: nat)
    requires p < |ring| && Separate(ring)
    ensures Addrs(RemoveAt(ring, p)) == Addrs(ring) - {Addr(ring[p])}
  {
    var r := RemoveAt(ring, p);
    forall i | 0 <= i < |ring| && i != p
      ensures ring[i] in r
    {
      assert ring[i] == r[if i < p then i else i - 1];
    }
    forall i | 0 <= i < |r| ensures r[i] in ring && Addr(r[i]) != Addr(ring[p]) {}
  }

  lemma LinksFirst(tcbs: map<nat, Tcb>, t: Task)
    requires Linked(tcbs, [], 0)
    ensures Linked(tcbs[Addr(t) := TcbOf(t, Addr(t))], [t], Addr(t))
  {
    assert tcbs == map[];
    assert Addrs([t]) == {Addr(t)};
  }

  /** Linking a new task in before the head: the last task leads to it, and it leads to the head. */
  lemma Links(tcbs: map<nat, Tcb>, ring: seq<Task>, list: nat, t: Task)
    requires Linked(tcbs, ring, list) && Addr(t) !in tcbs && ring != []
    ensures var tail := Addr(ring[|ring| - 1]);
            && tail in tcbs
            && Linked(tcbs[tail := tcbs[tail].(next := Addr(t))][Addr(t) := TcbOf(t, list)], ring + [t], list)
  {
    var r, n := ring + [t], |ring|;
    var tail := Addr(ring[n - 1]);
    assert LinkAt(tcbs, ring, n - 1);
    var m := tcbs[tail := tcbs[tail].(next := Addr(t))][Addr(t) := TcbOf(t, list)];
    NewAddr(tcbs, ring, t);
    forall i | 0 <= i < |r|
      ensures LinkAt(m, r, i)
    {
      LinkedAt(tcbs, ring, list, t, m, i);
    }
  }

  lemma LinkedAt(tcbs: map<nat, Tcb>, ring: seq<Task>, list: nat, t: Task, m: map<nat, Tcb>, i: nat)
    requires Separate(ring) && (forall k | 0 <= k < |ring| :: LinkAt(tcbs, ring, k)) && ring != [] && i <= |ring|
    requires list == Addr(ring[0]) && Addr(t) !in tcbs && Addr(ring[|ring| - 1]) in tcbs
    requires var tail := Addr(ring[|ring| - 1]);
             m == tcbs[tail := tcbs[tail].(next := Addr(t))][Addr(t) := TcbOf(t, list)]
    ensures LinkAt(m, ring + [t], i)
  {
    var r, n := ring + [t], |ring|;
    if i == n {
      assert r[i] == t && r[Succ(i, |r|)] == ring[0];
    } else {
      assert LinkAt(tcbs, ring, i) && r[i] == ring[i];
      assert r[Succ(i, |r|)] == if i == n - 1 then t else ring[i + 1];
      assert i < n - 1 ==> Addr(ring[i]) != Addr(ring[n - 1]);
    }
  }

  lemma NewAddr(tcbs: map<nat, Tcb>, ring: seq<Task>, t: Task)
    requires Separate(ring) && tcbs.Keys == Addrs(ring) && Addr(t) !in tcbs
    ensures Addrs(ring + [t]) == Addrs(ring) + {Addr(t)} && Separate(ring + [t])
  {
    forall i | 0 <= i < |ring| ensures Addr(ring[i]) != Addr(t) { assert ring[i] in ring; }
  }

  /** A change of a task's state in place. */
  lemma Relabels(tcbs: map<nat, Tcb>, ring: seq<Task>, list: nat, i: nat, t: Task)
    requires Linked(tcbs, ring, list) && i < |ring| && SameTask(t, ring[i])
    ensures Addr(t) in tcbs && Linked(tcbs[Addr(t) := tcbs[Addr(t)].(state := Code(t.status))], ring[i := t], list)
  {
    var r := ring[i := t];
    assert LinkAt(tcbs, ring, i);
    var m := tcbs[Addr(t) := tcbs[Addr(t)].(state := Code(t.status))];
    forall j | 0 <= j < |r| ensures Addr(r[j]) == Addr(ring[j]) {}
    forall j | 0 <= j < |r|
      ensures LinkAt(m, r, j)
    {
      RelabeledAt(tcbs, ring, i, t, m, j);
    }
    SameAddrs(r, ring);
  }

  lemma RelabeledAt(tcbs: map<nat, Tcb>, ring: seq<Task>, i: nat, t: Task, m: map<nat, Tcb>, j: nat)
    requires Separate(ring) && i < |ring| && j < |ring| && SameTask(t, ring[i])
    requires LinkAt(tcbs, ring, j) && LinkAt(tcbs, ring, i)
    requires m == tcbs[Addr(t) := tcbs[Addr(t)].(state := Code(t.status))]
    ensures LinkAt(m, ring[i := t], j)
  {
    var r, k := ring[i := t], Succ(j, |ring|);
    assert Addr(r[k]) == Addr(ring[k]);
    assert j != i ==> Addr(ring[j]) != Addr(ring[i]);
  }

  lemma SameAddrs(a: seq<Task>, b: seq<Task>)
    requires |a| == |b| && forall j | 0 <= j < |a| :: Addr(a[j]) == Addr(b[j])
    ensures Addrs(a) == Addrs(b)
  {
    assert forall j | 0 <= j < |a| :: a[j] in a && b[j] in b;
  }
}
