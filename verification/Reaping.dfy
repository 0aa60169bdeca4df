/**
 The reaping walk of schedule (kernel/src/task.c) on sequences: removing the dead one at a time,
 in the order of the links from the current task, leaves what one pass over the ring would keep.
 */
module Reaping {
  import opened Tasks
  import opened TaskList

  /** The index of the task at an address, or |ring|. */
  function IndexAt(ring: seq<Task>, a: nat): (k: nat)
    ensures k <= |ring| && (k < |ring| ==> Addr(ring[k]) == a) && forall j | 0 <= j < k :: Addr(ring[j]) != a
  {
    if ring == [] || Addr(ring[0]) == a then 0 else 1 + IndexAt(ring[1..], a)
  }

  /** The ring with its current task, if there is one. */
  function SchedOf(ring: seq<Task>, current: nat): Sched {
    var k := IndexAt(ring, current);
    if k == |ring| then Idle(ring) else Active(ring[..k], ring[k], ring[k + 1..])
  }

  lemma RingOf(ring: seq<Task>, current: nat)
    ensures Ring(SchedOf(ring, current)) == ring
  {
  }

  lemma IndexIs(ring: seq<Task>, k: nat)
    requires Separate(ring) && k < |ring|
    ensures IndexAt(ring, Addr(ring[k])) == k
  {
    assert IndexAt(ring, Addr(ring[k])) <= k;
  }

  predicate Stays(t: Task, current: nat) {
    Addr(t) == current || t.status != Dead
  }

  /** The current task, whatever its state, and all tasks that are not dead. */
  function Keep(ring: seq<Task>, current: nat): seq<Task> {
    if ring == [] then []
    else if Stays(ring[0], current) then [ring[0]] + Keep(ring[1..], current)
    else Keep(ring[1..], current)
  }

  lemma {:induction false} KeepCat(a: seq<Task>, b: seq<Task>, current: nat)
    ensures Keep(a + b, current) == Keep(a, current) + Keep(b, current)
  {
    if a == [] {
      assert a + b == b;
    } else {
      KeepCat(a[1..], b, current);
      assert (a + b)[1..] == a[1..] + b;
    }
  }

  lemma {:induction false} KeepOthers(ts: seq<Task>, current: nat)
    requires forall t | t in ts :: Addr(t) != current
    ensures Keep(ts, current) == Awake(ts) && forall t | t in Awake(ts) :: Addr(t) != current
  {
    if ts != [] { KeepOthers(ts[1..], current); }
  }

  lemma {:induction false} KeepAll(ring: seq<Task>, current: nat)
    requires forall t | t in ring :: Stays(t, current)
    ensures Keep(ring, current) == ring
  {
    if ring != [] { KeepAll(ring[1..], current); }
  }

  lemma KeepWithout(ring: seq<Task>, p: nat, current: nat)
    requires p < |ring| && !Stays(ring[p], current)
    ensures Keep(RemoveAt(ring, p), current) == Keep(ring, current)
  {
    assert ring == ring[..p] + ([ring[p]] + ring[p + 1..]);
    assert [ring[p]][1..] == [];
    KeepCat(ring[..p], [ring[p]] + ring[p + 1..], current);
    KeepCat([ring[p]], ring[p + 1..], current);
    KeepCat(ring[..p], ring[p + 1..], current);
  }

  lemma KeepAround(a: seq<Task>, t: Task, b: seq<Task>)
    requires forall x | x in a || x in b :: Addr(x) != Addr(t)
    ensures Keep(a + [t] + b, Addr(t)) == Awake(a) + [t] + Awake(b)
    ensures forall x | x in Awake(a) :: Addr(x) != Addr(t)
  {
    assert [t][1..] == [];
    KeepCat(a + [t], b, Addr(t));
    KeepCat(a, [t], Addr(t));
    KeepOthers(a, Addr(t));
    KeepOthers(b, Addr(t));
  }

  lemma SchedAround(a: seq<Task>, t: Task, b: seq<Task>)
    requires forall x | x in a :: Addr(x) != Addr(t)
    ensures SchedOf(a + [t] + b, Addr(t)) == Active(a, t, b)
  {
    var r := a + [t] + b;
    assert r[|a|] == t && forall j | 0 <= j < |a| :: r[j] in a;
    assert IndexAt(r, Addr(t)) == |a|;
    assert r[..|a|] == a && r[|a| + 1..] == b;
  }

  lemma SplitRing(ring: seq<Task>, k: nat) returns (a: seq<Task>, b: seq<Task>)
    requires Separate(ring) && k < |ring|
    ensures ring == a + [ring[k]] + b && |a| == k && forall x | x in a || x in b :: Addr(x) != Addr(ring[k])
  {
    a, b := ring[..k], ring[k + 1..];
  }

  /** What the walk keeps is what schedule's reaping keeps. */
  lemma KeepIsReap(ring: seq<Task>, k: nat)
    requires Separate(ring) && k < |ring|
    ensures SchedOf(Keep(ring, Addr(ring[k])), Addr(ring[k])) == Reap(SchedOf(ring, Addr(ring[k])))
  {
    var t := ring[k];
    var a, b := SplitRing(ring, k);
    KeepAround(a, t, b);
    SchedAround(a, t, b);
    SchedAround(Awake(a), t, Awake(b));
  }

  /** The walk from the task after k has come to p: index i is behind it. */
  predicate Behind(i: nat, k: nat, p: nat) {
    if p > k then k < i < p else i > k || i < p
  }

  /** No task behind the walk is dead. */
  predicate Clean(ring: seq<Task>, k: nat, p: nat) {
    forall i | 0 <= i < |ring| && Behind(i, k, p) :: ring[i].status != Dead
  }

  /** How many tasks are ahead of the walk. */
  function Ahead(n: nat, k: nat, p: nat): int {
    if p > k then n - p + k else k - p
  }

  lemma WalkStart(ring: seq<Task>, k: nat)
    requires k < |ring|
    ensures Clean(ring, k, Succ(k, |ring|))
  {
  }

  lemma WalkOn(ring: seq<Task>, k: nat, p: nat)
    requires k < |ring| && p < |ring| && p != k && Clean(ring, k, p) && ring[p].status != Dead
    ensures Clean(ring, k, Succ(p, |ring|)) && Ahead(|ring|, k, Succ(p, |ring|)) < Ahead(|ring|, k, p)
  {
  }

  /** Where the walk stands after the task at p has been removed. */
  function NowAt(n: nat, p: nat): nat {
    if p == n then 0 else p
  }

  lemma WalkRemoved(ring: seq<Task>, k: nat, p: nat)
    requires k < |ring| && p < |ring| && p != k && Clean(ring, k, p)
    ensures var r, k', p' := RemoveAt(ring, p), if p < k then k - 1 else k, NowAt(|ring| - 1, p);
            && k' < |r| && p' < |r| && r[k'] == ring[k] && r[p'] == ring[Succ(p, |ring|)]
            && Clean(r, k', p') && Ahead(|r|, k', p') < Ahead(|ring|, k, p)
  {
    var r, k', p' := RemoveAt(ring, p), if p < k then k - 1 else k, NowAt(|ring| - 1, p);
    forall i | 0 <= i < |r| && Behind(i, k', p')
      ensures r[i].status != Dead
    {
      var o := if i < p then i else i + 1;
      assert r[i] == ring[o] && Behind(o, k, p);
    }
  }

  /** When the walk is back at the current task, nothing else is dead. */
  lemma WalkDone(ring: seq<Task>, k: nat)
    requires k < |ring| && Clean(ring, k, k)
    ensures Keep(ring, Addr(ring[k])) == ring
  {
    forall i | 0 <= i < |ring|
      ensures Stays(ring[i], Addr(ring[k]))
    {
      if i != k { assert Behind(i, k, k); }
    }
    KeepAll(ring, Addr(ring[k]));
  }

  /** The two writes of a switch to the successor, on the ring. */
  function SwitchAt(ring: seq<Task>, k: nat, rsp: nat): seq<Task>
    requires k < |ring|
  {
    var j := Succ(k, |ring|);
    ring[k := Suspended(ring[k], rsp)][j := Resumed(ring[j])]
  }

  lemma SwitchesRing(ring: seq<Task>, k: nat, rsp: nat)
    requires Separate(ring) && k < |ring| && |ring| > 1
    ensures var c, j := Addr(ring[k]), Succ(k, |ring|);
            && SchedOf(ring, c).Active? && Line(SchedOf(ring, c)) != [] && Line(SchedOf(ring, c))[0] == ring[j]
            && SchedOf(SwitchAt(ring, k, rsp), Addr(ring[j])) == SwitchTo(SchedOf(ring, c), 0, rsp)
  {
    var n := |ring|;
    var s := SchedOf(ring, Addr(ring[k]));
    IndexIs(ring, k);
    if k + 1 < n { SwitchesOn(ring, k, rsp); } else { SwitchesRound(ring, rsp); }
  }

  lemma SwitchesOn(ring: seq<Task>, k: nat, rsp: nat)
    requires Separate(ring) && k + 1 < |ring|
    ensures SchedOf(SwitchAt(ring, k, rsp), Addr(ring[k + 1])) ==
            SwitchTo(Active(ring[..k], ring[k], ring[k + 1..]), 0, rsp)
  {
    var a, t, b := ring[..k] + [Suspended(ring[k], rsp)], Resumed(ring[k + 1]), ring[k + 2..];
    assert SwitchAt(ring, k, rsp) == a + [t] + b;
    assert ring[k + 1..][1..] == b && a + ring[k + 1..][..0] == a;
    SchedAround(a, t, b);
  }

  lemma SwitchesRound(ring: seq<Task>, rsp: nat)
    requires Separate(ring) && |ring| > 1
    ensures var k := |ring| - 1;
            SchedOf(SwitchAt(ring, k, rsp), Addr(ring[0])) ==
              SwitchTo(Active(ring[..k], ring[k], ring[k + 1..]), 0, rsp)
  {
    var k := |ring| - 1;
    var t, b := Resumed(ring[0]), ring[1..k] + [Suspended(ring[k], rsp)];
    assert SwitchAt(ring, k, rsp) == [] + [t] + b;
    assert ring[..k][1..] == ring[1..k] && b + ring[k + 1..] == b;
    SchedAround([], t, b);
  }
}
