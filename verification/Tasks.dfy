/**
 The task ring of the scheduler (kernel/src/task.c) as values: who runs, who waits and in which
 order, and which heap blocks belong to tasks.
 */
module Tasks {
  import opened Bits
  import opened HeapLayout

  /** sizeof(struct task), TASK_STACK_SIZE, and the bytes of the stack frame a new task starts with. */
  const TCB_SIZE: Word := 40
  const STACK_SIZE: Word := 8192
  const FIRST_FRAME := 56

  datatype Status = Ready | Running | Dead

  /** The boot task runs on the boot stack; every other task has one from the heap. */
  datatype Stack = BootStack | Own(block: Block)

  /** `serial` counts the tasks created before this one; the task's id is `serial` in 64 bits. */
  datatype Task = Task(tcb: Block, stack: Stack, serial: nat, status: Status, rsp: nat)

  /** The ring from task_list on, without a current task (task_init failed) or split at it. */
  datatype Sched = Idle(tasks: seq<Task>) | Active(before: seq<Task>, now: Task, after: seq<Task>)

  function Ring(s: Sched): seq<Task> {
    match s
    case Idle(tasks) => tasks
    case Active(before, now, after) => before + [now] + after
  }

  /** The other tasks in the order in which `next` leads to them from the current one. */
  function Line(s: Sched): seq<Task> {
    match s
    case Idle(tasks) => tasks
    case Active(before, _, after) => after + before
  }

  function Addr(t: Task): nat {
    t.tcb.addr + HEADER
  }

  // ---- schedule ----

  /** The tasks that are not dead. */
  function Awake(ts: seq<Task>): seq<Task> {
    if ts == [] then []
    else if ts[0].status == Dead then Awake(ts[1..])
    else [ts[0]] + Awake(ts[1..])
  }

  /** The first READY task, or |ts|. */
  function FirstReady(ts: seq<Task>): (i: nat)
    ensures i <= |ts| && (i < |ts| ==> ts[i].status == Ready) && forall j | 0 <= j < i :: ts[j].status != Ready
  {
    if ts == [] || ts[0].status == Ready then 0 else 1 + FirstReady(ts[1..])
  }

  function Reap(s: Sched): Sched {
    match s
    case Idle(_) => s
    case Active(before, now, after) => Active(Awake(before), now, Awake(after))
  }

  /** The task that gives up the processor, and the task that gets it. */
  function Suspended(t: Task, rsp: nat): Task {
    t.(status := if t.status == Running then Ready else t.status, rsp := rsp)
  }

  function Resumed(t: Task): Task {
    t.(status := Running)
  }

  /** The i-th task in line becomes the current one. */
  function SwitchTo(s: Sched, i: nat, rsp: nat): Sched
    requires s.Active? && i < |Line(s)|
  {
    var prev := Suspended(s.now, rsp);
    if i < |s.after| then Active(s.before + [prev] + s.after[..i], Resumed(s.after[i]), s.after[i + 1..])
    else
      var j := i - |s.after|;
      Active(s.before[..j], Resumed(s.before[j]), s.before[j + 1..] + [prev] + s.after)
  }

  /** schedule: dead tasks other than the current one go, and the next READY task in line runs. */
  function Schedule(s: Sched, rsp: nat): Sched {
    var r := Reap(s);
    if r.Active? && FirstReady(Line(r)) < |Line(r)| then SwitchTo(r, FirstReady(Line(r)), rsp) else r
  }

  /** task_exit before it calls schedule. */
  function MarkDead(s: Sched): Sched
    requires s.Active?
  {
    s.(now := s.now.(status := Dead))
  }

  /** task_create's insertion before task_list, that is at the end of the ring. */
  function Append(s: Sched, t: Task): Sched {
    match s
    case Idle(tasks) => Idle(tasks + [t])
    case Active(before, now, after) => Active(before, now, after + [t])
  }

  // ---- The invariant of the ring ----

  predicate Waiting(ts: seq<Task>) {
    forall t | t in ts :: t.status != Running
  }

  /** The ring is in creation order. */
  predicate Ascending(ts: seq<Task>) {
    forall i, j | 0 <= i < j < |ts| :: ts[i].serial < ts[j].serial
  }

  /** The current task is running or has just died, no other task is running, and the ring is in creation order. */
  predicate Sane(s: Sched) {
    && Waiting(Line(s)) && Ascending(Ring(s))
    && (s.Active? ==> s.now.status != Ready)
  }

  lemma {:induction false} AwakeCat(a: seq<Task>, b: seq<Task>)
    ensures Awake(a + b) == Awake(a) + Awake(b)
  {
    if a == [] {
      assert a + b == b;
    } else {
      AwakeCat(a[1..], b);
      assert (a + b)[1..] == a[1..] + b && (a + b)[0] == a[0];
    }
  }

  /** Exactly the tasks that are not dead stay. */
  lemma {:induction false} AwakeIn(ts: seq<Task>, t: Task)
    ensures t in Awake(ts) <==> t in ts && t.status != Dead
  {
    if ts != [] { AwakeIn(ts[1..], t); }
  }

  lemma {:induction false} AwakeAscending(ts: seq<Task>)
    requires Ascending(ts)
    ensures Ascending(Awake(ts))
  {
    if ts != [] {
      AwakeAscending(ts[1..]);
      forall t | t in Awake(ts[1..])
        ensures t.serial > ts[0].serial
      {
        AwakeIn(ts[1..], t);
      }
    }
  }

  /** A task that is not dead moves up by the number of dead ones before it. */
  lemma {:induction false} AwakeAt(ts: seq<Task>, i: nat) returns (j: nat)
    requires i < |ts| && ts[i].status != Dead
    ensures j <= i && j < |Awake(ts)| && Awake(ts)[j] == ts[i]
  {
    if i == 0 {
      j := 0;
    } else {
      j := AwakeAt(ts[1..], i - 1);
      if ts[0].status != Dead { j := j + 1; }
    }
  }

  /** A ring split at one task is in order exactly when both parts are and the task stands between them. */
  lemma AscendingAround(a: seq<Task>, t: Task, b: seq<Task>)
    ensures Ascending(a + [t] + b) <==>
            && Ascending(a) && Ascending(b)
            && (forall x | x in a :: x.serial < t.serial) && (forall x | x in b :: t.serial < x.serial)
  {
    if Ascending(a + [t] + b) { AscendingParts(a, t, b); }
    if && Ascending(a) && Ascending(b)
       && (forall x | x in a :: x.serial < t.serial) && (forall x | x in b :: t.serial < x.serial) {
      AscendingJoin(a, t, b);
    }
  }

  lemma AscendingParts(a: seq<Task>, t: Task, b: seq<Task>)
    requires Ascending(a + [t] + b)
    ensures Ascending(a) && Ascending(b)
    ensures (forall x | x in a :: x.serial < t.serial) && (forall x | x in b :: t.serial < x.serial)
  {
    var ts := a + [t] + b;
    assert ts[|a|] == t;
    forall i | 0 <= i < |a| ensures a[i] == ts[i] {}
    forall i | 0 <= i < |b| ensures b[i] == ts[|a| + 1 + i] {}
  }

  lemma AscendingJoin(a: seq<Task>, t: Task, b: seq<Task>)
    requires Ascending(a) && Ascending(b)
    requires (forall x | x in a :: x.serial < t.serial) && (forall x | x in b :: t.serial < x.serial)
    ensures Ascending(a + [t] + b)
  {
    var ts := a + [t] + b;
    forall i, j | 0 <= i < j < |ts|
      ensures ts[i].serial < ts[j].serial
    {
      if i < |a| { assert ts[i] in a; }
      if |a| < j { assert ts[j] in b; }
    }
  }

  lemma ReapSane(s: Sched)
    requires s.Active? && Sane(s)
    ensures Sane(Reap(s)) && forall t | t in Line(Reap(s)) :: t.status == Ready
  {
    AscendingAround(s.before, s.now, s.after);
    AwakeAscending(s.before);
    AwakeAscending(s.after);
    forall t
      ensures t in Awake(s.before) <==> t in s.before && t.status != Dead
      ensures t in Awake(s.after) <==> t in s.after && t.status != Dead
    {
      AwakeIn(s.before, t);
      AwakeIn(s.after, t);
    }
    AscendingAround(Awake(s.before), s.now, Awake(s.after));
  }

  /** The same tasks in the same order, whatever their status. */
  predicate SameTasks(a: seq<Task>, b: seq<Task>) {
    |a| == |b| && forall i | 0 <= i < |a| :: SameTask(a[i], b[i])
  }

  predicate SameTask(a: Task, b: Task) {
    a.tcb == b.tcb && a.stack == b.stack && a.serial == b.serial
  }

  /** Switching moves no task in the ring. */
  lemma SwitchSame(s: Sched, i: nat, rsp: nat)
    requires s.Active? && i < |Line(s)|
    ensures SameTasks(Ring(SwitchTo(s, i, rsp)), Ring(s))
  {
    var prev := Suspended(s.now, rsp);
    SameMiddle(s.before, s.now, prev, s.after);
    if i < |s.after| {
      var (front, next, rest) := (s.before + [prev] + s.after[..i], s.after[i], s.after[i + 1..]);
      assert s.before + [prev] + s.after == front + [next] + rest;
      SameMiddle(front, next, Resumed(next), rest);
    } else {
      var j := i - |s.after|;
      var (front, next, rest) := (s.before[..j], s.before[j], s.before[j + 1..] + [prev] + s.after);
      assert s.before + [prev] + s.after == front + [next] + rest;
      SameMiddle(front, next, Resumed(next), rest);
    }
  }

  lemma SameMiddle(front: seq<Task>, t: Task, t': Task, rest: seq<Task>)
    requires SameTask(t', t)
    ensures SameTasks(front + [t'] + rest, front + [t] + rest)
  {
  }

  lemma SameAscending(a: seq<Task>, b: seq<Task>)
    requires SameTasks(a, b) && Ascending(b)
    ensures Ascending(a)
  {
  }

  /**
   Where the others are all READY, the current task's successor is picked and the current task goes to the end of the
   line.
   */
  lemma SwitchNext(s: Sched, rsp: nat)
    requires s.Active? && Line(s) != [] && Line(s)[0].status == Ready
    ensures FirstReady(Line(s)) == 0
    ensures var s' := SwitchTo(s, 0, rsp);
            s'.Active? && s'.now == Resumed(Line(s)[0]) && Line(s') == Line(s)[1..] + [Suspended(s.now, rsp)]
  {
    var s', l := SwitchTo(s, 0, rsp), Line(s);
    if s.after == [] {
      assert Line(s') == s.before[1..] + [Suspended(s.now, rsp)] + s.after + s.before[..0];
    } else {
      assert l[1..] == s.after[1..] + s.before;
      assert Line(s') == s.after[1..] + (s.before + [Suspended(s.now, rsp)] + s.after[..0]);
    }
  }

  /**
   What schedule does to a sane ring: it stays sane and in order; the task that runs next is the one that
   follows the current one once the dead are gone, if there is any; the old current task waits last.
   */
  lemma ScheduleSane(s: Sched, rsp: nat)
    requires s.Active? && Sane(s)
    ensures var s', line := Schedule(s, rsp), Awake(Line(s));
            && s'.Active? && Sane(s')
            && (line == [] ==> s' == Active([], s.now, []))
            && (line != [] ==> s'.now == Resumed(line[0]) && Line(s') == line[1..] + [Suspended(s.now, rsp)])
  {
    var r := Reap(s);
    ReapSane(s);
    AwakeCat(s.after, s.before);
    assert Line(r) == Awake(Line(s));
    if Line(r) != [] {
      assert Line(r)[0] in Line(r);
      SwitchNext(r, rsp);
      SwitchSame(r, 0, rsp);
      SameAscending(Ring(SwitchTo(r, 0, rsp)), Ring(r));
    }
  }
}
