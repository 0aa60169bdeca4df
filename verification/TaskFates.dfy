/**
 What becomes of a task (kernel/src/task.c), step by step and over whole runs: it waits and runs until it exits, then
 it never runs again, and the next call of schedule takes it away.
 */
module TaskFates {
  import opened HeapLayout
  import opened Tasks
  import opened TaskRuns

  /** Somebody else could run. */
  predicate Company(s: Sched) {
    exists t | t in Line(s) :: t.status != Dead
  }

  /** The k-th task in line is the first that is not dead. */
  predicate NextUp(s: Sched, k: nat) {
    k < |Line(s)| && Line(s)[k].status != Dead && forall j | 0 <= j < k :: Line(s)[j].status == Dead
  }

  /** Who waits after the k-th task in line has got the processor: the others that are not dead, and the caller. */
  predicate WaitsAfter(s: Sched, k: nat, rsp: nat, t: Task)
    requires s.Active? && k < |Line(s)|
  {
    || (t in Line(s) && t.status != Dead && t != Line(s)[k])
    || t == Task(s.now.tcb, s.now.stack, s.now.serial, if s.now.status == Dead then Dead else Ready, rsp)
  }

  // ---- One call of schedule ----

  lemma {:induction false} FirstAwake(ts: seq<Task>) returns (k: nat)
    requires Awake(ts) != []
    ensures k < |ts| && ts[k].status != Dead && Awake(ts)[0] == ts[k] && forall j | 0 <= j < k :: ts[j].status == Dead
  {
    if ts[0].status != Dead {
      k := 0;
    } else {
      k := FirstAwake(ts[1..]);
      k := k + 1;
    }
  }

  lemma AwakeCompany(s: Sched)
    ensures Awake(Line(s)) != [] <==> Company(s)
  {
    forall t
      ensures t in Awake(Line(s)) <==> t in Line(s) && t.status != Dead
    {
      AwakeIn(Line(s), t);
    }
    if Awake(Line(s)) != [] { assert Awake(Line(s))[0] in Awake(Line(s)); }
  }

  /** The tasks in line are told apart by their numbers, and from the current one. */
  lemma LineApart(s: Sched)
    requires s.Active? && Ascending(Ring(s))
    ensures forall i, j | 0 <= i < j < |Line(s)| :: Line(s)[i].serial != Line(s)[j].serial
    ensures forall t | t in Line(s) :: t.serial != s.now.serial
  {
    AscendingAround(s.before, s.now, s.after);
  }

  lemma TailMembers(line: seq<Task>, t: Task)
    requires line != [] && forall i, j | 0 <= i < j < |line| :: line[i].serial != line[j].serial
    ensures t in line[1..] <==> t in line && t != line[0]
  {
  }

  /**
   What schedule means: the first task in line that is not dead runs; the dead in line are gone; the caller waits, READY
   unless it is dead, with its stack pointer. With nobody to run, the caller keeps the processor.
   */
  lemma ScheduleMeans(s: Sched, rsp: nat) returns (k: nat)
    requires s.Active? && Sane(s)
    ensures !Company(s) ==> Schedule(s, rsp) == Active([], s.now, [])
    ensures Company(s) ==>
              && NextUp(s, k) && Schedule(s, rsp).Active?
              && var next := Line(s)[k];
                 && Schedule(s, rsp).now == Task(next.tcb, next.stack, next.serial, Running, next.rsp)
                 && forall t :: t in Line(Schedule(s, rsp)) <==> WaitsAfter(s, k, rsp, t)
  {
    var s', line := Schedule(s, rsp), Awake(Line(s));
    ScheduleSane(s, rsp);
    AwakeCompany(s);
    k := 0;
    if line != [] {
      k := FirstAwake(Line(s));
      ReapLine(s);
      LineApart(Reap(s));
      forall t
        ensures t in Line(s') <==> WaitsAfter(s, k, rsp, t)
      {
        AwakeIn(Line(s), t);
        TailMembers(line, t);
      }
    }
  }

  lemma ReapLine(s: Sched)
    requires s.Active? && Sane(s)
    ensures Reap(s).Active? && Ascending(Ring(Reap(s))) && Line(Reap(s)) == Awake(Line(s))
  {
    ReapSane(s);
    AwakeCat(s.after, s.before);
  }

  // ---- What a step does to one task ----

  /** The task number n is in the ring with this status and these blocks. */
  ghost predicate Stands(s: Sched, n: nat, status: Status, blocks: set<Block>) {
    exists t | t in Ring(s) :: t.serial == n && t.status == status && Blocks(t) == blocks
  }

  predicate Gone(s: Sched, n: nat) {
    forall t | t in Ring(s) :: t.serial != n
  }

  /** A running task that is switched out is READY. */
  lemma SwitchedOutReady(y: System, rsp: nat)
    requires Inv(y) && y.sched.Active? && y.sched.now.status == Running && Company(y.sched)
    ensures var s' := Step(y, Tick(rsp)).sched;
            s'.Active? && s'.now.serial != y.sched.now.serial && s'.now.status == Running
            && Stands(s', y.sched.now.serial, Ready, Blocks(y.sched.now))
  {
    var k := ScheduleMeans(y.sched, rsp);
    Handed(y.sched, rsp, k);
  }

  lemma Handed(s: Sched, rsp: nat, k: nat)
    requires s.Active? && Sane(s) && NextUp(s, k) && Schedule(s, rsp).Active?
    requires Schedule(s, rsp).now.serial == Line(s)[k].serial
    requires forall t :: t in Line(Schedule(s, rsp)) <==> WaitsAfter(s, k, rsp, t)
    ensures Schedule(s, rsp).now.serial != s.now.serial
    ensures Stands(Schedule(s, rsp), s.now.serial, if s.now.status == Dead then Dead else Ready, Blocks(s.now))
  {
    var t := Task(s.now.tcb, s.now.stack, s.now.serial, if s.now.status == Dead then Dead else Ready, rsp);
    assert WaitsAfter(s, k, rsp, t);
    assert t in Ring(Schedule(s, rsp)) && Blocks(t) == Blocks(s.now);
    LineApart(s);
    assert Line(s)[k] in Line(s);
  }

  /** task_exit is schedule called by a dead task. */
  lemma ExitSchedules(y: System, rsp: nat) returns (s: Sched)
    requires Inv(y) && y.sched.Active?
    ensures s.Active? && Sane(s) && Line(s) == Line(y.sched) && s.now == y.sched.now.(status := Dead)
    ensures Step(y, Exit(rsp)).sched == Schedule(s, rsp)
  {
    MarkDeadInv(y);
    s := MarkDead(y.sched);
  }

  /** With somebody else to run, the task that exits is dead in the ring, and another one runs. */
  lemma ExitDies(y: System, rsp: nat)
    requires Inv(y) && y.sched.Active? && Company(y.sched)
    ensures var s' := Step(y, Exit(rsp)).sched;
            s'.Active? && s'.now.serial != y.sched.now.serial && s'.now.status == Running
            && Stands(s', y.sched.now.serial, Dead, Blocks(y.sched.now))
  {
    var s := ExitSchedules(y, rsp);
    var k := ScheduleMeans(s, rsp);
    Handed(s, rsp, k);
    assert Blocks(s.now) == Blocks(y.sched.now);
  }

  /** Alone in the ring, or among the dead, it stays current, and dead. */
  lemma ExitAlone(y: System, rsp: nat)
    requires Inv(y) && y.sched.Active? && !Company(y.sched)
    ensures Ring(Step(y, Exit(rsp)).sched) == [y.sched.now.(status := Dead)]
  {
    var s := ExitSchedules(y, rsp);
    var _ := ScheduleMeans(s, rsp);
  }

  /** A dead task in line is gone after the next call of schedule, and its blocks are free. */
  lemma DeadGoes(y: System, e: Event, t: Task)
    requires Inv(y) && Allowed(y, e) && (e.Tick? || e.Exit?) && y.sched.Active?
    requires t in Line(y.sched) && t.status == Dead
    ensures Gone(Step(y, e).sched, t.serial) && Blocks(t) !! Live(Step(y, e).heap.blocks)
  {
    match e
    case Tick(rsp) => DeadReaped(y, rsp, t);
    case Exit(rsp) =>
      MarkDeadInv(y);
      assert Line(MarkDead(y.sched)) == Line(y.sched);
      DeadReaped(Exited(y), rsp, t);
  }

  lemma DeadReaped(y: System, rsp: nat, t: Task)
    requires Inv(y) && y.sched.Active? && t in Line(y.sched) && t.status == Dead
    ensures Gone(Scheduled(y, rsp).sched, t.serial) && Blocks(t) !! Live(Scheduled(y, rsp).heap.blocks)
  {
    ReapHeld(y.sched, Live(y.heap.blocks));
    DeadLeaves(y.sched, rsp, t);
    assert t in Ring(y.sched) && Blocks(t) <= Owned(Ring(y.sched));
    forall u | u in Ring(Reap(y.sched))
      ensures Blocks(u) !! Blocks(t)
    {
      AwakeIn(y.sched.before, u);
      AwakeIn(y.sched.after, u);
      assert u in Ring(y.sched);
    }
  }

  lemma DeadLeaves(s: Sched, rsp: nat, t: Task)
    requires s.Active? && Sane(s) && t in Line(s) && t.status == Dead
    ensures Gone(Schedule(s, rsp), t.serial) && Gone(Reap(s), t.serial)
  {
    LineApart(s);
    forall u | u in Ring(Reap(s))
      ensures u.serial != t.serial
    {
      AwakeIn(s.before, u);
      AwakeIn(s.after, u);
      if u.serial == t.serial { OneOfNumber(s, t, u); }
    }
    if Schedule(s, rsp) != Reap(s) {
      SwitchSame(Reap(s), FirstReady(Line(Reap(s))), rsp);
      SameNumbers(Ring(Schedule(s, rsp)), Ring(Reap(s)), t.serial);
    }
  }

  lemma OneOfNumber(s: Sched, t: Task, u: Task)
    requires s.Active? && Ascending(Ring(s)) && t in Line(s) && (u == s.now || u in Line(s)) && t.serial == u.serial
    ensures t == u
  {
    LineApart(s);
  }

  lemma SameNumbers(a: seq<Task>, b: seq<Task>, n: nat)
    requires SameTasks(a, b) && forall t | t in b :: t.serial != n
    ensures forall t | t in a :: t.serial != n
  {
  }

  // ---- Whole runs ----

  /** The task number n is in the ring, and not dead. */
  predicate Alive(s: Sched, n: nat) {
    exists t | t in Ring(s) :: t.serial == n && t.status != Dead
  }

  lemma AliveAround(s: Sched, n: nat)
    requires s.Active?
    ensures Alive(s, n) <==>
            (s.now.serial == n && s.now.status != Dead) || exists t | t in Line(s) :: t.serial == n && t.status != Dead
  {
    assert forall t :: t in Ring(s) <==> t == s.now || t in Line(s);
  }

  /** schedule neither kills nor revives. */
  lemma ScheduleAlive(s: Sched, rsp: nat, n: nat)
    requires s.Active? && Sane(s)
    ensures Schedule(s, rsp).Active? && (Alive(Schedule(s, rsp), n) <==> Alive(s, n))
  {
    var s' := Schedule(s, rsp);
    var k := ScheduleMeans(s, rsp);
    AliveAround(s, n);
    AliveAround(s', n);
    if Company(s) { HandedAlive(s, rsp, k, n, s'); }
  }

  lemma HandedAlive(s: Sched, rsp: nat, k: nat, n: nat, s': Sched)
    requires s.Active? && NextUp(s, k) && s'.Active? && s'.now == Line(s)[k].(status := Running)
    requires forall t :: t in Line(s') <==> WaitsAfter(s, k, rsp, t)
    ensures (s'.now.serial == n && s'.now.status != Dead)
            || (exists t | t in Line(s') :: t.serial == n && t.status != Dead) <==>
            (s.now.serial == n && s.now.status != Dead) || exists t | t in Line(s) :: t.serial == n && t.status != Dead
  {
    var caller := Task(s.now.tcb, s.now.stack, s.now.serial, if s.now.status == Dead then Dead else Ready, rsp);
    assert WaitsAfter(s, k, rsp, caller) && caller in Line(s');
    assert Line(s)[k] in Line(s);
    if t :| t in Line(s) && t.serial == n && t.status != Dead { assert t == Line(s)[k] || WaitsAfter(s, k, rsp, t); }
  }

  lemma ExitAlive(y: System, rsp: nat, n: nat)
    requires Inv(y) && y.sched.Active?
    ensures Alive(Step(y, Exit(rsp)).sched, n) <==> Alive(y.sched, n) && !Runs(y.sched, n)
  {
    var s := ExitSchedules(y, rsp);
    ScheduleAlive(s, rsp, n);
    AliveAround(s, n);
    AliveAround(y.sched, n);
    LineApart(s);
  }

  /** task_create leaves the ring as it is or puts a READY task at its end. */
  lemma SpawnAppends(y: System) returns (t: Task)
    requires Inv(y)
    ensures var y' := Step(y, Spawn);
            || (y'.created == y.created && y'.sched == y.sched)
            || (y'.created == y.created + 1 && y'.sched == Append(y.sched, t))
    ensures t.serial == y.created && t.status == Ready
  {
    t := Task(Block(0, 0, true), BootStack, y.created, Ready, 0);
    SizesFit();
    if !Refused(y.heap, TCB_SIZE) {
      MallocGrants(y.heap, TCB_SIZE);
      var h1 := Malloc(y.heap, TCB_SIZE).0;
      if !Refused(h1, STACK_SIZE) {
        t := NewTask(NewBlock(y.heap, TCB_SIZE), NewBlock(h1, STACK_SIZE), y.created);
      }
    }
  }

  lemma AppendRing(s: Sched, t: Task)
    ensures Ring(Append(s, t)) == Ring(s) + [t]
  {
  }

  lemma SpawnAlive(y: System, n: nat)
    requires Inv(y) && n < y.created
    ensures Alive(Step(y, Spawn).sched, n) <==> Alive(y.sched, n)
    ensures y.created <= Step(y, Spawn).created
  {
    var t := SpawnAppends(y);
    AppendRing(y.sched, t);
  }

  /** A step kills a task exactly when it is the task's own exit. */
  lemma StepAlive(y: System, e: Event, n: nat)
    requires Inv(y) && Allowed(y, e) && n < y.created
    ensures n < Step(y, e).created
    ensures Alive(Step(y, e).sched, n) <==> Alive(y.sched, n) && !(e.Exit? && Runs(y.sched, n))
  {
    match e
    case Spawn => SpawnAlive(y, n);
    case Tick(rsp) => if y.sched.Active? { ScheduleAlive(y.sched, rsp, n); }
    case Exit(rsp) => ExitAlive(y, rsp, n);
    case Client(_) =>
  }

  /** In the course of these calls the task number n calls task_exit. */
  ghost predicate ExitsIn(y: System, es: seq<Event>, n: nat)
    requires Inv(y) && Legal(y, es)
    decreases |es|
  {
    es != [] && ((es[0].Exit? && Runs(y.sched, n)) || ExitsIn(Step(y, es[0]), es[1..], n))
  }

  /** In every run a task is in the ring and not dead until it exits, and never after. */
  lemma {:induction false} AliveUntilExit(y: System, es: seq<Event>, n: nat)
    requires Inv(y) && Legal(y, es) && n < y.created
    ensures Alive(After(y, es).sched, n) <==> Alive(y.sched, n) && !ExitsIn(y, es, n)
    decreases |es|
  {
    if es != [] {
      StepAlive(y, es[0], n);
      AliveUntilExit(Step(y, es[0]), es[1..], n);
    }
  }

  /** A task that is created is READY, and so alive. */
  lemma SpawnedAlive(y: System)
    requires Inv(y) && Step(y, Spawn).created != y.created
    ensures Step(y, Spawn).created == y.created + 1 && Alive(Step(y, Spawn).sched, y.created)
  {
    var t := SpawnAppends(y);
    AppendRing(y.sched, t);
    assert t in Ring(Append(y.sched, t));
  }

  lemma NotYet(y: System, n: nat)
    requires Inv(y) && y.created <= n
    ensures !Runs(y.sched, n)
  {
    assert y.sched.Active? ==> y.sched.now in Ring(y.sched);
  }

  lemma CreatedBy(y: System, e: Event, n: nat)
    requires Inv(y) && Allowed(y, e) && y.created <= n < Step(y, e).created
    ensures Alive(Step(y, e).sched, n)
  {
    if e.Spawn? { SpawnedAlive(y); }
  }

  /** And so it is with the tasks that are created on the way. */
  lemma {:induction false} EveryTask(y: System, es: seq<Event>, n: nat)
    requires Inv(y) && Legal(y, es) && n < After(y, es).created && (n < y.created ==> Alive(y.sched, n))
    ensures Alive(After(y, es).sched, n) <==> !ExitsIn(y, es, n)
    decreases |es|
  {
    if n < y.created {
      AliveUntilExit(y, es, n);
    } else {
      var y1 := Step(y, es[0]);
      NotYet(y, n);
      if n < y1.created { CreatedBy(y, es[0], n); }
      EveryTask(y1, es[1..], n);
    }
  }

  /** In every run from task_init the tasks that are not dead are exactly those that have not called task_exit. */
  lemma AliveFromBoot(h: Heap, es: seq<Event>, n: nat)
    requires Valid(h) && Legal(Boot(h), es) && n < After(Boot(h), es).created
    ensures Alive(After(Boot(h), es).sched, n) <==> !ExitsIn(Boot(h), es, n)
  {
    var y := Boot(h);
    if n < y.created { assert y.sched.now in Ring(y.sched); }
    EveryTask(y, es, n);
  }

  /** The task number n is not current, and dead if it is still in the ring. */
  ghost predicate Over(y: System, n: nat) {
    && y.sched.Active? && n < y.created && y.sched.now.serial != n
    && forall t | t in Line(y.sched) && t.serial == n :: t.status == Dead
  }

  lemma OverScheduled(s: Sched, rsp: nat, n: nat)
    requires s.Active? && Sane(s) && s.now.serial != n && forall t | t in Line(s) && t.serial == n :: t.status == Dead
    ensures Schedule(s, rsp).Active? && Gone(Schedule(s, rsp), n)
  {
    var s' := Schedule(s, rsp);
    var k := ScheduleMeans(s, rsp);
    if Company(s) {
      assert Line(s)[k] in Line(s);
      assert forall t :: t in Ring(s') <==> t == s'.now || t in Line(s');
    }
  }

  lemma OverStays(y: System, e: Event, n: nat)
    requires Inv(y) && Allowed(y, e) && Over(y, n)
    ensures Over(Step(y, e), n) && (e.Tick? || e.Exit? || Gone(y.sched, n) ==> Gone(Step(y, e).sched, n))
  {
    match e
    case Spawn => SpawnOver(y, n);
    case Tick(rsp) => OverScheduled(y.sched, rsp, n);
    case Exit(rsp) =>
      var s := ExitSchedules(y, rsp);
      OverScheduled(s, rsp, n);
    case Client(_) =>
  }

  lemma SpawnOver(y: System, n: nat)
    requires Inv(y) && Over(y, n)
    ensures Over(Step(y, Spawn), n) && (Gone(y.sched, n) ==> Gone(Step(y, Spawn).sched, n))
  {
    var t := SpawnAppends(y);
    AppendRing(y.sched, t);
    AppendLine(y.sched, t);
  }

  lemma AppendLine(s: Sched, t: Task)
    requires s.Active?
    ensures Append(s, t).Active? && Append(s, t).now == s.now
    ensures forall u :: u in Line(Append(s, t)) <==> u in Line(s) || u == t
  {
  }

  lemma {:induction false} StaysOver(y: System, es: seq<Event>, n: nat)
    requires Inv(y) && Legal(y, es) && Over(y, n)
    ensures Over(After(y, es), n) && (Schedules(es) > 0 || Gone(y.sched, n) ==> Gone(After(y, es).sched, n))
    decreases |es|
  {
    if es != [] {
      OverStays(y, es[0], n);
      StaysOver(Step(y, es[0]), es[1..], n);
    }
  }

  /**
   A task that exits while somebody else can run never runs again, whatever happens afterwards, and from the next call
   of schedule on it is not in the ring either.
   */
  lemma NeverRunsAgain(y: System, rsp: nat, es: seq<Event>)
    requires Inv(y) && y.sched.Active? && Company(y.sched) && Legal(Step(y, Exit(rsp)), es)
    ensures var n, y' := y.sched.now.serial, After(Step(y, Exit(rsp)), es);
            !Runs(y'.sched, n) && (Schedules(es) > 0 ==> Gone(y'.sched, n))
  {
    var n := y.sched.now.serial;
    ExitDies(y, rsp);
    ExitOver(y, rsp);
    StaysOver(Step(y, Exit(rsp)), es, n);
  }

  lemma ExitOver(y: System, rsp: nat)
    requires Inv(y) && y.sched.Active? && Company(y.sched)
    ensures Over(Step(y, Exit(rsp)), y.sched.now.serial)
  {
    var n, y' := y.sched.now.serial, Step(y, Exit(rsp));
    ExitDies(y, rsp);
    ExitAlive(y, rsp, n);
    assert y.sched.now in Ring(y.sched);
    assert forall t | t in Line(y'.sched) :: t in Ring(y'.sched);
  }
}
