/**
 Runs of the task system: creation, scheduling and exit over the kernel heap (kernel/src/task.c on
 kernel/src/kheap.c), interleaved with other users of the heap.
 */
module TaskRuns {
  import opened Bits
  import opened HeapLayout
  import opened Tasks

  // ---- Blocks owned by tasks ----

  /** The heap blocks of a task: its control block and its stack. */
  ghost function Blocks(t: Task): set<Block> {
    match t.stack
    case BootStack => {t.tcb}
    case Own(b) => {t.tcb, b}
  }

  ghost function Owned(ts: seq<Task>): set<Block> {
    set t, b | t in ts && b in Blocks(t) :: b
  }

  /** A stack from the heap is another block than the control block, with room for the stack. */
  predicate RightStack(t: Task) {
    t.stack.Own? ==> t.stack.block != t.tcb && t.stack.block.size >= STACK_SIZE + HEADER
  }

  /** Every task's blocks are live and belong to it alone. */
  ghost predicate Held(ts: seq<Task>, live: set<Block>) {
    && (forall t | t in ts :: Blocks(t) <= live && RightStack(t))
    && (forall t, u | t in ts && u in ts && t.serial != u.serial :: Blocks(t) !! Blocks(u))
  }

  /** The heap without some of its live blocks. By `Canonical` there is only one such heap. */
  ghost function Without(h: Heap, gone: set<Block>): (h': Heap)
    requires Valid(h) && gone <= Live(h.blocks)
    ensures Valid(h') && h'.end == h.end && Live(h'.blocks) == Live(h.blocks) - gone
    decreases gone
  {
    if gone == {} then h
    else
      var b :| b in gone;
      FreeKeeps(h, b);
      Without(Free(h, b), gone - {b})
  }

  /** Freeing the blocks one by one in any order ends in that heap. */
  lemma WithoutUnique(h: Heap, gone: set<Block>, h': Heap)
    requires Valid(h) && gone <= Live(h.blocks)
    requires Valid(h') && h'.end == h.end && Live(h'.blocks) == Live(h.blocks) - gone
    ensures h' == Without(h, gone)
  {
    Canonical(h'.blocks, Without(h, gone).blocks, START, h.end);
  }

  lemma OwnedCat(a: seq<Task>, b: seq<Task>)
    ensures Owned(a + b) == Owned(a) + Owned(b)
  {
  }

  lemma OwnedSame(a: seq<Task>, b: seq<Task>)
    requires SameTasks(a, b)
    ensures Owned(a) == Owned(b)
  {
    forall i | 0 <= i < |a| ensures Blocks(a[i]) == Blocks(b[i]) && a[i] in a && b[i] in b {}
  }

  lemma HeldSame(a: seq<Task>, b: seq<Task>, live: set<Block>)
    requires SameTasks(a, b) && Held(b, live)
    ensures Held(a, live)
  {
    forall i | 0 <= i < |a| ensures Blocks(a[i]) == Blocks(b[i]) && b[i] in b {}
  }

  lemma HeldFewer(a: seq<Task>, b: seq<Task>, live: set<Block>)
    requires Held(b, live) && forall t | t in a :: t in b
    ensures Owned(a) <= Owned(b) <= live && Held(a, live - (Owned(b) - Owned(a)))
  {
    forall t | t in a ensures Blocks(t) <= Owned(a) {}
  }

  lemma HeldMore(ts: seq<Task>, t: Task, live: set<Block>)
    requires Held(ts, live) && Blocks(t) !! live && RightStack(t)
    ensures Held(ts + [t], live + Blocks(t)) && Owned(ts + [t]) == Owned(ts) + Blocks(t)
  {
    OwnedCat(ts, [t]);
    assert t in [t];
  }

  // ---- The system ----

  datatype System = System(sched: Sched, created: nat, heap: Heap)

  /** Calls into task.c, and calls of other users of the heap. `rsp` is the stack pointer switch_to saves. */
  datatype Event = Spawn | Tick(rsp: nat) | Exit(rsp: nat) | Client(op: Op)

  ghost predicate Inv(y: System) {
    && Sane(y.sched) && Valid(y.heap) && Held(Ring(y.sched), Live(y.heap.blocks))
    && forall t | t in Ring(y.sched) :: t.serial < y.created
  }

  /** There is a current task to exit; other users of the heap free only what is not a task's. */
  ghost predicate Allowed(y: System, e: Event) {
    match e
    case Spawn => true
    case Tick(_) => true
    case Exit(_) => y.sched.Active?
    case Client(op) => Can(y.heap, op) && (op.Release? ==> op.b !in Owned(Ring(y.sched)))
  }

  lemma SizesFit()
    ensures NoWrap(TCB_SIZE) && NoWrap(STACK_SIZE) && BlockSize(TCB_SIZE) + 4095 < WORD
    ensures BlockSize(STACK_SIZE) + 4095 < WORD
  {
    BlockSizeFits(TCB_SIZE);
    BlockSizeFits(STACK_SIZE);
  }

  function NewTask(tcb: Block, stack: Block, serial: nat): Task {
    Task(tcb, Own(stack), serial, Ready, stack.addr + HEADER + STACK_SIZE - FIRST_FRAME)
  }

  /** task_create: both blocks or neither. */
  function Create(y: System): System
    requires Valid(y.heap)
  {
    SizesFit();
    if Refused(y.heap, TCB_SIZE) then y
    else
      MallocGrants(y.heap, TCB_SIZE);
      var h1, tcb := Malloc(y.heap, TCB_SIZE).0, NewBlock(y.heap, TCB_SIZE);
      if Refused(h1, STACK_SIZE) then y.(heap := Free(h1, tcb))
      else
        var t := NewTask(tcb, NewBlock(h1, STACK_SIZE), y.created);
        System(Append(y.sched, t), y.created + 1, Malloc(h1, STACK_SIZE).0)
  }

  /** What reaping frees. */
  ghost function Reaped(s: Sched): set<Block> {
    Owned(Ring(s)) - Owned(Ring(Reap(s)))
  }

  lemma ReapHeld(s: Sched, live: set<Block>)
    requires Held(Ring(s), live)
    ensures Owned(Ring(Reap(s))) <= Owned(Ring(s)) <= live && Held(Ring(Reap(s)), live - Reaped(s))
  {
    if s.Active? {
      forall t | t in Ring(Reap(s))
        ensures t in Ring(s)
      {
        AwakeIn(s.before, t);
        AwakeIn(s.after, t);
      }
    }
    HeldFewer(Ring(Reap(s)), Ring(s), live);
  }

  ghost function Scheduled(y: System, rsp: nat): System
    requires Valid(y.heap) && Held(Ring(y.sched), Live(y.heap.blocks))
  {
    ReapHeld(y.sched, Live(y.heap.blocks));
    y.(sched := Schedule(y.sched, rsp), heap := Without(y.heap, Reaped(y.sched)))
  }

  lemma ScheduleHeld(s: Sched, rsp: nat, live: set<Block>)
    requires Held(Ring(s), live)
    ensures Owned(Ring(Schedule(s, rsp))) == Owned(Ring(Reap(s))) && Held(Ring(Schedule(s, rsp)), live - Reaped(s))
    ensures forall t | t in Ring(Schedule(s, rsp)) :: exists u | u in Ring(s) :: SameTask(t, u)
  {
    var r, s' := Reap(s), Schedule(s, rsp);
    ReapHeld(s, live);
    if s' != r { SwitchSame(r, FirstReady(Line(r)), rsp); }
    OwnedSame(Ring(s'), Ring(r));
    HeldSame(Ring(s'), Ring(r), live - Reaped(s));
    forall i | 0 <= i < |Ring(s')|
      ensures Ring(r)[i] in Ring(s) && SameTask(Ring(s')[i], Ring(r)[i])
    {
      if s.Active? {
        AwakeIn(s.before, Ring(r)[i]);
        AwakeIn(s.after, Ring(r)[i]);
      }
    }
  }

  lemma ScheduledInv(y: System, rsp: nat)
    requires Inv(y)
    ensures Inv(Scheduled(y, rsp))
    ensures var y' := Scheduled(y, rsp);
            Live(y'.heap.blocks) - Owned(Ring(y'.sched)) == Live(y.heap.blocks) - Owned(Ring(y.sched))
  {
    ScheduleHeld(y.sched, rsp, Live(y.heap.blocks));
    ReapHeld(y.sched, Live(y.heap.blocks));
    if y.sched.Active? { ScheduleSane(y.sched, rsp); }
  }

  /** Only the task that called schedule can be dead afterwards. */
  lemma DeadIsCaller(s: Sched, rsp: nat, t: Task)
    requires s.Active? && Sane(s) && t in Ring(Schedule(s, rsp)) && t.status == Dead
    ensures t == if Awake(Line(s)) == [] then s.now else Suspended(s.now, rsp)
  {
    var s', line := Schedule(s, rsp), Awake(Line(s));
    ScheduleSane(s, rsp);
    AwakeIn(Line(s), t);
    assert t == s'.now || t in Line(s');
    if line != [] { assert t in line[1..] ==> t in line; }
  }

  /**
   After schedule at most one task is dead: the current one, alone in the ring, or the one that just stopped running.
   */
  lemma OneDeadAtMost(s: Sched, rsp: nat, t: Task, u: Task)
    requires s.Active? && Sane(s)
    requires t in Ring(Schedule(s, rsp)) && t.status == Dead && u in Ring(Schedule(s, rsp)) && u.status == Dead
    ensures t == u
  {
    DeadIsCaller(s, rsp, t);
    DeadIsCaller(s, rsp, u);
  }

  lemma CreateInv(y: System)
    requires Inv(y)
    ensures Inv(Create(y))
    ensures var y' := Create(y);
            && Live(y'.heap.blocks) - Owned(Ring(y'.sched)) == Live(y.heap.blocks) - Owned(Ring(y.sched))
            && (y'.created == y.created ==> y'.sched == y.sched && Live(y'.heap.blocks) == Live(y.heap.blocks))
  {
    SizesFit();
    if !Refused(y.heap, TCB_SIZE) {
      MallocGrants(y.heap, TCB_SIZE);
      var h1, tcb := Malloc(y.heap, TCB_SIZE).0, NewBlock(y.heap, TCB_SIZE);
      if Refused(h1, STACK_SIZE) {
        FreeKeeps(h1, tcb);
      } else {
        MallocGrants(h1, STACK_SIZE);
        AppendInv(y, tcb, NewBlock(h1, STACK_SIZE), Malloc(h1, STACK_SIZE).0);
      }
    }
  }

  lemma AppendInv(y: System, tcb: Block, stack: Block, h: Heap)
    requires Inv(y) && Valid(h) && tcb !in Live(y.heap.blocks) && stack !in Live(y.heap.blocks) && tcb != stack
    requires stack.size >= STACK_SIZE + HEADER
    requires Live(h.blocks) == Live(y.heap.blocks) + {tcb} + {stack}
    ensures var y' := System(Append(y.sched, NewTask(tcb, stack, y.created)), y.created + 1, h);
            && Inv(y')
            && Live(y'.heap.blocks) - Owned(Ring(y'.sched)) == Live(y.heap.blocks) - Owned(Ring(y.sched))
  {
    var t := NewTask(tcb, stack, y.created);
    var s' := Append(y.sched, t);
    assert Ring(s') == Ring(y.sched) + [t];
    assert Live(h.blocks) == Live(y.heap.blocks) + Blocks(t);
    HeldMore(Ring(y.sched), t, Live(y.heap.blocks));
    assert Owned(Ring(y.sched)) <= Live(y.heap.blocks);
  }

  /** task_exit before it calls schedule. */
  function Exited(y: System): System
    requires y.sched.Active?
  {
    y.(sched := MarkDead(y.sched))
  }

  lemma MarkDeadSame(s: Sched)
    requires s.Active?
    ensures SameTasks(Ring(MarkDead(s)), Ring(s))
    ensures forall t | t in Ring(MarkDead(s)) :: t == MarkDead(s).now || t in Ring(s)
  {
  }

  lemma MarkDeadInv(y: System)
    requires Inv(y) && y.sched.Active?
    ensures Inv(Exited(y)) && Owned(Ring(MarkDead(y.sched))) == Owned(Ring(y.sched))
  {
    var s' := MarkDead(y.sched);
    MarkDeadSame(y.sched);
    OwnedSame(Ring(s'), Ring(y.sched));
    HeldSame(Ring(s'), Ring(y.sched), Live(y.heap.blocks));
    SameAscending(Ring(s'), Ring(y.sched));
  }

  lemma ClientInv(y: System, op: Op)
    requires Inv(y) && Allowed(y, Client(op))
    ensures Inv(y.(heap := Do(y.heap, op)))
  {
    match op
    case Alloc(size) => MallocGrants(y.heap, size);
    case Release(b) =>
      FreeKeeps(y.heap, b);
      assert forall t | t in Ring(y.sched) :: Blocks(t) <= Owned(Ring(y.sched));
  }

  // ---- Runs ----

  ghost function Step(y: System, e: Event): (y': System)
    requires Inv(y) && Allowed(y, e)
    ensures Inv(y')
  {
    match e
    case Spawn =>
      CreateInv(y);
      Create(y)
    case Tick(rsp) =>
      ScheduledInv(y, rsp);
      Scheduled(y, rsp)
    case Exit(rsp) =>
      MarkDeadInv(y);
      ScheduledInv(Exited(y), rsp);
      Scheduled(Exited(y), rsp)
    case Client(op) =>
      ClientInv(y, op);
      y.(heap := Do(y.heap, op))
  }

  ghost predicate Steps(y: System, e: Event, y': System) {
    Inv(y) && Allowed(y, e) && y' == Step(y, e)
  }

  lemma ExitSteps(y: System, rsp: nat, y1: System, y2: System)
    requires Inv(y) && y.sched.Active? && y1 == Exited(y) && Inv(y1) && y2 == Scheduled(y1, rsp)
    ensures Steps(y, Exit(rsp), y2)
  {
  }

  ghost predicate Legal(y: System, es: seq<Event>)
    requires Inv(y)
    decreases |es|
  {
    es == [] || (Allowed(y, es[0]) && Legal(Step(y, es[0]), es[1..]))
  }

  ghost function After(y: System, es: seq<Event>): (y': System)
    requires Inv(y) && Legal(y, es)
    ensures Inv(y')
    decreases |es|
  {
    if es == [] then y else After(Step(y, es[0]), es[1..])
  }

  /** The heap blocks that are none of these tasks'. */
  ghost function Rest(h: Heap, ts: seq<Task>): set<Block> {
    Live(h.blocks) - Owned(ts)
  }

  ghost function Others(y: System): set<Block> {
    Rest(y.heap, Ring(y.sched))
  }

  /** task_init establishes the invariant; with `After`, it holds in every state of every run. */
  ghost function Boot(h: Heap): (y: System)
    requires Valid(h)
    ensures Inv(y) && Others(y) == Live(h.blocks)
  {
    SizesFit();
    MallocGrants(h, TCB_SIZE);
    if Refused(h, TCB_SIZE) then System(Idle([]), 0, h)
    else
      var t := Task(NewBlock(h, TCB_SIZE), BootStack, 0, Running, 0);
      BootHeld(h, t);
      System(Active([], t, []), 1, Malloc(h, TCB_SIZE).0)
  }

  lemma BootHeld(h: Heap, t: Task)
    requires Valid(h) && t.tcb !in Live(h.blocks) && t.stack == BootStack
    ensures Held([] + [t] + [], Live(h.blocks) + {t.tcb}) && Owned([] + [t] + []) == {t.tcb}
  {
    HeldMore([], t, Live(h.blocks));
    assert [] + [t] + [] == [] + [t];
  }

  // ---- Conservation of task memory ----

  /** What a call does to the blocks held by other users of the heap: theirs change it, task.c's do not. */
  ghost function ClientsNow(y: System, e: Event, mine: set<Block>): set<Block>
    requires Inv(y) && Allowed(y, e)
  {
    match e
    case Client(Alloc(size)) => if Refused(y.heap, size) then mine else mine + {NewBlock(y.heap, size)}
    case Client(Release(b)) => mine - {b}
    case _ => mine
  }

  ghost function ClientsHold(y: System, es: seq<Event>, mine: set<Block>): set<Block>
    requires Inv(y) && Legal(y, es)
    decreases |es|
  {
    if es == [] then mine else ClientsHold(Step(y, es[0]), es[1..], ClientsNow(y, es[0], mine))
  }

  lemma StepConserves(y: System, e: Event)
    requires Inv(y) && Allowed(y, e)
    ensures Others(Step(y, e)) == ClientsNow(y, e, Others(y))
  {
    match e
    case Spawn => CreateInv(y);
    case Tick(rsp) => ScheduledInv(y, rsp);
    case Exit(rsp) =>
      MarkDeadInv(y);
      ScheduledInv(Exited(y), rsp);
    case Client(op) =>
      if op.Alloc? { MallocGrants(y.heap, op.size); } else { FreeKeeps(y.heap, op.b); }
      assert Owned(Ring(y.sched)) <= Live(y.heap.blocks);
  }

  lemma {:induction false} RunConserves(y: System, es: seq<Event>)
    requires Inv(y) && Legal(y, es)
    ensures Others(After(y, es)) == ClientsHold(y, es, Others(y))
    decreases |es|
  {
    if es != [] {
      StepConserves(y, es[0]);
      RunConserves(Step(y, es[0]), es[1..]);
    }
  }

  /**
   After every run from task_init the live blocks are exactly what other users hold and the control blocks
   and stacks of the tasks in the ring, which include the current task's.
   */
  lemma MemoryConserved(h: Heap, es: seq<Event>)
    requires Valid(h) && Legal(Boot(h), es)
    ensures var y := After(Boot(h), es);
            && Live(y.heap.blocks) == Owned(Ring(y.sched)) + ClientsHold(Boot(h), es, Live(h.blocks))
            && Owned(Ring(y.sched)) !! ClientsHold(Boot(h), es, Live(h.blocks))
            && (y.sched.Active? ==> Blocks(y.sched.now) <= Live(y.heap.blocks))
  {
    RunConserves(Boot(h), es);
    var y := After(Boot(h), es);
    assert Owned(Ring(y.sched)) <= Live(y.heap.blocks);
    assert y.sched.Active? ==> y.sched.now in Ring(y.sched);
  }

  // ---- Bounded waiting ----

  /** The task created as number n is READY, i tasks ahead of it in line. */
  predicate WaitsAt(s: Sched, n: nat, i: nat) {
    s.Active? && i < |Line(s)| && Line(s)[i].serial == n && Line(s)[i].status == Ready
  }

  predicate Runs(s: Sched, n: nat) {
    s.Active? && s.now.serial == n
  }

  /** Every call of schedule brings a READY task at least one place forward, or lets it run. */
  lemma ScheduleAdvances(s: Sched, rsp: nat, n: nat, i: nat) returns (j: nat)
    requires Sane(s) && WaitsAt(s, n, i)
    ensures Runs(Schedule(s, rsp), n) || (j < i && WaitsAt(Schedule(s, rsp), n, j))
  {
    var k := AwakeAt(Line(s), i);
    ScheduleSane(s, rsp);
    j := 0;
    if k > 0 {
      j := k - 1;
      SecondUp(Awake(Line(s)), Suspended(s.now, rsp), k);
    }
  }

  lemma SecondUp(line: seq<Task>, last: Task, k: nat)
    requires 0 < k < |line|
    ensures (line[1..] + [last])[k - 1] == line[k]
  {
  }

  /** A new task gets in line at most one place before it. */
  lemma AppendDelays(s: Sched, t: Task, n: nat, i: nat) returns (j: nat)
    requires WaitsAt(s, n, i)
    ensures j <= i + 1 && WaitsAt(Append(s, t), n, j)
  {
    j := if i < |s.after| then i else i + 1;
  }

  /** A task that has just been created is READY and waits behind some of those already in line. */
  lemma CreatedWaits(y: System) returns (i: nat)
    requires Inv(y) && y.sched.Active? && Create(y).created != y.created
    ensures i <= |Line(y.sched)| && WaitsAt(Create(y).sched, y.created, i)
  {
    i := |y.sched.after|;
  }

  function Schedules(es: seq<Event>): nat {
    if es == [] then 0 else (if es[0].Tick? || es[0].Exit? then 1 else 0) + Schedules(es[1..])
  }

  function Spawns(es: seq<Event>): nat {
    if es == [] then 0 else (if es[0].Spawn? then 1 else 0) + Spawns(es[1..])
  }

  lemma StepWaits(y: System, e: Event, n: nat, i: nat) returns (j: nat)
    requires Inv(y) && Allowed(y, e) && WaitsAt(y.sched, n, i)
    ensures Runs(Step(y, e).sched, n) || WaitsAt(Step(y, e).sched, n, j)
    ensures !Runs(Step(y, e).sched, n) ==> j + Schedules([e]) <= i + Spawns([e])
    ensures Runs(Step(y, e).sched, n) ==> Schedules([e]) == 1 || Runs(y.sched, n)
  {
    match e
    case Spawn =>
      j := i;
      if Create(y).sched != y.sched {
        SizesFit();
        var h1 := Malloc(y.heap, TCB_SIZE).0;
        MallocGrants(y.heap, TCB_SIZE);
        j := AppendDelays(y.sched, NewTask(NewBlock(y.heap, TCB_SIZE), NewBlock(h1, STACK_SIZE), y.created), n, i);
      }
    case Tick(rsp) => j := ScheduleAdvances(y.sched, rsp, n, i);
    case Exit(rsp) =>
      MarkDeadInv(y);
      assert WaitsAt(MarkDead(y.sched), n, i);
      j := ScheduleAdvances(MarkDead(y.sched), rsp, n, i);
    case Client(op) => j := i;
  }

  /** After the first k calls the task runs, and schedule was called at most i + 1 times plus once per task created. */
  ghost predicate Served(y: System, es: seq<Event>, n: nat, i: nat, k: nat)
    requires Inv(y)
  {
    && k <= |es| && Legal(y, es[..k]) && Runs(After(y, es[..k]).sched, n)
    && Schedules(es[..k]) <= i + 1 + Spawns(es[..k])
  }

  lemma ServedNow(y: System, es: seq<Event>, y1: System, n: nat, i: nat)
    requires es != [] && Steps(y, es[0], y1) && Runs(y1.sched, n)
    ensures Served(y, es, n, i, 1)
  {
    assert es[1..][..0] == [] && Legal(y1, es[1..][..0]) && After(y1, es[1..][..0]) == y1;
    Prefixed(y, es, 0);
  }

  lemma ServedLater(y: System, es: seq<Event>, y1: System, n: nat, i: nat, j: nat, m: nat)
    requires es != [] && Steps(y, es[0], y1) && Served(y1, es[1..], n, j, m)
    requires j + Schedules([es[0]]) <= i + Spawns([es[0]])
    ensures Served(y, es, n, i, m + 1)
  {
    Prefixed(y, es, m);
  }

  /**
   Bounded waiting: in any run with enough calls of schedule, a READY task with i tasks ahead of it runs
   at some point, and until then schedule was called at most i + 1 times plus once per task created.
   */
  lemma {:induction false} BoundedWaiting(y: System, es: seq<Event>, n: nat, i: nat) returns (k: nat)
    requires Inv(y) && Legal(y, es) && WaitsAt(y.sched, n, i)
    requires Schedules(es) >= i + 1 + Spawns(es)
    ensures Served(y, es, n, i, k)
    decreases |es|
  {
    var y1 := Step(y, es[0]);
    var j := StepWaits(y, es[0], n, i);
    Counts(es);
    if Runs(y1.sched, n) {
      k := 1;
      ServedNow(y, es, y1, n, i);
    } else {
      var m := BoundedWaiting(y1, es[1..], n, j);
      ServedLater(y, es, y1, n, i, j, m);
      k := m + 1;
    }
  }

  lemma Counts(es: seq<Event>)
    requires es != []
    ensures Schedules(es) == Schedules([es[0]]) + Schedules(es[1..]) && Spawns(es) == Spawns([es[0]]) + Spawns(es[1..])
  {
    assert [es[0]][1..] == [];
  }

  /** A run is its first call and the run of the rest. */
  lemma Prefixed(y: System, es: seq<Event>, m: nat)
    requires Inv(y) && es != [] && Allowed(y, es[0]) && m < |es| && Legal(Step(y, es[0]), es[1..][..m])
    ensures Legal(y, es[..m + 1]) && After(y, es[..m + 1]) == After(Step(y, es[0]), es[1..][..m])
    ensures Schedules(es[..m + 1]) == Schedules([es[0]]) + Schedules(es[1..][..m])
    ensures Spawns(es[..m + 1]) == Spawns([es[0]]) + Spawns(es[1..][..m])
  {
    var fs, y1 := es[..m + 1], Step(y, es[0]);
    assert fs[1..] == es[1..][..m] && fs[0] == es[0];
    Counts(fs);
    Unfolded(y, fs, y1);
  }

  lemma Unfolded(y: System, es: seq<Event>, y1: System)
    requires es != [] && Steps(y, es[0], y1) && Legal(y1, es[1..])
    ensures Legal(y, es) && After(y, es) == After(y1, es[1..])
  {
  }
}
