/**
 Whole runs of the task system on the processor (kernel/src/task.c, kernel/src/kheap.c and
 kernel/src/switch.S together): what the kernel writes spares every sleeping task's stack, so that
 each task of the ring resumes as it left.
 */
module TaskMachine {
  import opened Bits
  import opened HeapLayout
  import opened Kheap
  import opened Tasks
  import opened TaskRuns
  import opened TaskContexts
  import opened ContextSwitch
  import C = Contexts

  datatype Machine = Machine(regs: Context, mem: Memory)

  /**
   The running task computes, or calls into task.c or kheap.c. In `call` are the registers and memory with which
   schedule calls switch_to, and `pushed` is memory once that has pushed them; `trampoline` and `entry` go into a new
   task's first frame.
   */
  datatype Act = Compute | Call(e: Event, call: Machine, pushed: Memory, trampoline: Word, entry: Word)

  predicate InStack(t: Task, boot: C.Region, x: nat) {
    StackOf(t, boot).lo <= x < StackOf(t, boot).hi
  }

  predicate InPayload(b: Block, x: nat) {
    b.addr + HEADER <= x < b.addr + b.size
  }

  /** The stacks of these tasks have not changed. */
  ghost predicate StacksKept(ts: seq<Task>, boot: C.Region, mem: Memory, mem': Memory) {
    forall t, x: nat | t in ts && InStack(t, boot, x) :: mem'(x) == mem(x)
  }

  ghost predicate InControlBlock(ts: seq<Task>, x: nat) {
    exists t | t in ts :: InPayload(t.tcb, x)
  }

  /**
   Where a call may write: its own stack, the control blocks, and outside the payloads that are live before and
   after.
   */
  ghost predicate Writable(y: System, h': Heap, boot: C.Region, x: nat)
    requires y.sched.Active?
  {
    || InStack(y.sched.now, boot, x)
    || InControlBlock(Ring(y.sched), x)
    || ((x < boot.lo || boot.hi <= x)
        && forall b | b in Live(y.heap.blocks) && b in Live(h'.blocks) :: !InPayload(b, x))
  }

  ghost predicate Writes(y: System, h': Heap, boot: C.Region, mem: Memory, mem': Memory)
    requires y.sched.Active?
  {
    forall x: nat :: mem'(x) == mem(x) || Writable(y, h', boot, x)
  }

  /** The headers kmalloc or kfree writes may be written: they lie off the payloads that stay live. */
  lemma HeadersWritable(y: System, h': Heap, boot: C.Region, before: map<nat, Header>, after: map<nat, Header>,
                        live: set<Block>, x: nat)
    requires y.sched.Active? && Outside(boot) && h'.end <= START + MAX_SIZE
    requires OffPayloads(before, after, live, h'.end) && Live(y.heap.blocks) * Live(h'.blocks) <= live
    requires Written(before, after, x)
    ensures Writable(y, h', boot, x)
  {
    forall b | b in Live(y.heap.blocks) && b in Live(h'.blocks)
      ensures !InPayload(b, x)
    {
      if InPayload(b, x) { NotWritten(before, after, live, h'.end, b, x); }
    }
    var a: nat :| a in after && (a in before ==> after[a] != before[a]) && a <= x < a + HEADER;
    assert Off(a, live, h'.end);
  }

  /** So may a new block's payload, which kmalloc takes from no live block. */
  lemma NewPayloadWritable(y: System, h': Heap, boot: C.Region, b: Block, x: nat)
    requires y.sched.Active? && Outside(boot) && Valid(h') && b in Live(h'.blocks) && b !in Live(y.heap.blocks)
    requires InPayload(b, x)
    ensures Writable(y, h', boot, x)
  {
    forall c | c in Live(y.heap.blocks) && c in Live(h'.blocks)
      ensures !InPayload(c, x)
    {
      PayloadApart(h', b, c);
    }
    ChainBounds(h'.blocks, START, h'.end);
  }

  /** Memory that belongs to a block that was not live before. */
  ghost predicate InNew(h: Heap, h': Heap, x: nat) {
    exists b | b in Live(h'.blocks) && b !in Live(h.blocks) :: InPayload(b, x)
  }

  /** What a call writes: headers, control blocks, its own stack, and blocks it has just obtained. */
  ghost predicate Touched(y: System, h': Heap, boot: C.Region, before: map<nat, Header>, after: map<nat, Header>,
                          x: nat)
    requires y.sched.Active?
  {
    || Written(before, after, x) || InControlBlock(Ring(y.sched), x) || InStack(y.sched.now, boot, x)
    || InNew(y.heap, h', x)
  }

  ghost predicate OnlyTouched(y: System, h': Heap, boot: C.Region, before: map<nat, Header>, after: map<nat, Header>,
                              mem: Memory, mem': Memory)
    requires y.sched.Active?
  {
    forall x: nat :: mem'(x) == mem(x) || Touched(y, h', boot, before, after, x)
  }

  /** All of that may be written, because the heap's headers lie off the payloads that stay live. */
  lemma TouchedWrites(y: System, h': Heap, boot: C.Region, before: map<nat, Header>, after: map<nat, Header>,
                      live: set<Block>, mem: Memory, mem': Memory)
    requires y.sched.Active? && Outside(boot) && Valid(h') && OnlyTouched(y, h', boot, before, after, mem, mem')
    requires OffPayloads(before, after, live, h'.end) && Live(y.heap.blocks) * Live(h'.blocks) <= live
    ensures Writes(y, h', boot, mem, mem')
  {
    forall x: nat | Touched(y, h', boot, before, after, x)
      ensures Writable(y, h', boot, x)
    {
      if Written(before, after, x) {
        HeadersWritable(y, h', boot, before, after, live, x);
      } else if InNew(y.heap, h', x) {
        var b :| b in Live(h'.blocks) && b !in Live(y.heap.blocks) && InPayload(b, x);
        NewPayloadWritable(y, h', boot, b, x);
      }
    }
  }

  // ---- Sleeping tasks' stacks ----

  /** No byte that may be written is in the stack of a sleeping task that stays. */
  lemma NotWritable(y: System, h': Heap, boot: C.Region, t: Task, x: nat)
    requires y.sched.Active? && Inv(y) && BootFirst(y.sched) && Outside(boot)
    requires t in Line(y.sched) && (t.stack.Own? ==> t.stack.block in Live(h'.blocks)) && InStack(t, boot, x)
    ensures !Writable(y, h', boot, x)
  {
    LineDistinct(y.sched);
    StacksApart(y, boot, t, y.sched.now);
    forall u | u in Ring(y.sched)
      ensures !InPayload(u.tcb, x)
    {
      StackOffControlBlock(y, boot, t, u, x);
    }
    assert t.stack.Own? ==> t.stack.block in Blocks(t) && InPayload(t.stack.block, x);
  }

  lemma StackOffControlBlock(y: System, boot: C.Region, t: Task, u: Task, x: nat)
    requires Inv(y) && Outside(boot) && t in Ring(y.sched) && u in Ring(y.sched) && InStack(t, boot, x)
    ensures !InPayload(u.tcb, x)
  {
    assert u.tcb in Blocks(u);
    if t.stack.Own? {
      assert t.stack.block in Blocks(t);
      if t.serial == u.serial { Unique(Ring(y.sched), t, u); }
      PayloadApart(y.heap, u.tcb, t.stack.block);
    } else {
      ChainBounds(y.heap.blocks, START, y.heap.end);
    }
  }

  lemma WritesKeep(y: System, h': Heap, boot: C.Region, ts: seq<Task>, mem: Memory, mem': Memory)
    requires y.sched.Active? && Inv(y) && BootFirst(y.sched) && Outside(boot) && Writes(y, h', boot, mem, mem')
    requires forall t | t in ts :: t in Line(y.sched) && (t.stack.Own? ==> t.stack.block in Live(h'.blocks))
    ensures StacksKept(ts, boot, mem, mem')
  {
    forall t, x: nat | t in ts && InStack(t, boot, x)
      ensures mem'(x) == mem(x)
    {
      NotWritable(y, h', boot, t, x);
    }
  }

  // ---- Steps of the machine ----

  /** The calling task has room on its stack for what switch_to pushes. */
  predicate HasRoom(t: Task, boot: C.Region, rsp: nat) {
    StackOf(t, boot).lo + 48 <= rsp && rsp + 8 <= StackOf(t, boot).hi
  }

  /**
   switch_to: it pushes the caller's context, stores the stack pointer in the caller's control block, and loads the
   other context.
   */
  ghost predicate Switches(call: Machine, pushed: Memory, tcb: Block, newRsp: nat, m': Machine) {
    && call.regs.rsp >= 48 && FrameAt(pushed, call.regs.rsp - 48) == Caller(call.mem, call.regs)
    && SameOutside(pushed, call.mem, call.regs.rsp - 48, call.regs.rsp)
    && StoresIn(tcb, pushed, m'.mem) && m'.regs == FrameAt(m'.mem, newRsp)
  }

  /** Memory has changed in this block alone. */
  ghost predicate StoresIn(b: Block, mem: Memory, mem': Memory) {
    forall x: nat :: mem'(x) == mem(x) || InPayload(b, x)
  }

  /** schedule: it frees the dead tasks' blocks and, if anybody is left in line, switches to the first of them. */
  ghost predicate Scheduler(y: System, m: Machine, rsp: nat, call: Machine, pushed: Memory, y': System, m': Machine,
                            boot: C.Region)
    requires y.sched.Active?
  {
    && Writes(y, y'.heap, boot, m.mem, call.mem)
    && var line := Line(Reap(y.sched));
       if line == [] then m' == call
       else
         && HasRoom(y.sched.now, boot, call.regs.rsp) && call.regs.rsp == rsp + 48
         && Switches(call, pushed, y.sched.now.tcb, line[0].rsp, m')
  }

  /** task_create: a new task's frame is on its new stack. */
  ghost predicate Creates(y: System, m: Machine, trampoline: Word, entry: Word, y': System, m': Machine, boot: C.Region)
    requires y.sched.Active?
  {
    && Writes(y, y'.heap, boot, m.mem, m'.mem)
    && (y'.created != y.created ==>
          forall t | t in Ring(y'.sched) && t.serial == y.created ::
            FrameAt(m'.mem, t.rsp) == Fresh(StackOf(t, boot).hi, trampoline, entry))
  }

  ghost predicate Acts(y: System, m: Machine, a: Act, y': System, m': Machine, boot: C.Region) {
    && y.sched.Active?
    && match a
       case Compute => y' == y && StacksKept(Line(y.sched), boot, m.mem, m'.mem)
       case Call(e, call, pushed, trampoline, entry) =>
         && Steps(y, e, y')
         && match e
            case Spawn => Creates(y, m, trampoline, entry, y', m', boot)
            case Tick(rsp) => Scheduler(y, m, rsp, call, pushed, y', m', boot)
            case Exit(rsp) => Scheduler(Exited(y), m, rsp, call, pushed, y', m', boot)
            case Client(_) => Writes(y, y'.heap, boot, m.mem, m'.mem)
  }

  /** The task whose number is n, if it is in the ring. */
  ghost predicate Newest(s: Sched, n: nat, t: Task) {
    t in Ring(s) && t.serial == n
  }

  /** What the step is on the shared processor. */
  ghost function EventOf(y: System, a: Act, y': System, boot: C.Region): C.Event {
    match a
    case Compute => C.Work
    case Call(Client(_), _, _, _, _) => C.Work
    case Call(Spawn, _, _, trampoline, entry) =>
      if y'.created != y.created && exists t :: Newest(y'.sched, y.created, t) then
        var t :| Newest(y'.sched, y.created, t);
        C.Spawn(t.serial, StackOf(t, boot), trampoline, entry)
      else C.Work
    case Call(Tick(_), call, _, _, _) =>
      if y.sched.Active? then ScheduleEvent(y.sched, call.regs, call.mem) else C.Work
    case Call(Exit(_), call, _, _, _) =>
      if y.sched.Active? then ScheduleEvent(MarkDead(y.sched), call.regs, call.mem) else C.Work
  }

  /** The machine, the ring and the shared processor agree. */
  ghost predicate Joint(y: System, m: Machine, w: C.World, boot: C.Region) {
    && Inv(y) && y.sched.Active? && BootFirst(y.sched) && Matches(w, y.sched, boot)
    && w.regs == m.regs && w.mem == m.mem
  }

  lemma KeptUndisturbed(w: C.World, s: Sched, boot: C.Region, mem: Memory, mem': Memory)
    requires Matches(w, s, boot) && w.mem == mem' && StacksKept(Line(s), boot, mem, mem')
    ensures C.Undisturbed(w, mem)
  {
    forall n, x: nat | n in w.saved && n in w.stacks && w.stacks[n].lo <= x < w.stacks[n].hi
      ensures mem'(x) == mem(x)
    {
      var t :| t in Line(s) && t.serial == n;
      assert t in Ring(s) && InStack(t, boot, x);
    }
  }

  lemma WorkStep(y: System, m: Machine, y': System, m': Machine, boot: C.Region, w: C.World) returns (w': C.World)
    requires Joint(y, m, w, boot) && Inv(y') && y'.sched == y.sched && StacksKept(Line(y.sched), boot, m.mem, m'.mem)
    ensures C.Next(w, C.Work, w') && Joint(y', m', w', boot)
  {
    w' := w.(regs := m'.regs, mem := m'.mem);
    KeptUndisturbed(w', y.sched, boot, m.mem, m'.mem);
  }

  /** Every task in line keeps its blocks. */
  lemma CallKeeps(y: System, m: Machine, y': System, m': Machine, boot: C.Region)
    requires Inv(y) && y.sched.Active? && BootFirst(y.sched) && Outside(boot) && Writes(y, y'.heap, boot, m.mem, m'.mem)
    requires Inv(y') && forall t | t in Ring(y.sched) :: t in Ring(y'.sched)
    ensures StacksKept(Line(y.sched), boot, m.mem, m'.mem)
  {
    forall t | t in Line(y.sched)
      ensures t.stack.Own? ==> t.stack.block in Live(y'.heap.blocks)
    {
      assert t in Ring(y.sched);
      assert t.stack.Own? ==> t.stack.block in Blocks(t);
    }
    WritesKeep(y, y'.heap, boot, Line(y.sched), m.mem, m'.mem);
  }

  lemma SpawnStep(y: System, m: Machine, a: Act, y': System, m': Machine, boot: C.Region, w: C.World)
    returns (w': C.World)
    requires Joint(y, m, w, boot) && Outside(boot) && a.Call? && a.e.Spawn? && Acts(y, m, a, y', m', boot)
    ensures C.Next(w, EventOf(y, a, y', boot), w') && Joint(y', m', w', boot)
  {
    var t := CreateAppends(y, y');
    CallKeeps(y, m, y', m', boot);
    if y'.created == y.created {
      w' := WorkStep(y, m, y', m', boot, w);
    } else {
      OnlyNewest(y, t, y');
      SpawnEvent(y, a, y', boot, t);
      KeptUndisturbed(w.(mem := m'.mem), y.sched, boot, m.mem, m'.mem);
      SpawnMatches(w, y, t, y', boot, a.trampoline, a.entry, m'.regs, m'.mem);
      w' := SpawnedWorld(w, t, boot, m'.regs, m'.mem);
    }
  }

  lemma SpawnEvent(y: System, a: Act, y': System, boot: C.Region, t: Task)
    requires a.Call? && a.e.Spawn? && y'.created != y.created
    requires Newest(y'.sched, y.created, t) && forall u | Newest(y'.sched, y.created, u) :: u == t
    ensures EventOf(y, a, y', boot) == C.Spawn(t.serial, StackOf(t, boot), a.trampoline, a.entry)
  {
  }

  /** task_create leaves the ring as it is or adds a task to it. */
  lemma CreateAppends(y: System, y': System) returns (t: Task)
    requires Steps(y, Spawn, y') && y.sched.Active? && BootFirst(y.sched)
    ensures y'.created == y.created ==> y'.sched == y.sched
    ensures y'.created != y.created ==>
              && y'.created == y.created + 1 && y'.sched == Append(y.sched, t) && t.serial == y.created
              && t.stack.Own? && t.rsp + FIRST_FRAME == t.stack.block.addr + HEADER + STACK_SIZE
    ensures BootFirst(y'.sched) && y'.sched.Active? && forall u | u in Ring(y.sched) :: u in Ring(y'.sched)
  {
    SizesFit();
    t := y.sched.now;
    CreateInv(y);
    if y'.created != y.created {
      MallocGrants(y.heap, TCB_SIZE);
      var h1 := Malloc(y.heap, TCB_SIZE).0;
      t := NewTask(NewBlock(y.heap, TCB_SIZE), NewBlock(h1, STACK_SIZE), y.created);
      AppendMembers(y.sched, t);
    }
  }

  lemma OnlyNewest(y: System, t: Task, y': System)
    requires Inv(y) && y.sched.Active? && y'.sched == Append(y.sched, t) && t.serial == y.created
    ensures Newest(y'.sched, y.created, t) && forall u | Newest(y'.sched, y.created, u) :: u == t
    ensures t.serial !in Serials(Ring(y.sched))
  {
    AppendMembers(y.sched, t);
  }

  /** The store of the stack pointer is in no stack. */
  lemma StoreOffStacks(y: System, boot: C.Region, pushed: Memory, mem': Memory)
    requires Inv(y) && y.sched.Active? && Outside(boot) && StoresIn(y.sched.now.tcb, pushed, mem')
    ensures StacksKept(Ring(Reap(y.sched)), boot, pushed, mem')
  {
    ReapedMembers(y.sched);
    forall t, x: nat | t in Ring(Reap(y.sched)) && InStack(t, boot, x)
      ensures mem'(x) == pushed(x)
    {
      assert t in Ring(y.sched) && y.sched.now in Ring(y.sched);
      StackOffControlBlock(y, boot, t, y.sched.now, x);
    }
  }

  /** On the stacks, then, a switch is the exchange of two contexts. */
  lemma SwitchOnStacks(r: Sched, boot: C.Region, w1: C.World, call: Machine, pushed: Memory, tcb: Block, newRsp: nat,
                       m': Machine)
    requires Matches(w1, r, boot) && w1.regs == call.regs && w1.mem == call.mem
    requires StacksKept(Ring(r), boot, pushed, m'.mem)
    requires HasRoom(r.now, boot, call.regs.rsp) && Switches(call, pushed, tcb, newRsp, m')
    ensures C.StackSwitched(w1, m'.regs, m'.mem, newRsp)
  {
    KeptOne(Ring(r), r.now, boot, pushed, m'.mem);
    SamePushed(r.now, boot, call, pushed, m');
    SameElsewhere(r, boot, w1, call.mem, pushed, call.regs.rsp, m'.mem);
    OnStacks(w1, m'.regs, m'.mem, newRsp, call.regs.rsp);
  }

  lemma KeptOne(ts: seq<Task>, t: Task, boot: C.Region, mem: Memory, mem': Memory)
    requires StacksKept(ts, boot, mem, mem') && t in ts
    ensures StacksKept([t], boot, mem, mem')
  {
  }

  lemma OnStacks(w: C.World, regs: Context, mem: Memory, newRsp: nat, rsp: nat)
    requires w.regs.rsp == rsp >= 48 && FrameAt(mem, rsp - 48) == Caller(w.mem, w.regs) && regs == FrameAt(mem, newRsp)
    requires forall n, x: nat | n in w.stacks && w.stacks[n].lo <= x < w.stacks[n].hi && (x < rsp - 48 || rsp <= x) ::
               mem(x) == w.mem(x)
    ensures C.StackSwitched(w, regs, mem, newRsp)
  {
  }

  lemma SameElsewhere(r: Sched, boot: C.Region, w: C.World, mem: Memory, pushed: Memory, rsp: nat, mem': Memory)
    requires rsp >= 48 && Matches(w, r, boot) && StacksKept(Ring(r), boot, pushed, mem')
    requires SameOutside(pushed, mem, rsp - 48, rsp)
    ensures forall n, x: nat | n in w.stacks && w.stacks[n].lo <= x < w.stacks[n].hi && (x < rsp - 48 || rsp <= x) ::
              mem'(x) == mem(x)
  {
    forall n, x: nat | n in w.stacks && w.stacks[n].lo <= x < w.stacks[n].hi && (x < rsp - 48 || rsp <= x)
      ensures mem'(x) == mem(x)
    {
      KeptAt(w, r, boot, pushed, mem', n, x);
    }
  }

  lemma KeptAt(w: C.World, r: Sched, boot: C.Region, mem: Memory, mem': Memory, n: nat, x: nat)
    requires Matches(w, r, boot) && StacksKept(Ring(r), boot, mem, mem') && n in w.stacks
    requires w.stacks[n].lo <= x < w.stacks[n].hi
    ensures mem'(x) == mem(x)
  {
    var t :| t in Ring(r) && t.serial == n;
    assert InStack(t, boot, x);
  }

  lemma SamePushed(now: Task, boot: C.Region, call: Machine, pushed: Memory, m': Machine)
    requires HasRoom(now, boot, call.regs.rsp) && FrameAt(pushed, call.regs.rsp - 48) == Caller(call.mem, call.regs)
    requires StacksKept([now], boot, pushed, m'.mem)
    ensures FrameAt(m'.mem, call.regs.rsp - 48) == Caller(call.mem, call.regs)
  {
    var rsp := call.regs.rsp;
    assert now in [now] && forall x: nat | rsp - 48 <= x < rsp + 8 :: InStack(now, boot, x);
  }

  lemma ScheduleStep(y: System, m: Machine, rsp: nat, call: Machine, pushed: Memory, y': System, m': Machine,
                     boot: C.Region, w: C.World)
    returns (w': C.World)
    requires Joint(y, m, w, boot) && Outside(boot) && y' == Scheduled(y, rsp) && Inv(y')
    requires Scheduler(y, m, rsp, call, pushed, y', m', boot)
    ensures C.Next(w, ScheduleEvent(y.sched, call.regs, call.mem), w') && Joint(y', m', w', boot)
  {
    var w1 := C.Without(w, DeadSerials(Line(y.sched)), call.regs, call.mem);
    ReapKeeps(y, y'.heap, boot, m.mem, call.mem);
    ReapedWorld(w, y.sched, boot, call.regs, call.mem);
    KeptUndisturbed(w1, Reap(y.sched), boot, m.mem, call.mem);
    ScheduleBootFirst(y.sched, rsp, Live(y.heap.blocks));
    HasPlace(w1, Reap(y.sched), boot);
    if Line(Reap(y.sched)) != [] {
      StoreOffStacks(y, boot, pushed, m'.mem);
      SwitchOnStacks(Reap(y.sched), boot, w1, call, pushed, y.sched.now.tcb, Line(Reap(y.sched))[0].rsp, m');
    }
    w' := ScheduleMatches(w, y.sched, boot, rsp, call.regs, call.mem, m'.regs, m'.mem);
  }

  lemma HasPlace(w: C.World, s: Sched, boot: C.Region)
    requires Matches(w, s, boot)
    ensures w.current in w.stacks && w.stacks[w.current] == StackOf(s.now, boot)
  {
    assert s.now in Ring(s);
  }

  lemma ReapKeeps(y: System, h': Heap, boot: C.Region, mem: Memory, mem': Memory)
    requires y.sched.Active? && Inv(y) && BootFirst(y.sched) && Outside(boot) && Writes(y, h', boot, mem, mem')
    requires Live(h'.blocks) == Live(y.heap.blocks) - Reaped(y.sched)
    ensures StacksKept(Line(Reap(y.sched)), boot, mem, mem')
  {
    ReapHeld(y.sched, Live(y.heap.blocks));
    ReapedMembers(y.sched);
    forall t | t in Line(Reap(y.sched))
      ensures t in Line(y.sched) && (t.stack.Own? ==> t.stack.block in Live(h'.blocks))
    {
      assert t in Ring(Reap(y.sched));
      assert t.stack.Own? ==> t.stack.block in Blocks(t);
    }
    WritesKeep(y, h', boot, Line(Reap(y.sched)), mem, mem');
  }

  lemma ScheduleBootFirst(s: Sched, rsp: nat, live: set<Block>)
    requires s.Active? && BootFirst(s) && Held(Ring(s), live)
    ensures BootFirst(Schedule(s, rsp)) && Schedule(s, rsp).Active?
  {
    ScheduleHeld(s, rsp, live);
  }

  lemma ExitJoint(y: System, m: Machine, w: C.World, boot: C.Region)
    requires Joint(y, m, w, boot)
    ensures Joint(Exited(y), m, w, boot)
  {
    MarkDeadInv(y);
    MarkDeadSame(y.sched);
    SamePlaces(w.stacks, Ring(y.sched), Ring(MarkDead(y.sched)), boot);
  }

  /** Every step of the machine is a step of the shared processor. */
  lemma ActStep(y: System, m: Machine, a: Act, y': System, m': Machine, boot: C.Region, w: C.World)
    returns (w': C.World)
    requires Joint(y, m, w, boot) && Outside(boot) && Acts(y, m, a, y', m', boot)
    ensures C.Next(w, EventOf(y, a, y', boot), w') && Joint(y', m', w', boot)
  {
    match a
    case Compute => w' := WorkStep(y, m, y', m', boot, w);
    case Call(e, call, pushed, _, _) =>
      match e
      case Spawn => w' := SpawnStep(y, m, a, y', m', boot, w);
      case Tick(rsp) => w' := ScheduleStep(y, m, rsp, call, pushed, y', m', boot, w);
      case Exit(rsp) =>
        ExitJoint(y, m, w, boot);
        w' := ScheduleStep(Exited(y), m, rsp, call, pushed, y', m', boot, w);
      case Client(op) =>
        CallKeeps(y, m, y', m', boot);
        w' := WorkStep(y, m, y', m', boot, w);
  }

  // ---- Runs ----

  /** The system and the machine before and after each act. */
  datatype Trace = Trace(ys: seq<System>, ms: seq<Machine>, acts: seq<Act>)

  ghost predicate ActAt(r: Trace, boot: C.Region, k: nat) {
    && k < |r.acts| && k + 1 < |r.ys| && k + 1 < |r.ms|
    && Acts(r.ys[k], r.ms[k], r.acts[k], r.ys[k + 1], r.ms[k + 1], boot)
  }

  ghost predicate Run(r: Trace, boot: C.Region) {
    |r.ys| == |r.ms| == |r.acts| + 1 && forall k: nat | k < |r.acts| :: ActAt(r, boot, k)
  }

  ghost predicate JointAt(r: Trace, boot: C.Region, ws: seq<C.World>, k: nat) {
    k < |r.ys| && k < |r.ms| && k < |ws| && Joint(r.ys[k], r.ms[k], ws[k], boot)
  }

  ghost predicate NextAt(r: Trace, boot: C.Region, ws: seq<C.World>, es: seq<C.Event>, k: nat) {
    && k + 1 < |r.ys| && k < |r.acts| && k + 1 < |ws| && k < |es|
    && es[k] == EventOf(r.ys[k], r.acts[k], r.ys[k + 1], boot) && C.Next(ws[k], es[k], ws[k + 1])
  }

  /** The shared processor goes through the same run. */
  ghost predicate Shared(r: Trace, boot: C.Region, ws: seq<C.World>, es: seq<C.Event>) {
    && |r.ys| == |r.ms| == |ws| == |es| + 1 && |es| == |r.acts| && C.Inv(ws[0])
    && (forall k: nat | k <= |r.acts| :: JointAt(r, boot, ws, k))
    && (forall k: nat | k < |r.acts| :: NextAt(r, boot, ws, es, k))
  }

  lemma SharedRun(r: Trace, boot: C.Region, ws: seq<C.World>, es: seq<C.Event>)
    requires Shared(r, boot, ws, es)
    ensures C.Run(ws, es)
  {
    forall i: nat | i < |es|
      ensures C.StepAt(ws, es, i)
    {
      assert NextAt(r, boot, ws, es, i);
    }
  }

  function Front(r: Trace): Trace
    requires |r.ys| == |r.ms| == |r.acts| + 1 && r.acts != []
  {
    Trace(r.ys[..|r.acts|], r.ms[..|r.acts|], r.acts[..|r.acts| - 1])
  }

  lemma FrontRun(r: Trace, boot: C.Region)
    requires Run(r, boot) && r.acts != []
    ensures Run(Front(r), boot)
  {
    forall k: nat | k < |r.acts| - 1
      ensures ActAt(Front(r), boot, k)
    {
      assert ActAt(r, boot, k);
    }
  }

  /** The shared processor at the last act of a run. */
  ghost predicate LastStep(r: Trace, boot: C.Region, w: C.World, e: C.Event, w': C.World)
    requires |r.ys| == |r.ms| == |r.acts| + 1 && r.acts != []
  {
    var k := |r.acts| - 1;
    e == EventOf(r.ys[k], r.acts[k], r.ys[k + 1], boot) && C.Next(w, e, w') && Joint(r.ys[k + 1], r.ms[k + 1], w', boot)
  }

  lemma SharedMore(r: Trace, boot: C.Region, ws: seq<C.World>, es: seq<C.Event>, e: C.Event, w': C.World)
    requires |r.ys| == |r.ms| == |r.acts| + 1 && r.acts != [] && Shared(Front(r), boot, ws, es)
    requires LastStep(r, boot, ws[|r.acts| - 1], e, w')
    ensures Shared(r, boot, ws + [w'], es + [e])
  {
    JointMore(r, boot, ws, es, e, w');
    NextMore(r, boot, ws, es, e, w');
  }

  lemma JointMore(r: Trace, boot: C.Region, ws: seq<C.World>, es: seq<C.Event>, e: C.Event, w': C.World)
    requires |r.ys| == |r.ms| == |r.acts| + 1 && r.acts != [] && Shared(Front(r), boot, ws, es)
    requires LastStep(r, boot, ws[|r.acts| - 1], e, w')
    ensures forall k: nat | k <= |r.acts| :: JointAt(r, boot, ws + [w'], k)
  {
    forall k: nat | k <= |r.acts|
      ensures JointAt(r, boot, ws + [w'], k)
    {
      JointOne(r, boot, ws, es, e, w', k);
    }
  }

  lemma JointOne(r: Trace, boot: C.Region, ws: seq<C.World>, es: seq<C.Event>, e: C.Event, w': C.World, k: nat)
    requires |r.ys| == |r.ms| == |r.acts| + 1 && r.acts != [] && k <= |r.acts| && Shared(Front(r), boot, ws, es)
    requires LastStep(r, boot, ws[|r.acts| - 1], e, w')
    ensures JointAt(r, boot, ws + [w'], k)
  {
    if k < |r.acts| {
      JointBefore(r, boot, ws, es, w', k);
    } else {
      assert k == |r.acts|;
      JointLast(r, boot, ws, e, w');
    }
  }

  lemma NextMore(r: Trace, boot: C.Region, ws: seq<C.World>, es: seq<C.Event>, e: C.Event, w': C.World)
    requires |r.ys| == |r.ms| == |r.acts| + 1 && r.acts != [] && Shared(Front(r), boot, ws, es)
    requires LastStep(r, boot, ws[|r.acts| - 1], e, w')
    ensures forall k: nat | k < |r.acts| :: NextAt(r, boot, ws + [w'], es + [e], k)
  {
    forall k: nat | k < |r.acts|
      ensures NextAt(r, boot, ws + [w'], es + [e], k)
    {
      NextOne(r, boot, ws, es, e, w', k);
    }
  }

  lemma NextOne(r: Trace, boot: C.Region, ws: seq<C.World>, es: seq<C.Event>, e: C.Event, w': C.World, k: nat)
    requires |r.ys| == |r.ms| == |r.acts| + 1 && k < |r.acts| && Shared(Front(r), boot, ws, es)
    requires LastStep(r, boot, ws[|r.acts| - 1], e, w')
    ensures NextAt(r, boot, ws + [w'], es + [e], k)
  {
    if k < |r.acts| - 1 {
      NextBefore(r, boot, ws, es, e, w', k);
    } else {
      assert k == |r.acts| - 1;
      NextLast(r, boot, ws, es, e, w');
    }
  }

  lemma JointBefore(r: Trace, boot: C.Region, ws: seq<C.World>, es: seq<C.Event>, w': C.World, k: nat)
    requires |r.ys| == |r.ms| == |r.acts| + 1 && r.acts != [] && k < |r.acts| && Shared(Front(r), boot, ws, es)
    ensures JointAt(r, boot, ws + [w'], k)
  {
    assert JointAt(Front(r), boot, ws, k);
  }

  lemma JointLast(r: Trace, boot: C.Region, ws: seq<C.World>, e: C.Event, w': C.World)
    requires |r.ys| == |r.ms| == |r.acts| + 1 && r.acts != [] && |ws| == |r.acts|
    requires LastStep(r, boot, ws[|r.acts| - 1], e, w')
    ensures JointAt(r, boot, ws + [w'], |r.acts|)
  {
  }

  lemma NextLast(r: Trace, boot: C.Region, ws: seq<C.World>, es: seq<C.Event>, e: C.Event, w': C.World)
    requires |r.ys| == |r.ms| == |r.acts| + 1 && r.acts != [] && |ws| == |r.acts| && |es| == |r.acts| - 1
    requires LastStep(r, boot, ws[|r.acts| - 1], e, w')
    ensures NextAt(r, boot, ws + [w'], es + [e], |r.acts| - 1)
  {
  }

  lemma NextBefore(r: Trace, boot: C.Region, ws: seq<C.World>, es: seq<C.Event>, e: C.Event, w': C.World, k: nat)
    requires |r.ys| == |r.ms| == |r.acts| + 1 && r.acts != [] && k < |r.acts| - 1 && Shared(Front(r), boot, ws, es)
    ensures NextAt(r, boot, ws + [w'], es + [e], k)
  {
    assert NextAt(Front(r), boot, ws, es, k);
  }

  /** Every run of the task system on the processor is a run of tasks that share it. */
  lemma {:induction false} RunShared(r: Trace, boot: C.Region, w0: C.World) returns (ws: seq<C.World>, es: seq<C.Event>)
    requires Run(r, boot) && Outside(boot) && Joint(r.ys[0], r.ms[0], w0, boot) && C.Inv(w0)
    ensures Shared(r, boot, ws, es)
    decreases |r.acts|
  {
    if r.acts == [] {
      ws, es := [w0], [];
      assert JointAt(r, boot, ws, 0);
    } else {
      FrontRun(r, boot);
      ws, es := RunShared(Front(r), boot, w0);
      var w := LastJoint(r, boot, ws, es);
      var e, w' := LastShared(r, boot, w);
      SharedMore(r, boot, ws, es, e, w');
      ws, es := ws + [w'], es + [e];
    }
  }

  lemma LastJoint(r: Trace, boot: C.Region, ws: seq<C.World>, es: seq<C.Event>) returns (w: C.World)
    requires |r.ys| == |r.ms| == |r.acts| + 1 && r.acts != [] && Shared(Front(r), boot, ws, es)
    ensures w == ws[|r.acts| - 1] && Joint(r.ys[|r.acts| - 1], r.ms[|r.acts| - 1], w, boot)
  {
    w := ws[|r.acts| - 1];
    assert JointAt(Front(r), boot, ws, |r.acts| - 1);
  }

  lemma LastShared(r: Trace, boot: C.Region, w: C.World) returns (e: C.Event, w': C.World)
    requires Run(r, boot) && Outside(boot) && r.acts != []
    requires Joint(r.ys[|r.acts| - 1], r.ms[|r.acts| - 1], w, boot)
    ensures LastStep(r, boot, w, e, w')
  {
    var k := |r.acts| - 1;
    assert ActAt(r, boot, k);
    e := EventOf(r.ys[k], r.acts[k], r.ys[k + 1], boot);
    w' := ActStep(r.ys[k], r.ms[k], r.acts[k], r.ys[k + 1], r.ms[k + 1], boot, w);
  }

  /** The processor after task_init, on the boot stack. */
  function BootWorld(m: Machine, boot: C.Region): C.World {
    C.World(m.regs, m.mem, 0, map[], map[0 := boot])
  }

  lemma BootJoint(h: Heap, m: Machine, boot: C.Region)
    requires Valid(h) && !Refused(h, TCB_SIZE)
    ensures Joint(Boot(h), m, BootWorld(m, boot), boot) && C.Inv(BootWorld(m, boot))
  {
    var s := Boot(h).sched;
    assert Ring(s) == [s.now] && Line(s) == [];
    assert s.now in Ring(s);
  }

  /** A run from task_init, which found room for the first control block. */
  ghost predicate FromBoot(h: Heap, r: Trace, boot: C.Region) {
    Valid(h) && !Refused(h, TCB_SIZE) && Outside(boot) && Run(r, boot) && r.ys[0] == Boot(h)
  }

  lemma BootShared(h: Heap, r: Trace, boot: C.Region) returns (ws: seq<C.World>, es: seq<C.Event>)
    requires FromBoot(h, r, boot)
    ensures Shared(r, boot, ws, es)
  {
    BootJoint(h, r.ms[0], boot);
    ws, es := RunShared(r, boot, BootWorld(r.ms[0], boot));
  }

  // ---- Who sleeps through a run ----

  /** A number is used up once its task is gone. */
  lemma NeverBack(y: System, m: Machine, a: Act, y': System, m': Machine, boot: C.Region, n: nat)
    requires Inv(y) && BootFirst(y.sched) && Acts(y, m, a, y', m', boot) && n < y.created
    ensures y.created <= y'.created && (n in Serials(Ring(y'.sched)) ==> n in Serials(Ring(y.sched)))
  {
    if a.Call? {
      match a.e
      case Spawn =>
        var t := CreateAppends(y, y');
        if y'.sched != y.sched { AppendMembers(y.sched, t); }
      case Tick(rsp) => ScheduleHeld(y.sched, rsp, Live(y.heap.blocks));
      case Exit(rsp) =>
        MarkDeadInv(y);
        ScheduleHeld(MarkDead(y.sched), rsp, Live(y.heap.blocks));
      case Client(_) =>
    }
  }

  predicate CreatedAt(r: Trace, k: nat, n: nat) {
    k < |r.ys| && n < r.ys[k].created
  }

  ghost predicate ThereAt(r: Trace, k: nat, n: nat) {
    k < |r.ys| && n in Serials(Ring(r.ys[k].sched))
  }

  lemma ThereStep(r: Trace, boot: C.Region, ws: seq<C.World>, es: seq<C.Event>, k: nat, n: nat)
    requires Run(r, boot) && Shared(r, boot, ws, es) && k < |es| && CreatedAt(r, k, n)
    ensures CreatedAt(r, k + 1, n) && (ThereAt(r, k + 1, n) ==> ThereAt(r, k, n))
  {
    assert ActAt(r, boot, k) && JointAt(r, boot, ws, k);
    NeverBack(r.ys[k], r.ms[k], r.acts[k], r.ys[k + 1], r.ms[k + 1], boot, n);
  }

  /** A task that is in the ring later was there all the time since it was created. */
  lemma {:induction false} ThereAllAlong(r: Trace, boot: C.Region, ws: seq<C.World>, es: seq<C.Event>, i: nat,
                                         k: nat, j: nat, n: nat)
    requires Run(r, boot) && Shared(r, boot, ws, es) && i <= k <= j < |r.ys| && CreatedAt(r, i, n) && ThereAt(r, j, n)
    ensures ThereAt(r, k, n)
    decreases j - i
  {
    if i < j {
      ThereStep(r, boot, ws, es, i, n);
      ThereAllAlong(r, boot, ws, es, i + 1, if k == i then i + 1 else k, j, n);
    }
  }

  /** A step after which the task is still there and not running has spared it. */
  lemma StepSpares(w: C.World, e: C.Event, w': C.World, n: nat)
    requires C.Inv(w) && C.Next(w, e, w') && n in w'.stacks && n in w.stacks && n != w'.current && n != w.current
    ensures C.Spares(e, n)
  {
  }

  /** A step after which another task runs was a switch to it. */
  lemma StepSwitches(w: C.World, e: C.Event, w': C.World)
    requires C.Next(w, e, w') && w'.current != w.current
    ensures e.Yield? && e.next == w'.current
  {
  }

  /** After act i the task n does not run until act j, which lets it run. */
  ghost predicate Sleeps(r: Trace, i: nat, j: nat, n: nat) {
    && i < j < |r.ys| - 1 && CreatedAt(r, i + 1, n)
    && (forall k | i < k <= j :: !Runs(r.ys[k].sched, n)) && Runs(r.ys[j + 1].sched, n)
  }

  lemma SparedAt(r: Trace, boot: C.Region, ws: seq<C.World>, es: seq<C.Event>, k: nat, n: nat)
    requires Shared(r, boot, ws, es) && k < |es| && ThereAt(r, k, n) && ThereAt(r, k + 1, n)
    requires !Runs(r.ys[k].sched, n) && !Runs(r.ys[k + 1].sched, n)
    ensures C.Spares(es[k], n)
  {
    SharedRun(r, boot, ws, es);
    C.RunInv(ws, es, k);
    assert JointAt(r, boot, ws, k) && JointAt(r, boot, ws, k + 1) && NextAt(r, boot, ws, es, k);
    StepSpares(ws[k], es[k], ws[k + 1], n);
  }

  lemma SwitchedAt(r: Trace, boot: C.Region, ws: seq<C.World>, es: seq<C.Event>, k: nat, n: nat)
    requires Shared(r, boot, ws, es) && k < |es| && !Runs(r.ys[k].sched, n) && Runs(r.ys[k + 1].sched, n)
    ensures es[k].Yield? && es[k].next == n && ThereAt(r, k + 1, n)
  {
    assert JointAt(r, boot, ws, k) && JointAt(r, boot, ws, k + 1) && NextAt(r, boot, ws, es, k);
    StepSwitches(ws[k], es[k], ws[k + 1]);
    assert r.ys[k + 1].sched.now in Ring(r.ys[k + 1].sched);
  }

  lemma SparedBetween(r: Trace, boot: C.Region, ws: seq<C.World>, es: seq<C.Event>, i: nat, j: nat, n: nat)
    requires Run(r, boot) && Shared(r, boot, ws, es) && Sleeps(r, i, j, n)
    ensures forall k | i < k < j :: C.Spares(es[k], n)
    ensures es[j].Yield? && es[j].next == n
  {
    SwitchedAt(r, boot, ws, es, j, n);
    forall k | i < k < j
      ensures C.Spares(es[k], n)
    {
      ThereAllAlong(r, boot, ws, es, i + 1, k, j + 1, n);
      ThereAllAlong(r, boot, ws, es, i + 1, k + 1, j + 1, n);
      SparedAt(r, boot, ws, es, k, n);
    }
  }

  // ---- Context integrity of the ring's tasks ----

  lemma YieldCall(y: System, a: Act, y': System, boot: C.Region)
    requires EventOf(y, a, y', boot).Yield?
    ensures a.Call? && EventOf(y, a, y', boot).regs == a.call.regs && EventOf(y, a, y', boot).mem == a.call.mem
  {
  }

  /** The task that stops running in act i calls switch_to there. */
  lemma StopsInCall(r: Trace, boot: C.Region, ws: seq<C.World>, es: seq<C.Event>, i: nat, n: nat)
    requires Shared(r, boot, ws, es) && i < |es| && Runs(r.ys[i].sched, n) && !Runs(r.ys[i + 1].sched, n)
    ensures r.acts[i].Call? && es[i].Yield? && es[i].regs == r.acts[i].call.regs && es[i].mem == r.acts[i].call.mem
    ensures ws[i].current == n
  {
    assert JointAt(r, boot, ws, i) && JointAt(r, boot, ws, i + 1) && NextAt(r, boot, ws, es, i);
    StepSwitches(ws[i], es[i], ws[i + 1]);
    YieldCall(r.ys[i], r.acts[i], r.ys[i + 1], boot);
  }

  /**
   In every run from task_init, a task that stops running in act i and next runs after act j returns from its call of
   switch_to with the callee-saved registers and the stack pointer it had there, at the return address it left.
   */
  lemma TaskResumesAsItLeft(h: Heap, r: Trace, boot: C.Region, i: nat, j: nat, n: nat)
    requires FromBoot(h, r, boot) && Sleeps(r, i, j, n) && Runs(r.ys[i].sched, n)
    ensures r.acts[i].Call?
    ensures var c, mem := r.acts[i].call.regs, r.acts[i].call.mem;
            r.ms[j + 1].regs == Context(c.rbx, c.rbp, c.r12, c.r13, c.r14, c.r15, c.rsp + 8, mem(c.rsp))
  {
    var ws, es := BootShared(h, r, boot);
    SharedRun(r, boot, ws, es);
    StopsInCall(r, boot, ws, es, i, n);
    SparedBetween(r, boot, ws, es, i, j, n);
    C.ResumesAsItLeft(ws, es, i, j);
    assert JointAt(r, boot, ws, j + 1);
  }

  /** The task created in act i is the one that is spawned there. */
  lemma CreatedInCall(r: Trace, boot: C.Region, ws: seq<C.World>, es: seq<C.Event>, i: nat) returns (t: Task)
    requires Run(r, boot) && Shared(r, boot, ws, es) && i < |es| && r.ys[i + 1].created != r.ys[i].created
    ensures r.acts[i].Call? && r.acts[i].e.Spawn? && t.stack.Own? && Newest(r.ys[i + 1].sched, r.ys[i].created, t)
    ensures es[i] == C.Spawn(r.ys[i].created, StackOf(t, boot), r.acts[i].trampoline, r.acts[i].entry)
  {
    assert ActAt(r, boot, i) && JointAt(r, boot, ws, i) && NextAt(r, boot, ws, es, i);
    t := CreateAppends(r.ys[i], r.ys[i + 1]);
    OnlyNewest(r.ys[i], t, r.ys[i + 1]);
  }

  /**
   In every run from task_init, a task that is created in act i first runs in the trampoline, with its entry point in
   R12 and an empty stack.
   */
  lemma TaskStartsInTrampoline(h: Heap, r: Trace, boot: C.Region, i: nat, j: nat, n: nat) returns (t: Task)
    requires FromBoot(h, r, boot) && Sleeps(r, i, j, n) && r.ys[i].created == n != r.ys[i + 1].created
    ensures r.acts[i].Call? && r.acts[i].e.Spawn? && t.stack.Own? && Newest(r.ys[i + 1].sched, n, t)
    ensures var regs := r.ms[j + 1].regs;
            && regs.rip == r.acts[i].trampoline && regs.r12 == r.acts[i].entry
            && regs.rsp == t.stack.block.addr + 16 + 8192
  {
    var ws, es := BootShared(h, r, boot);
    SharedRun(r, boot, ws, es);
    t := CreatedInCall(r, boot, ws, es, i);
    SparedBetween(r, boot, ws, es, i, j, n);
    C.StartsInTrampoline(ws, es, i, j);
    assert JointAt(r, boot, ws, j + 1);
  }
}
