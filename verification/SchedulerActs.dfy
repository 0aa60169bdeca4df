/**
 The methods of the scheduler and of the heap perform the acts of the machine (kernel/src/task.c and
 kernel/src/kheap.c): whatever bytes they put into headers, control blocks and new blocks, what they do to memory is
 an act, and so a step of tasks that share the processor.
 */
module SchedulerActs {
  import opened Bits
  import opened HeapLayout
  import opened Kheap
  import opened Tasks
  import opened TaskRuns
  import opened TaskContexts
  import opened TaskMachine
  import opened ContextSwitch
  import C = Contexts
  import opened Reaping
  import S = Scheduler

  /** What the kernel's records say: the tasks, the heap's headers, the registers, and the words on the stacks. */
  datatype Records = Records(y: System, headers: map<nat, Header>, regs: Context, words: Memory)

  ghost function RecordsOf(k: S.TaskScheduler): Records
    reads k, k.heap, k.cpu
  {
    Records(k.State(), k.heap.headers, k.cpu.Regs(), k.cpu.mem)
  }

  // ---- schedule and task_exit ----

  /**
   Memory follows the records through schedule: up to the call of switch_to only what schedule writes has changed, and
   on the stacks it holds the recorded words; then the recorded words are pushed, and a control block gets the stack
   pointer.
   */
  ghost predicate Follows(y: System, r: Records, r': Records, boot: C.Region, m: Machine, call: Machine, pushed: Memory,
                          m': Machine)
    requires y.sched.Active?
  {
    && call.regs == r.regs && OnlyTouched(y, r'.y.heap, boot, r.headers, r'.headers, m.mem, call.mem)
    && StacksKept(Ring(Reap(y.sched)), boot, r.words, call.mem)
    && if Line(Reap(y.sched)) == [] then m' == call
       else Pushes(call, pushed, r'.words) && m'.regs == r'.regs && StoresIn(y.sched.now.tcb, pushed, m'.mem)
  }

  /** Below the stack pointer the recorded words are in memory, and the rest is as it was. */
  ghost predicate Pushes(call: Machine, pushed: Memory, words: Memory) {
    && call.regs.rsp >= 48
    && (forall x: nat | call.regs.rsp - 48 <= x < call.regs.rsp :: pushed(x) == words(x))
    && SameOutside(pushed, call.mem, call.regs.rsp - 48, call.regs.rsp)
  }

  lemma PushedFrame(t: Task, boot: C.Region, regs: Context, words: Memory, words': Memory, call: Machine,
                    pushed: Memory)
    requires call.regs == regs && HasRoom(t, boot, regs.rsp) && Pushes(call, pushed, words')
    requires StacksKept([t], boot, words, call.mem)
    requires FrameAt(words', regs.rsp - 48) == Caller(words, regs)
    requires SameOutside(words', words, regs.rsp - 48, regs.rsp)
    ensures FrameAt(pushed, regs.rsp - 48) == Caller(call.mem, regs)
  {
    assert t in [t] && InStack(t, boot, regs.rsp);
  }

  /** The next task's frame in memory is the recorded one, because its stack is apart and holds no control block. */
  lemma LoadedFrame(y: System, boot: C.Region, t: Task, regs: Context, words: Memory, words': Memory, call: Machine,
                    pushed: Memory, mem': Memory)
    requires Inv(y) && y.sched.Active? && BootFirst(y.sched) && Outside(boot) && t in Line(y.sched)
    requires call.regs == regs && HasRoom(y.sched.now, boot, regs.rsp) && Pushes(call, pushed, words')
    requires StacksKept([t], boot, words, call.mem) && SameOutside(words', words, regs.rsp - 48, regs.rsp)
    requires StoresIn(y.sched.now.tcb, pushed, mem')
    requires StackOf(t, boot).lo <= t.rsp && t.rsp + FIRST_FRAME <= StackOf(t, boot).hi
    ensures FrameAt(mem', t.rsp) == FrameAt(words', t.rsp)
  {
    LineDistinct(y.sched);
    StacksApart(y, boot, t, y.sched.now);
    forall x: nat | t.rsp <= x < t.rsp + FIRST_FRAME
      ensures mem'(x) == words'(x)
    {
      assert t in [t] && t in Ring(y.sched) && y.sched.now in Ring(y.sched) && InStack(t, boot, x);
      StackOffControlBlock(y, boot, t, y.sched.now, x);
    }
  }

  /** The processor's view gives every sleeping task a frame in its own stack. */
  lemma FramePlaced(y: System, m: Machine, w: C.World, boot: C.Region, t: Task)
    requires Joint(y, m, w, boot) && C.Inv(w) && t in Line(y.sched)
    ensures StackOf(t, boot).lo <= t.rsp && t.rsp + FIRST_FRAME <= StackOf(t, boot).hi
  {
    assert t in Ring(y.sched) && t.serial in w.saved;
  }

  /** What schedule's contract says, for a caller with room on its stack. */
  ghost predicate Contracted(y: System, rsp: nat, r: Records, r': Records, boot: C.Region)
    requires y.sched.Active?
  {
    && Inv(y) && r'.y == Scheduled(y, rsp) && Inv(r'.y)
    && OffPayloads(r.headers, r'.headers, Live(r'.y.heap.blocks), r'.y.heap.end)
    && S.Switches(y.sched, r.regs, r.words, r'.regs, r'.words)
    && r.regs.rsp == rsp + 48 && HasRoom(y.sched.now, boot, r.regs.rsp)
  }

  lemma FirstInLine(s: Sched) returns (t: Task)
    requires s.Active? && Sane(s) && Line(Reap(s)) != []
    ensures t == Line(Reap(s))[0] && t in Line(s) && t in Ring(Reap(s)) && s.now in Ring(Reap(s))
  {
    t := Line(Reap(s))[0];
    ReapedMembers(s);
  }

  /** Memory that follows the records through schedule goes through a switch of the machine. */
  lemma SwitchFollows(y: System, rsp: nat, r: Records, r': Records, boot: C.Region, w: C.World, m: Machine,
                      call: Machine,
                      pushed: Memory, m': Machine)
    requires Joint(y, m, w, boot) && C.Inv(w) && Outside(boot) && Contracted(y, rsp, r, r', boot)
    requires Follows(y, r, r', boot, m, call, pushed, m') && Line(Reap(y.sched)) != []
    ensures Switches(call, pushed, y.sched.now.tcb, Line(Reap(y.sched))[0].rsp, m')
  {
    var t := FirstInLine(y.sched);
    KeptOne(Ring(Reap(y.sched)), t, boot, r.words, call.mem);
    KeptOne(Ring(Reap(y.sched)), y.sched.now, boot, r.words, call.mem);
    FramePlaced(y, m, w, boot, t);
    PairFollows(y, t, r.regs, r.words, r'.regs, r'.words, boot, call, pushed, m');
  }

  /** The two tasks of a switch: what is pushed for the one and loaded for the other. */
  lemma PairFollows(y: System, t: Task, regs: Context, words: Memory, regs': Context, words': Memory, boot: C.Region,
                    call: Machine, pushed: Memory, m': Machine)
    requires Inv(y) && y.sched.Active? && BootFirst(y.sched) && Outside(boot) && t in Line(y.sched)
    requires call.regs == regs && HasRoom(y.sched.now, boot, regs.rsp) && Pushes(call, pushed, words')
    requires StacksKept([t], boot, words, call.mem) && StacksKept([y.sched.now], boot, words, call.mem)
    requires Switched(regs, words, regs', words', t.rsp) && m'.regs == regs'
    requires StoresIn(y.sched.now.tcb, pushed, m'.mem)
    requires StackOf(t, boot).lo <= t.rsp && t.rsp + FIRST_FRAME <= StackOf(t, boot).hi
    ensures Switches(call, pushed, y.sched.now.tcb, t.rsp, m')
  {
    NowPushed(y.sched.now, t.rsp, regs, words, regs', words', boot, call, pushed);
    NextLoaded(y, t, regs, words, regs', words', boot, call, pushed, m'.mem);
    SwitchMade(call, pushed, y.sched.now.tcb, t.rsp, words', m');
  }

  lemma NowPushed(now: Task, newRsp: nat, regs: Context, words: Memory, regs': Context, words': Memory, boot: C.Region,
                  call: Machine, pushed: Memory)
    requires call.regs == regs && HasRoom(now, boot, regs.rsp) && Pushes(call, pushed, words')
    requires StacksKept([now], boot, words, call.mem) && Switched(regs, words, regs', words', newRsp)
    ensures FrameAt(pushed, call.regs.rsp - 48) == Caller(call.mem, call.regs)
  {
    PushedFrame(now, boot, regs, words, words', call, pushed);
  }

  lemma NextLoaded(y: System, t: Task, regs: Context, words: Memory, regs': Context, words': Memory, boot: C.Region,
                   call: Machine, pushed: Memory, mem': Memory)
    requires Inv(y) && y.sched.Active? && BootFirst(y.sched) && Outside(boot) && t in Line(y.sched)
    requires call.regs == regs && HasRoom(y.sched.now, boot, regs.rsp) && Pushes(call, pushed, words')
    requires StacksKept([t], boot, words, call.mem) && Switched(regs, words, regs', words', t.rsp)
    requires StoresIn(y.sched.now.tcb, pushed, mem')
    requires StackOf(t, boot).lo <= t.rsp && t.rsp + FIRST_FRAME <= StackOf(t, boot).hi
    ensures FrameAt(mem', t.rsp) == FrameAt(words', t.rsp) == regs'
  {
    LoadedFrame(y, boot, t, regs, words, words', call, pushed, mem');
  }

  lemma SwitchMade(call: Machine, pushed: Memory, tcb: Block, newRsp: nat, words': Memory, m': Machine)
    requires Pushes(call, pushed, words') && FrameAt(pushed, call.regs.rsp - 48) == Caller(call.mem, call.regs)
    requires StoresIn(tcb, pushed, m'.mem) && FrameAt(m'.mem, newRsp) == m'.regs
    ensures Switches(call, pushed, tcb, newRsp, m')
  {
  }

  lemma ScheduleFollows(y: System, rsp: nat, r: Records, r': Records, boot: C.Region, w: C.World, m: Machine,
                        call: Machine,
                        pushed: Memory, m': Machine)
    requires Joint(y, m, w, boot) && C.Inv(w) && Outside(boot) && Contracted(y, rsp, r, r', boot)
    requires Follows(y, r, r', boot, m, call, pushed, m')
    ensures TaskMachine.Scheduler(y, m, rsp, call, pushed, r'.y, m', boot)
  {
    TouchedWrites(y, r'.y.heap, boot, r.headers, r'.headers, Live(r'.y.heap.blocks), m.mem, call.mem);
    if Line(Reap(y.sched)) != [] { SwitchFollows(y, rsp, r, r', boot, w, m, call, pushed, m'); }
  }

  /** However memory follows the records, the call was an act of the machine. */
  ghost predicate Ticks(r: Records, r': Records, rsp: nat, boot: C.Region, m: Machine) {
    && r.y.sched.Active?
    && forall call, pushed, m' | Follows(r.y, r, r', boot, m, call, pushed, m') ::
         Acts(r.y, m, Call(Tick(rsp), call, pushed, 0, 0), r'.y, m', boot)
  }

  ghost predicate Exits(r: Records, r': Records, rsp: nat, boot: C.Region, m: Machine) {
    && r.y.sched.Active?
    && forall call, pushed, m' | Follows(Exited(r.y), r, r', boot, m, call, pushed, m') ::
         Acts(r.y, m, Call(TaskRuns.Exit(rsp), call, pushed, 0, 0), r'.y, m', boot)
  }

  lemma ContractTicks(r: Records, r': Records, rsp: nat, boot: C.Region, w: C.World, m: Machine)
    requires Joint(r.y, m, w, boot) && C.Inv(w) && Outside(boot) && Contracted(r.y, rsp, r, r', boot)
    ensures Ticks(r, r', rsp, boot, m)
  {
    forall call, pushed, m' | Follows(r.y, r, r', boot, m, call, pushed, m')
      ensures Acts(r.y, m, Call(Tick(rsp), call, pushed, 0, 0), r'.y, m', boot)
    {
      ScheduleFollows(r.y, rsp, r, r', boot, w, m, call, pushed, m');
    }
  }

  lemma ContractExits(r: Records, r': Records, rsp: nat, boot: C.Region, w: C.World, m: Machine)
    requires Joint(r.y, m, w, boot) && C.Inv(w) && Outside(boot) && Steps(r.y, TaskRuns.Exit(rsp), r'.y)
    requires Contracted(Exited(r.y), rsp, r, r', boot)
    ensures Exits(r, r', rsp, boot, m)
  {
    ExitJoint(r.y, m, w, boot);
    forall call, pushed, m' | Follows(Exited(r.y), r, r', boot, m, call, pushed, m')
      ensures Acts(r.y, m, Call(TaskRuns.Exit(rsp), call, pushed, 0, 0), r'.y, m', boot)
    {
      ScheduleFollows(Exited(r.y), rsp, r, r', boot, w, m, call, pushed, m');
    }
  }

  /** schedule is an act of the machine. */
  method ScheduleActs(k: S.TaskScheduler, ghost rsp: nat, ghost boot: C.Region, ghost w: C.World, ghost m: Machine)
    requires k.Good() && k.cpu.rsp == rsp + 48 && Outside(boot) && Joint(k.State(), m, w, boot) && C.Inv(w)
    requires HasRoom(k.State().sched.now, boot, k.cpu.rsp)
    modifies k`tcbs, k`taskList, k`current, k`ring, k.heap`headers, k.heap`blocks, k.cpu
    ensures k.Good() && Ticks(old(RecordsOf(k)), RecordsOf(k), rsp, boot, m)
  {
    ghost var r := RecordsOf(k);
    k.Schedule(rsp);
    ContractTicks(r, RecordsOf(k), rsp, boot, w, m);
  }

  /** task_exit is an act of the machine. */
  method ExitActs(k: S.TaskScheduler, ghost rsp: nat, ghost boot: C.Region, ghost w: C.World, ghost m: Machine)
    requires k.Good() && k.current != 0 && k.cpu.rsp == rsp + 48 && Outside(boot) && Joint(k.State(), m, w, boot)
    requires C.Inv(w)
    requires HasRoom(k.State().sched.now, boot, k.cpu.rsp)
    modifies k`tcbs, k`taskList, k`current, k`ring, k.heap`headers, k.heap`blocks, k.cpu
    ensures k.Good() && Exits(old(RecordsOf(k)), RecordsOf(k), rsp, boot, m)
  {
    ghost var r := RecordsOf(k);
    k.Exit(rsp);
    MarkDeadInv(r.y);
    ContractExits(r, RecordsOf(k), rsp, boot, w, m);
  }

  /** There is memory that follows the records, if it held the sleeping tasks' words before. */
  lemma SomethingFollows(y: System, rsp: nat, r: Records, r': Records, boot: C.Region, m: Machine)
    returns (call: Machine, pushed: Memory, m': Machine)
    requires y.sched.Active? && Contracted(y, rsp, r, r', boot) && StacksKept(Line(Reap(y.sched)), boot, r.words, m.mem)
    ensures Follows(y, r, r', boot, m, call, pushed, m')
  {
    call := Machine(r.regs, Overlaid(y.sched.now, boot, r.words, m.mem));
    pushed := (x: nat) => if r.regs.rsp - 48 <= x < r.regs.rsp then r'.words(x) else call.mem(x);
    m' := if Line(Reap(y.sched)) == [] then call else Machine(r'.regs, pushed);
    OverlayKeeps(y.sched.now, Line(Reap(y.sched)), Ring(Reap(y.sched)), boot, r.words, m.mem);
  }

  /** Memory with the recorded words in one task's stack. */
  ghost function Overlaid(t: Task, boot: C.Region, words: Memory, mem: Memory): Memory {
    (x: nat) => if InStack(t, boot, x) then words(x) else mem(x)
  }

  lemma OverlayKeeps(t: Task, line: seq<Task>, ring: seq<Task>, boot: C.Region, words: Memory, mem: Memory)
    requires StacksKept(line, boot, words, mem) && forall u | u in ring :: u == t || u in line
    ensures StacksKept(ring, boot, words, Overlaid(t, boot, words, mem))
  {
  }

  // ---- task_create ----

  /**
   Memory follows the records through task_create: only what it writes has changed, and a new stack holds the
   recorded words.
   */
  ghost predicate CreateFollows(r: Records, r': Records, boot: C.Region, m: Machine, m': Machine)
    requires r.y.sched.Active?
  {
    && OnlyTouched(r.y, r'.y.heap, boot, r.headers, r'.headers, m.mem, m'.mem)
    && forall t, x: nat | Newest(r'.y.sched, r.y.created, t) && InStack(t, boot, x) :: m'.mem(x) == r'.words(x)
  }

  ghost predicate SpawnsTask(r: Records, r': Records, trampoline: Word, entry: Word, boot: C.Region, m: Machine) {
    && r.y.sched.Active?
    && forall m' | CreateFollows(r, r', boot, m, m') ::
         Acts(r.y, m, Call(Spawn, m, m.mem, trampoline, entry), r'.y, m', boot)
  }

  lemma NewFrame(t: Task, boot: C.Region, words: Memory, mem: Memory)
    requires t.stack.Own? && t.rsp + FIRST_FRAME == StackOf(t, boot).hi
    requires forall x: nat | InStack(t, boot, x) :: mem(x) == words(x)
    ensures FrameAt(mem, t.rsp) == FrameAt(words, t.rsp)
  {
    assert forall x: nat | t.rsp <= x < t.rsp + FIRST_FRAME :: InStack(t, boot, x);
  }

  lemma CreateFollowed(r: Records, r': Records, ring: seq<Task>, p: nat, trampoline: Word, entry: Word, boot: C.Region,
                       m: Machine, m': Machine)
    requires r.y.sched.Active? && Inv(r.y) && BootFirst(r.y.sched) && Outside(boot) && Steps(r.y, Spawn, r'.y)
    requires OffPayloads(r.headers, r'.headers, Live(r.y.heap.blocks), r'.y.heap.end) && Ring(r'.y.sched) == ring
    requires r'.y.created != r.y.created ==> S.StartsAt(p, ring, trampoline, entry, r.words, r'.words)
    requires CreateFollows(r, r', boot, m, m')
    ensures Acts(r.y, m, Call(Spawn, m, m.mem, trampoline, entry), r'.y, m', boot)
  {
    TouchedWrites(r.y, r'.y.heap, boot, r.headers, r'.headers, Live(r.y.heap.blocks), m.mem, m'.mem);
    var t := CreateAppends(r.y, r'.y);
    if r'.y.created != r.y.created {
      OnlyNewest(r.y, t, r'.y);
      AppendMembers(r.y.sched, t);
      NewFrame(t, boot, r'.words, m'.mem);
    }
  }

  /** task_create is an act of the machine. */
  method CreateActs(k: S.TaskScheduler, entry: Word, ghost boot: C.Region, ghost w: C.World, ghost m: Machine)
    returns (t: nat)
    requires k.Good() && Outside(boot) && Joint(k.State(), m, w, boot)
    modifies k`tcbs, k`taskList, k`nextId, k`ring, k`created, k.heap, k.cpu`mem, k.cpu`slots
    ensures k.Good() && SpawnsTask(old(RecordsOf(k)), RecordsOf(k), k.trampoline, entry, boot, m)
  {
    ghost var r := RecordsOf(k);
    t := k.Create(entry);
    ghost var r', ring := RecordsOf(k), k.ring;
    RingOf(k.ring, k.current);
    forall m' | CreateFollows(r, r', boot, m, m')
      ensures Acts(r.y, m, Call(Spawn, m, m.mem, k.trampoline, entry), r'.y, m', boot)
    {
      CreateFollowed(r, r', ring, t, k.trampoline, entry, boot, m, m');
    }
  }

  // ---- Other users of the heap ----

  /** However memory follows the heap's headers, the call was an act of the machine. */
  ghost predicate Serves(y: System, op: Op, y': System, before: map<nat, Header>, after: map<nat, Header>,
                         boot: C.Region,
                         m: Machine) {
    && y.sched.Active?
    && forall m': Machine | OnlyTouched(y, y'.heap, boot, before, after, m.mem, m'.mem) ::
         Acts(y, m, Call(Client(op), m, m.mem, 0, 0), y', m', boot)
  }

  lemma ClientServes(y: System, op: Op, y': System, before: map<nat, Header>, after: map<nat, Header>, boot: C.Region,
                     live: set<Block>, m: Machine)
    requires Inv(y) && y.sched.Active? && Outside(boot) && Allowed(y, Client(op)) && y' == Step(y, Client(op))
    requires OffPayloads(before, after, live, y'.heap.end) && Live(y.heap.blocks) * Live(y'.heap.blocks) <= live
    ensures Serves(y, op, y', before, after, boot, m)
  {
    forall m': Machine | OnlyTouched(y, y'.heap, boot, before, after, m.mem, m'.mem)
      ensures Acts(y, m, Call(Client(op), m, m.mem, 0, 0), y', m', boot)
    {
      TouchedWrites(y, y'.heap, boot, before, after, live, m.mem, m'.mem);
    }
  }

  /** kmalloc is an act of the machine. */
  method KmallocActs(heap: KernelHeap, size: Word, ghost y: System, ghost boot: C.Region, ghost m: Machine)
    returns (ptr: nat)
    requires heap.Good() && Inv(y) && y.sched.Active? && y.heap == heap.State() && Outside(boot)
    requires InReach(y.heap, size)
    modifies heap
    ensures heap.Good()
    ensures Serves(y, Alloc(size), y.(heap := heap.State()), old(heap.headers), heap.headers, boot, m)
  {
    ghost var before := heap.headers;
    ptr := heap.Kmalloc(size);
    ClientServes(y, Alloc(size), y.(heap := heap.State()), before, heap.headers, boot, Live(y.heap.blocks), m);
  }

  /** kfree is an act of the machine, for a block that is no task's. */
  method KfreeActs(heap: KernelHeap, ptr: nat, ghost b: Block, ghost y: System, ghost boot: C.Region, ghost m: Machine)
    requires heap.Good() && Inv(y) && y.sched.Active? && y.heap == heap.State() && Outside(boot)
    requires b in Live(y.heap.blocks) && ptr == b.addr + HEADER && b !in Owned(Ring(y.sched))
    modifies heap`headers, heap`blocks
    ensures heap.Good()
    ensures Serves(y, Release(b), y.(heap := heap.State()), old(heap.headers), heap.headers, boot, m)
  {
    ghost var before := heap.headers;
    heap.Kfree(ptr, b);
    ClientServes(y, Release(b), y.(heap := heap.State()), before, heap.headers, boot, Live(heap.blocks), m);
  }
}
