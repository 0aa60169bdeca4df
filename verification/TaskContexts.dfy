/**
 The scheduler's tasks (kernel/src/task.c) as the tasks of a shared processor: their stacks never
 overlap, and every step of the ring is a step of the processor.
 */
module TaskContexts {
  import opened Bits
  import opened HeapLayout
  import opened Tasks
  import opened TaskRuns
  import opened ContextSwitch
  import C = Contexts

  /** The addresses of a task's stack. */
  function StackOf(t: Task, boot: C.Region): C.Region {
    match t.stack
    case BootStack => boot
    case Own(b) => C.Region(b.addr + HEADER, b.addr + HEADER + STACK_SIZE)
  }

  /** The boot stack is no part of the heap, however far that grows. */
  predicate Outside(boot: C.Region) {
    boot.hi <= START || START + MAX_SIZE <= boot.lo
  }

  /** Only the first task runs on the boot stack. */
  predicate BootFirst(s: Sched) {
    forall t | t in Ring(s) :: t.stack.BootStack? ==> t.serial == 0
  }

  /** In every reachable state the stacks of two tasks do not overlap. */
  lemma StacksApart(y: System, boot: C.Region, t: Task, u: Task)
    requires Inv(y) && BootFirst(y.sched) && Outside(boot)
    requires t in Ring(y.sched) && u in Ring(y.sched) && t.serial != u.serial
    ensures C.Apart(StackOf(t, boot), StackOf(u, boot))
  {
    if t.stack.Own? && u.stack.Own? {
      var b, c := t.stack.block, u.stack.block;
      assert b in Blocks(t) && c in Blocks(u);
      PayloadApart(y.heap, b, c);
    } else {
      var b := if t.stack.Own? then t.stack.block else u.stack.block;
      assert b in Live(y.heap.blocks);
      ChainBounds(y.heap.blocks, START, y.heap.end);
    }
  }

  ghost function Serials(ts: seq<Task>): set<nat> {
    set t | t in ts :: t.serial
  }

  /** The saved stack pointers are exactly these tasks'. */
  ghost predicate Frames(saved: map<nat, nat>, ts: seq<Task>) {
    saved.Keys == Serials(ts) && forall t | t in ts :: saved[t.serial] == t.rsp
  }

  /** The stacks are exactly these tasks'. */
  ghost predicate Places(stacks: map<nat, C.Region>, ts: seq<Task>, boot: C.Region) {
    stacks.Keys == Serials(ts) && forall t | t in ts :: stacks[t.serial] == StackOf(t, boot)
  }

  /**
   The shared processor as the ring describes it: who runs, where the others' frames are, and where the stacks are.
   */
  ghost predicate Matches(w: C.World, s: Sched, boot: C.Region) {
    s.Active? && w.current == s.now.serial && Frames(w.saved, Line(s)) && Places(w.stacks, Ring(s), boot)
  }

  ghost function DeadSerials(ts: seq<Task>): set<nat> {
    set t | t in ts && t.status == Dead :: t.serial
  }

  lemma {:induction false} Unique(ts: seq<Task>, t: Task, u: Task)
    requires Ascending(ts) && t in ts && u in ts && t.serial == u.serial
    ensures t == u
  {
  }

  lemma FewerFrames(saved: map<nat, nat>, ts: seq<Task>, gone: set<nat>, ts': seq<Task>)
    requires Frames(saved, ts) && forall t :: t in ts' <==> t in ts && t.serial !in gone
    ensures Frames(saved - gone, ts')
  {
  }

  lemma FewerPlaces(stacks: map<nat, C.Region>, ts: seq<Task>, boot: C.Region, gone: set<nat>, ts': seq<Task>)
    requires Places(stacks, ts, boot) && forall t :: t in ts' <==> t in ts && t.serial !in gone
    ensures Places(stacks - gone, ts', boot)
  {
  }

  /** Who is gone after reaping: the dead in line, known by their serial numbers. */
  lemma ReapedMembers(s: Sched)
    requires s.Active? && Sane(s)
    ensures forall t :: t in Line(Reap(s)) <==> t in Line(s) && t.serial !in DeadSerials(Line(s))
    ensures forall t :: t in Ring(Reap(s)) <==> t in Ring(s) && t.serial !in DeadSerials(Line(s))
  {
    var gone, r := DeadSerials(Line(s)), Reap(s);
    AwakeCat(s.after, s.before);
    forall t
      ensures t in Line(r) <==> t in Line(s) && t.status != Dead
      ensures t in Ring(r) <==> t == s.now || (t in Line(s) && t.status != Dead)
    {
      AwakeIn(Line(s), t);
      AwakeIn(s.before, t);
      AwakeIn(s.after, t);
    }
    assert s.now.serial !in gone by { AscendingAround(s.before, s.now, s.after); }
    forall t | t in Line(s)
      ensures t.serial in gone <==> t.status == Dead
    {
      if u :| u in Line(s) && u.status == Dead && u.serial == t.serial { Unique(Ring(s), t, u); }
    }
  }

  /**
   The reaping pass, on the processor: the dead tasks' stacks are gone, and the rest is as the reaped ring describes
   it.
   */
  lemma ReapMatches(w: C.World, s: Sched, boot: C.Region, regs: Context, mem: Memory)
    requires Matches(w, s, boot) && Sane(s)
    requires C.Undisturbed(C.Without(w, DeadSerials(Line(s)), regs, mem), w.mem)
    ensures var gone := DeadSerials(Line(s));
            var w' := C.Without(w, gone, regs, mem);
            C.Reaps(w, gone, w') && Matches(w', Reap(s), boot)
  {
    ReapedWorld(w, s, boot, regs, mem);
    assert DeadSerials(Line(s)) <= Serials(Line(s));
  }

  lemma ReapedWorld(w: C.World, s: Sched, boot: C.Region, regs: Context, mem: Memory)
    requires Matches(w, s, boot) && Sane(s)
    ensures Matches(C.Without(w, DeadSerials(Line(s)), regs, mem), Reap(s), boot)
  {
    var gone := DeadSerials(Line(s));
    ReapedMembers(s);
    FewerFrames(w.saved, Line(s), gone, Line(Reap(s)));
    FewerPlaces(w.stacks, Ring(s), boot, gone, Ring(Reap(s)));
  }

  lemma MoreFrames(saved: map<nat, nat>, ts: seq<Task>, t: Task, ts': seq<Task>)
    requires Frames(saved, ts) && t.serial !in saved && forall u :: u in ts' <==> u in ts || u == t
    ensures Frames(saved[t.serial := t.rsp], ts')
  {
  }

  lemma MorePlaces(stacks: map<nat, C.Region>, ts: seq<Task>, boot: C.Region, t: Task)
    requires Places(stacks, ts, boot) && t.serial !in stacks
    ensures Places(stacks[t.serial := StackOf(t, boot)], ts + [t], boot)
  {
    assert t in ts + [t];
  }

  lemma SamePlaces(stacks: map<nat, C.Region>, ts: seq<Task>, ts': seq<Task>, boot: C.Region)
    requires Places(stacks, ts, boot) && SameTasks(ts', ts)
    ensures Places(stacks, ts', boot)
  {
    forall i | 0 <= i < |ts|
      ensures ts'[i] in ts' && ts[i] in ts && ts'[i].serial == ts[i].serial
      ensures StackOf(ts'[i], boot) == StackOf(ts[i], boot)
    {
    }
  }

  /** No two tasks in line have the same serial number, and none has the current task's. */
  lemma LineDistinct(s: Sched)
    requires s.Active? && Sane(s)
    ensures forall i, j | 0 <= i < j < |Line(s)| :: Line(s)[i].serial != Line(s)[j].serial
    ensures forall t | t in Line(s) :: t.serial != s.now.serial
  {
    AscendingAround(s.before, s.now, s.after);
    forall i, j | 0 <= i < j < |Line(s)|
      ensures Line(s)[i].serial != Line(s)[j].serial
    {
      if i < |s.after| <= j { assert Line(s)[i] in s.after && Line(s)[j] in s.before; }
    }
  }

  lemma RestOfLine(line: seq<Task>)
    requires line != [] && forall i, j | 0 <= i < j < |line| :: line[i].serial != line[j].serial
    ensures forall t :: t in line[1..] <==> t in line && t.serial !in {line[0].serial}
  {
  }

  /** The saved stack pointers after a switch to the first task in line. */
  lemma SwitchFrames(saved: map<nat, nat>, r: Sched, rsp: nat)
    requires r.Active? && Sane(r) && Line(r) != [] && Line(r)[0].status == Ready && Frames(saved, Line(r))
    ensures var r' := SwitchTo(r, 0, rsp);
            && r'.Active? && r'.now.serial == Line(r)[0].serial
            && Frames((saved - {Line(r)[0].serial})[r.now.serial := rsp], Line(r'))
  {
    var line, last := Line(r), Suspended(r.now, rsp);
    LineDistinct(r);
    RestOfLine(line);
    SwitchNext(r, rsp);
    FewerFrames(saved, line, {line[0].serial}, line[1..]);
    MoreFrames(saved - {line[0].serial}, line[1..], last, line[1..] + [last]);
  }

  /** The processor after a switch to the first task in line. */
  function SwitchedWorld(w: C.World, next: nat, rsp: nat, regs: Context, mem: Memory): C.World {
    C.World(regs, mem, next, (w.saved - {next})[w.current := rsp], w.stacks)
  }

  /** A switch to the first task in line, on the processor and in the ring. */
  lemma SwitchMatches(w: C.World, r: Sched, boot: C.Region, rsp: nat, regs: Context, mem: Memory)
    requires Matches(w, r, boot) && Sane(r) && Line(r) != [] && Line(r)[0].status == Ready
    requires C.Room(w) && w.regs.rsp == rsp + 48 && C.StackSwitched(w, regs, mem, Line(r)[0].rsp)
    ensures var w' := SwitchedWorld(w, Line(r)[0].serial, rsp, regs, mem);
            C.Switch(w, Line(r)[0].serial, w') && Matches(w', SwitchTo(r, 0, rsp), boot)
  {
    var w' := SwitchedWorld(w, Line(r)[0].serial, rsp, regs, mem);
    FirstFrame(w.saved, Line(r));
    SwitchedRing(w, r, boot, rsp, w');
    SwitchedStep(w, Line(r)[0].serial, rsp, Line(r)[0].rsp, w');
  }

  lemma FirstFrame(saved: map<nat, nat>, ts: seq<Task>)
    requires Frames(saved, ts) && ts != []
    ensures ts[0].serial in saved && saved[ts[0].serial] == ts[0].rsp
  {
    assert ts[0] in ts;
  }

  lemma SwitchedStep(w: C.World, next: nat, rsp: nat, newRsp: nat, w': C.World)
    requires next in w.saved && w.saved[next] == newRsp && C.Room(w) && w.regs.rsp == rsp + 48
    requires w' == SwitchedWorld(w, next, rsp, w'.regs, w'.mem) && C.StackSwitched(w, w'.regs, w'.mem, newRsp)
    ensures C.Switch(w, next, w')
  {
  }

  lemma SwitchedRing(w: C.World, r: Sched, boot: C.Region, rsp: nat, w': C.World)
    requires Matches(w, r, boot) && Sane(r) && Line(r) != [] && Line(r)[0].status == Ready
    requires w'.current == Line(r)[0].serial && w'.stacks == w.stacks
    requires w'.saved == (w.saved - {Line(r)[0].serial})[w.current := rsp]
    ensures Matches(w', SwitchTo(r, 0, rsp), boot)
  {
    SwitchFrames(w.saved, r, rsp);
    SwitchSame(r, 0, rsp);
    SamePlaces(w.stacks, Ring(r), Ring(SwitchTo(r, 0, rsp)), boot);
  }

  lemma AppendMembers(s: Sched, t: Task)
    requires s.Active?
    ensures Ring(Append(s, t)) == Ring(s) + [t]
    ensures forall u :: u in Line(Append(s, t)) <==> u in Line(s) || u == t
  {
  }

  /** The processor after a task has been created. */
  function SpawnedWorld(w: C.World, t: Task, boot: C.Region, regs: Context, mem: Memory): C.World {
    C.World(regs, mem, w.current, w.saved[t.serial := t.rsp], w.stacks[t.serial := StackOf(t, boot)])
  }

  /** A new task, on the processor and in the ring: its stack overlaps no other. */
  lemma SpawnMatches(w: C.World, y: System, t: Task, y': System, boot: C.Region, trampoline: Word, entry: Word,
                     regs: Context, mem: Memory)
    requires Matches(w, y.sched, boot) && Outside(boot) && BootFirst(y'.sched) && Inv(y')
    requires y'.sched == Append(y.sched, t) && t.serial !in Serials(Ring(y.sched))
    requires t.stack.Own? && t.rsp + FIRST_FRAME == StackOf(t, boot).hi
    requires FrameAt(mem, t.rsp) == Fresh(StackOf(t, boot).hi, trampoline, entry)
    requires C.Undisturbed(w.(mem := mem), w.mem)
    ensures var w' := SpawnedWorld(w, t, boot, regs, mem);
            C.Spawns(w, t.serial, StackOf(t, boot), trampoline, entry, w') && Matches(w', y'.sched, boot)
  {
    var w' := SpawnedWorld(w, t, boot, regs, mem);
    NewStackApart(w, y, t, y', boot);
    JoinedRing(w, y.sched, boot, t, w');
    SpawnedStep(w, t.serial, t.rsp, StackOf(t, boot), trampoline, entry, w');
  }

  lemma SpawnedStep(w: C.World, n: nat, rsp: nat, stack: C.Region, trampoline: Word, entry: Word, w': C.World)
    requires n !in w.stacks && rsp + FIRST_FRAME == stack.hi && stack.hi == stack.lo + STACK_SIZE
    requires forall m | m in w.stacks :: C.Apart(stack, w.stacks[m])
    requires w' == C.World(w'.regs, w'.mem, w.current, w.saved[n := rsp], w.stacks[n := stack])
    requires FrameAt(w'.mem, rsp) == Fresh(stack.hi, trampoline, entry) && C.Undisturbed(w.(mem := w'.mem), w.mem)
    ensures C.Spawns(w, n, stack, trampoline, entry, w')
  {
  }

  lemma NewStackApart(w: C.World, y: System, t: Task, y': System, boot: C.Region)
    requires Matches(w, y.sched, boot) && Outside(boot) && BootFirst(y'.sched) && Inv(y')
    requires y'.sched == Append(y.sched, t) && t.serial !in Serials(Ring(y.sched))
    ensures t.serial !in w.stacks && t.serial !in w.saved
    ensures forall m | m in w.stacks :: C.Apart(StackOf(t, boot), w.stacks[m])
  {
    AppendMembers(y.sched, t);
    forall m | m in w.stacks
      ensures C.Apart(StackOf(t, boot), w.stacks[m])
    {
      var u :| u in Ring(y.sched) && u.serial == m;
      assert u in Ring(y'.sched) && t in Ring(y'.sched);
      StacksApart(y', boot, t, u);
    }
    assert forall u | u in Line(y.sched) :: u in Ring(y.sched);
  }

  lemma JoinedRing(w: C.World, s: Sched, boot: C.Region, t: Task, w': C.World)
    requires Matches(w, s, boot) && t.serial !in w.stacks && t.serial !in w.saved && w'.current == w.current
    requires w'.saved == w.saved[t.serial := t.rsp] && w'.stacks == w.stacks[t.serial := StackOf(t, boot)]
    ensures Matches(w', Append(s, t), boot)
  {
    AppendMembers(s, t);
    MorePlaces(w.stacks, Ring(s), boot, t);
    MoreFrames(w.saved, Line(s), t, Line(Append(s, t)));
  }

  /** After reaping, schedule switches to the first task in line if there is one. */
  lemma SchedulePicks(s: Sched, rsp: nat)
    requires s.Active? && Sane(s)
    ensures Sane(Reap(s))
    ensures Line(Reap(s)) == [] ==> Schedule(s, rsp) == Reap(s)
    ensures Line(Reap(s)) != [] ==> Line(Reap(s))[0].status == Ready && Schedule(s, rsp) == SwitchTo(Reap(s), 0, rsp)
  {
    var r := Reap(s);
    ReapSane(s);
    if Line(r) != [] {
      assert Line(r)[0] in Line(r);
      SwitchNext(r, rsp);
    }
  }

  /**
   What schedule does to the processor: the dead tasks' stacks go and, if anybody is left in line, the first of them
   runs.
   */
  ghost predicate Scheduling(w: C.World, s: Sched, rsp: nat, regs: Context, mem: Memory, regs': Context, mem': Memory) {
    var w1 := C.Without(w, DeadSerials(Line(s)), regs, mem);
    && C.Undisturbed(w1, w.mem)
    && (if Line(Reap(s)) == [] then regs' == regs && mem' == mem
        else C.Room(w1) && regs.rsp == rsp + 48 && C.StackSwitched(w1, regs', mem', Line(Reap(s))[0].rsp))
  }

  /** The event on the processor that a call of schedule is. */
  ghost function ScheduleEvent(s: Sched, regs: Context, mem: Memory): C.Event {
    var gone := DeadSerials(Line(s));
    if Line(Reap(s)) == [] then C.Reap(gone) else C.Yield(gone, regs, mem, Line(Reap(s))[0].serial)
  }

  /** What schedule does to the ring is what happens to the processor. */
  lemma ScheduleMatches(w: C.World, s: Sched, boot: C.Region, rsp: nat, regs: Context, mem: Memory, regs': Context,
                        mem': Memory)
    returns (w': C.World)
    requires Matches(w, s, boot) && Sane(s) && Scheduling(w, s, rsp, regs, mem, regs', mem')
    ensures C.Next(w, ScheduleEvent(s, regs, mem), w') && Matches(w', Schedule(s, rsp), boot)
    ensures w'.regs == regs' && w'.mem == mem'
  {
    var w1 := C.Without(w, DeadSerials(Line(s)), regs, mem);
    SchedulePicks(s, rsp);
    ReapMatches(w, s, boot, regs, mem);
    if Line(Reap(s)) == [] {
      w' := w1;
    } else {
      w' := SwitchedWorld(w1, Line(Reap(s))[0].serial, rsp, regs', mem');
      SwitchMatches(w1, Reap(s), boot, rsp, regs', mem');
    }
  }
}
