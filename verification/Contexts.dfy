/**
 Tasks that share one processor through switch_to (kernel/src/switch.S, kernel/src/task.c): each
 resumes exactly as it was switched out, as long as every task keeps to its own stack.
 */
module Contexts {
  import opened Bits
  import opened ContextSwitch

  /** A stack's addresses, from `lo` up to `hi`. */
  datatype Region = Region(lo: nat, hi: nat)

  predicate Apart(a: Region, b: Region) {
    a.hi <= b.lo || b.hi <= a.lo
  }

  /** The processor and memory, which task runs, where the others' frames are, and where the stacks are. */
  datatype World = World(regs: Context, mem: Memory, current: nat, saved: map<nat, nat>, stacks: map<nat, Region>)

  /**
   The running task does anything; it creates a task; it frees the stacks of dead tasks; or it does that and then,
   with registers `regs` and memory `mem`, calls switch_to.
   */
  datatype Event =
    | Work
    | Spawn(n: nat, stack: Region, trampoline: Word, entry: Word)
    | Reap(gone: set<nat>)
    | Yield(gone: set<nat>, regs: Context, mem: Memory, next: nat)

  ghost predicate Inv(w: World) {
    && w.current !in w.saved && w.stacks.Keys == w.saved.Keys + {w.current}
    && (forall n | n in w.saved :: w.stacks[n].lo <= w.saved[n] && w.saved[n] + 56 <= w.stacks[n].hi)
    && (forall m, n | m in w.stacks && n in w.stacks && m != n :: Apart(w.stacks[m], w.stacks[n]))
  }

  /** Memory has changed anywhere except in the stacks of sleeping tasks. */
  ghost predicate Undisturbed(w: World, mem: Memory) {
    forall n, x: nat | n in w.saved && n in w.stacks && w.stacks[n].lo <= x < w.stacks[n].hi :: w.mem(x) == mem(x)
  }

  /** The stack has room for the saved registers. */
  predicate Room(w: World) {
    && w.current in w.stacks
    && w.stacks[w.current].lo + 48 <= w.regs.rsp && w.regs.rsp + 8 <= w.stacks[w.current].hi
  }

  /** The world without some of the sleeping tasks. */
  function Without(w: World, gone: set<nat>, regs: Context, mem: Memory): World {
    World(regs, mem, w.current, w.saved - gone, w.stacks - gone)
  }

  /** On the stacks, switch_to has done nothing but push the caller's context, and it has loaded the other one. */
  ghost predicate StackSwitched(w: World, regs: Context, mem: Memory, newRsp: nat) {
    && w.regs.rsp >= 48 && FrameAt(mem, w.regs.rsp - 48) == Caller(w.mem, w.regs) && regs == FrameAt(mem, newRsp)
    && forall n, x: nat
         | n in w.stacks && w.stacks[n].lo <= x < w.stacks[n].hi && (x < w.regs.rsp - 48 || w.regs.rsp <= x) ::
         mem(x) == w.mem(x)
  }

  /** The running task calls switch_to for another one. */
  ghost predicate Switch(w: World, next: nat, w': World) {
    && next in w.saved && Room(w)
    && StackSwitched(w, w'.regs, w'.mem, w.saved[next])
    && w' == World(w'.regs, w'.mem, next, (w.saved - {next})[w.current := w.regs.rsp - 48], w.stacks)
  }

  /** Some sleeping tasks are gone, and no other sleeping task's stack has changed. */
  ghost predicate Reaps(w: World, gone: set<nat>, w': World) {
    gone <= w.saved.Keys && w' == Without(w, gone, w'.regs, w'.mem) && Undisturbed(w', w.mem)
  }

  ghost predicate Spawns(w: World, n: nat, stack: Region, trampoline: Word, entry: Word, w': World) {
    && n !in w.stacks && stack.lo + 56 <= stack.hi && (forall m | m in w.stacks :: Apart(stack, w.stacks[m]))
    && w' == World(w'.regs, w'.mem, w.current, w.saved[n := stack.hi - 56], w.stacks[n := stack])
    && FrameAt(w'.mem, stack.hi - 56) == Fresh(stack.hi, trampoline, entry)
    && Undisturbed(w.(mem := w'.mem), w.mem)
  }

  ghost predicate Next(w: World, e: Event, w': World) {
    match e
    case Work => w' == w.(regs := w'.regs, mem := w'.mem) && Undisturbed(w', w.mem)
    case Spawn(n, stack, trampoline, entry) => Spawns(w, n, stack, trampoline, entry, w')
    case Reap(gone) => Reaps(w, gone, w')
    case Yield(gone, regs, mem, next) =>
      Reaps(w, gone, Without(w, gone, regs, mem)) && Switch(Without(w, gone, regs, mem), next, w')
  }

  lemma NextInv(w: World, e: Event, w': World)
    requires Inv(w) && Next(w, e, w')
    ensures Inv(w')
  {
    match e
    case Work =>
    case Spawn(n, stack, trampoline, entry) => SpawnInv(w, n, stack, trampoline, entry, w');
    case Reap(gone) => ReapInv(w, gone, w');
    case Yield(gone, regs, mem, next) => YieldInv(w, gone, Without(w, gone, regs, mem), next, w');
  }

  lemma YieldInv(w: World, gone: set<nat>, w1: World, next: nat, w': World)
    requires Inv(w) && Reaps(w, gone, w1) && Switch(w1, next, w')
    ensures Inv(w')
  {
    ReapInv(w, gone, w1);
    SwitchInv(w1, next, w');
  }

  lemma ReapInv(w: World, gone: set<nat>, w': World)
    requires Inv(w) && Reaps(w, gone, w')
    ensures Inv(w')
  {
  }

  lemma SwitchInv(w: World, next: nat, w': World)
    requires Inv(w) && Switch(w, next, w')
    ensures Inv(w')
  {
    assert w'.saved.Keys == w.saved.Keys - {next} + {w.current};
  }

  lemma SpawnInv(w: World, n: nat, stack: Region, trampoline: Word, entry: Word, w': World)
    requires Inv(w) && Spawns(w, n, stack, trampoline, entry, w')
    ensures Inv(w')
  {
  }

  /** The step neither resumes the task nor ends it. */
  predicate Spares(e: Event, n: nat) {
    match e
    case Work => true
    case Spawn(_, _, _, _) => true
    case Reap(gone) => n !in gone
    case Yield(gone, _, _, next) => n !in gone && n != next
  }

  /** The task is switched out and will resume with `c`. */
  ghost predicate Asleep(w: World, n: nat, c: Context) {
    n in w.saved && FrameAt(w.mem, w.saved[n]) == c
  }

  /** What a task resumes with depends on its stack alone. */
  lemma SameFrame(w: World, w': World, n: nat, c: Context)
    requires Inv(w) && Asleep(w, n, c) && n in w'.saved && w'.saved[n] == w.saved[n]
    requires forall x: nat | w.stacks[n].lo <= x < w.stacks[n].hi :: w'.mem(x) == w.mem(x)
    ensures Asleep(w', n, c)
  {
  }

  lemma StaysThroughSwitch(w: World, next: nat, w': World, n: nat, c: Context)
    requires Inv(w) && Switch(w, next, w') && Asleep(w, n, c) && n != next
    ensures Asleep(w', n, c)
  {
    assert Apart(w.stacks[n], w.stacks[w.current]);
    SameFrame(w, w', n, c);
  }

  /** No step but a switch to it or its end changes what a sleeping task resumes with. */
  lemma StaysAsleep(w: World, e: Event, w': World, n: nat, c: Context)
    requires Inv(w) && Next(w, e, w') && Asleep(w, n, c) && Spares(e, n)
    ensures Asleep(w', n, c)
  {
    match e
    case Work => SameFrame(w, w', n, c);
    case Spawn(_, _, _, _) => SameFrame(w, w', n, c);
    case Reap(gone) => StaysThroughReap(w, gone, w', n, c);
    case Yield(gone, regs, mem, next) =>
      var w1 := Without(w, gone, regs, mem);
      StaysThroughReap(w, gone, w1, n, c);
      ReapInv(w, gone, w1);
      StaysThroughSwitch(w1, next, w', n, c);
  }

  lemma StaysThroughReap(w: World, gone: set<nat>, w': World, n: nat, c: Context)
    requires Inv(w) && Reaps(w, gone, w') && Asleep(w, n, c) && n !in gone
    ensures Asleep(w', n, c)
  {
    assert n in w'.saved && w'.stacks[n] == w.stacks[n];
    SameFrame(w, w', n, c);
  }

  ghost predicate StepAt(ws: seq<World>, es: seq<Event>, i: nat) {
    i < |es| && i + 1 < |ws| && Next(ws[i], es[i], ws[i + 1])
  }

  /** A run: the world before and after each step. */
  ghost predicate Run(ws: seq<World>, es: seq<Event>) {
    |ws| == |es| + 1 && Inv(ws[0]) && forall i: nat | i < |es| :: StepAt(ws, es, i)
  }

  lemma {:induction false} RunInv(ws: seq<World>, es: seq<Event>, k: nat)
    requires Run(ws, es) && k <= |es|
    ensures Inv(ws[k])
  {
    if k > 0 {
      RunInv(ws, es, k - 1);
      assert StepAt(ws, es, k - 1);
      NextInv(ws[k - 1], es[k - 1], ws[k]);
    }
  }

  /** From the time a task sleeps until it is resumed or ends, its context does not change. */
  lemma {:induction false} SleepsThrough(ws: seq<World>, es: seq<Event>, i: nat, j: nat, n: nat, c: Context)
    requires Run(ws, es) && i <= j <= |es| && Asleep(ws[i], n, c)
    requires forall k | i <= k < j :: Spares(es[k], n)
    ensures Asleep(ws[j], n, c)
    decreases j
  {
    if i < j {
      SleepsThrough(ws, es, i, j - 1, n, c);
      SleepsOn(ws, es, j - 1, n, c);
    }
  }

  lemma SleepsOn(ws: seq<World>, es: seq<Event>, k: nat, n: nat, c: Context)
    requires Run(ws, es) && k < |es| && Asleep(ws[k], n, c) && Spares(es[k], n)
    ensures Asleep(ws[k + 1], n, c)
  {
    RunInv(ws, es, k);
    assert StepAt(ws, es, k);
    StaysAsleep(ws[k], es[k], ws[k + 1], n, c);
  }

  /** A switch loads the context that is asleep there. */
  lemma SwitchResumes(w: World, next: nat, w': World, c: Context)
    requires Inv(w) && Switch(w, next, w') && Asleep(w, next, c)
    ensures w'.regs == c
  {
    assert Apart(w.stacks[next], w.stacks[w.current]);
    var sp := w.saved[next];
    forall x: nat | sp <= x < sp + 56
      ensures w'.mem(x) == w.mem(x)
    {
      assert w.stacks[next].lo <= x < w.stacks[next].hi;
    }
  }

  lemma Resumes(ws: seq<World>, es: seq<Event>, j: nat, n: nat, c: Context)
    requires Run(ws, es) && j < |es| && es[j].Yield? && es[j].next == n && Asleep(ws[j], n, c)
    ensures ws[j + 1].regs == c
  {
    RunInv(ws, es, j);
    assert StepAt(ws, es, j);
    YieldResumes(ws[j], es[j], ws[j + 1], c);
  }

  lemma YieldResumes(w: World, e: Event, w': World, c: Context)
    requires Inv(w) && e.Yield? && Next(w, e, w') && Asleep(w, e.next, c)
    ensures w'.regs == c
  {
    var w1 := Without(w, e.gone, e.regs, e.mem);
    StaysThroughReap(w, e.gone, w1, e.next, c);
    ReapInv(w, e.gone, w1);
    SwitchResumes(w1, e.next, w', c);
  }

  /** A task that calls switch_to falls asleep with its caller's context. */
  lemma FallsAsleep(w: World, e: Event, w': World)
    requires Inv(w) && e.Yield? && Next(w, e, w')
    ensures Asleep(w', w.current, Caller(e.mem, e.regs))
  {
    SwitchedOut(Without(w, e.gone, e.regs, e.mem), e.next, w');
  }

  lemma SwitchedOut(w: World, next: nat, w': World)
    requires Switch(w, next, w')
    ensures Asleep(w', w.current, Caller(w.mem, w.regs))
  {
  }

  /**
   Context integrity: a task that called switch_to in step i and is next resumed in step j returns from that
   call with the callee-saved registers and the stack pointer it had, at the return address it left.
   */
  lemma ResumesAsItLeft(ws: seq<World>, es: seq<Event>, i: nat, j: nat)
    requires Run(ws, es) && i < j < |es| && es[i].Yield? && es[j].Yield? && es[j].next == ws[i].current
    requires forall k | i < k < j :: Spares(es[k], ws[i].current)
    ensures ws[j + 1].regs == Caller(es[i].mem, es[i].regs)
  {
    var n, c := ws[i].current, Caller(es[i].mem, es[i].regs);
    AsleepAfterYield(ws, es, i);
    SleepsThrough(ws, es, i + 1, j, n, c);
    Resumes(ws, es, j, n, c);
  }

  lemma AsleepAfterYield(ws: seq<World>, es: seq<Event>, i: nat)
    requires Run(ws, es) && i < |es| && es[i].Yield?
    ensures Asleep(ws[i + 1], ws[i].current, Caller(es[i].mem, es[i].regs))
  {
    RunInv(ws, es, i);
    assert StepAt(ws, es, i);
    FallsAsleep(ws[i], es[i], ws[i + 1]);
  }

  lemma SpawnsAsleep(w: World, e: Event, w': World)
    requires Inv(w) && Next(w, e, w') && e.Spawn?
    ensures Asleep(w', e.n, Fresh(e.stack.hi, e.trampoline, e.entry))
  {
  }

  /** A task created in step i first runs in the trampoline, with its entry point in R12 and an empty stack. */
  lemma StartsInTrampoline(ws: seq<World>, es: seq<Event>, i: nat, j: nat)
    requires Run(ws, es) && i < j < |es| && es[i].Spawn? && es[j].Yield? && es[j].next == es[i].n
    requires forall k | i < k < j :: Spares(es[k], es[i].n)
    ensures ws[j + 1].regs == Fresh(es[i].stack.hi, es[i].trampoline, es[i].entry)
  {
    var n, c := es[i].n, Fresh(es[i].stack.hi, es[i].trampoline, es[i].entry);
    AsleepAfterSpawn(ws, es, i);
    SleepsThrough(ws, es, i + 1, j, n, c);
    Resumes(ws, es, j, n, c);
  }

  lemma AsleepAfterSpawn(ws: seq<World>, es: seq<Event>, i: nat)
    requires Run(ws, es) && i < |es| && es[i].Spawn?
    ensures Asleep(ws[i + 1], es[i].n, Fresh(es[i].stack.hi, es[i].trampoline, es[i].entry))
  {
    RunInv(ws, es, i);
    assert StepAt(ws, es, i);
    SpawnsAsleep(ws[i], es[i], ws[i + 1]);
  }
}
