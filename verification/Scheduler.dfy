/**
 The scheduler (kernel/src/task.c) over the kernel heap and the processor: control blocks are
 linked in a circle, and every operation walks the links.
 */
module Scheduler {
  import opened Bits
  import opened HeapLayout
  import opened Kheap
  import opened ContextSwitch
  import opened Tasks
  import opened TaskList
  import opened Reaping
  import opened TaskRuns

  /** The list in memory, with the saved stack pointers, and the blocks of its tasks. */
  ghost predicate Listing(tcbs: map<nat, Tcb>, ring: seq<Task>, list: nat, slots: map<nat, nat>, live: set<Block>) {
    Linked(tcbs, ring, list) && Held(ring, live) && Ascending(ring) && Slots(slots, ring)
  }

  /** The id of the next task is the number of tasks created so far, in 64 bits. */
  predicate IdFor(id: Word, serial: nat) {
    id == serial % WORD
  }

  class TaskScheduler {
    const heap: KernelHeap
    const cpu: Cpu
    /** The address of task_trampoline. */
    const trampoline: Word
    /** The memory that holds control blocks, by address. */
    var tcbs: map<nat, Tcb>
    var current: nat
    var taskList: nat
    var nextId: Word
    ghost var ring: seq<Task>
    ghost var created: nat

    ghost function State(): System
      reads this, heap
    {
      System(SchedOf(ring, current), created, heap.State())
    }

    /** No header written since then lies in the payload of a block that is live now. */
    ghost predicate SparedSince(headers: map<nat, Header>)
      reads heap
    {
      OffPayloads(headers, heap.headers, Live(heap.blocks), heap.heapEnd)
    }

    /** The list is well formed and its blocks are the tasks' own. */
    ghost predicate Listed()
      reads this, heap, cpu
    {
      heap.Good() && Listing(tcbs, ring, taskList, cpu.slots, Live(heap.blocks))
    }

    ghost predicate Good()
      reads this, heap, cpu
    {
      && Listed() && Inv(State()) && IdFor(nextId, created)
      && (current != 0 ==> current in tcbs)
    }

    /** No tasks yet: the static variables are zero. */
    constructor (heap: KernelHeap, cpu: Cpu, trampoline: Word)
      requires heap.Good()
      ensures Good() && this.heap == heap && this.cpu == cpu && this.trampoline == trampoline
      ensures State() == System(Idle([]), 0, heap.State())
    {
      this.heap, this.cpu, this.trampoline := heap, cpu, trampoline;
      tcbs, current, taskList, nextId := map[], 0, 0, 0;
      ring, created := [], 0;
    }

    /**
     task_init: what is running becomes the boot task, alone in the ring, if there is memory for its control block.
     */
    method Init()
      requires Good() && ring == [] && current == 0 && created == 0
      modifies this, heap, cpu`slots
      ensures Good() && State() == Boot(old(heap.State()))
    {
      ghost var h := heap.State();
      SizesFit();
      MallocGrants(h, TCB_SIZE);
      var t := heap.Kmalloc(TCB_SIZE);
      assert Boot(h).heap == heap.State() && tcbs == map[] && nextId == 0;
      if t != 0 { BeBoot(t, Boot(h)); }
    }

    method BeBoot(t: nat, ghost y: System)
      requires heap.Good() && Inv(y) && y.sched.Active? && y.sched.before == y.sched.after == []
      requires y.heap == heap.State()
      requires y.created == 1 && y.sched.now == Task(y.sched.now.tcb, BootStack, 0, Running, 0)
      requires t == Addr(y.sched.now)
      requires tcbs == map[] && nextId == 0
      modifies this, cpu`slots
      ensures Good() && State() == y
    {
      ghost var ring' := [y.sched.now];
      BootListed(y, tcbs, cpu.slots, y.sched.now, t, ring');
      tcbs := tcbs[t := Tcb(nextId, TASK_RUNNING, 0, t)];
      cpu.slots := cpu.slots[t + 8 := 0];
      nextId := (nextId + 1) % WORD;
      current, taskList := t, t;
      ring, created := ring', 1;
    }

    /** The walk of task_create to the last task. */
    method FindTail() returns (tail: nat)
      requires Linked(tcbs, ring, taskList) && ring != []
      ensures tail == Addr(ring[|ring| - 1])
    {
      tail := taskList;
      ghost var k := 0;
      while tcbs[tail].next != taskList
        invariant k < |ring| && tail == Addr(ring[k]) && LinkAt(tcbs, ring, k)
        decreases |ring| - k
      {
        assert k + 1 < |ring|;
        tail := tcbs[tail].next;
        k := k + 1;
      }
    }

    /** The walk of task_destroy to the predecessor. */
    method FindPrev(t: nat, ghost p: nat) returns (prev: nat, ghost q: nat)
      requires Linked(tcbs, ring, taskList) && |ring| > 1 && p < |ring| && t == Addr(ring[p])
      ensures q < |ring| && p == Succ(q, |ring|) && prev == Addr(ring[q])
    {
      prev := taskList;
      q := 0;
      while tcbs[prev].next != t
        invariant q < |ring| && prev == Addr(ring[q]) && LinkAt(tcbs, ring, q) && (p > 0 ==> q < p)
        decreases |ring| - q
      {
        prev := tcbs[prev].next;
        q := q + 1;
      }
    }

    /** Takes a task out of the list. */
    method Unlink(t: nat, ghost p: nat)
      requires Linked(tcbs, ring, taskList) && p < |ring| && t == Addr(ring[p])
      modifies this`tcbs, this`taskList
      ensures t in tcbs && t in old(tcbs) && tcbs[t].stack == old(tcbs[t].stack)
      ensures Linked(tcbs - {t}, RemoveAt(ring, p), taskList)
    {
      assert LinkAt(tcbs, ring, p);
      if tcbs[t].next == t {
        assert |ring| == 1;
        taskList := 0;
        RemovedAddrs(ring, p);
      } else {
        var prev, q := FindPrev(t, p);
        Unlinks(tcbs, ring, taskList, q, p);
        assert LinkAt(tcbs, ring, q);
        tcbs := tcbs[prev := tcbs[prev].(next := tcbs[t].next)];
        if taskList == t { taskList := tcbs[t].next; }
      }
    }

    /** Unlinks a task and reads its control block for the last time. */
    method Delist(t: nat, ghost p: nat) returns (stack: nat)
      requires Linked(tcbs, ring, taskList) && p < |ring| && t == Addr(ring[p])
      modifies this`tcbs, this`taskList
      ensures Linked(tcbs, RemoveAt(ring, p), taskList) && stack == StackPtr(ring[p])
    {
      assert LinkAt(tcbs, ring, p);
      Unlink(t, p);
      stack := tcbs[t].stack;
      tcbs := tcbs - {t};
    }

    /** kfree, which spares what stays live. */
    method Give(ptr: nat, ghost b: Block, ghost headers: map<nat, Header>)
      requires heap.Good() && b in Live(heap.blocks) && ptr == b.addr + HEADER && SparedSince(headers)
      modifies heap`headers, heap`blocks
      ensures heap.Good() && Live(heap.blocks) == old(Live(heap.blocks)) - {b} && SparedSince(headers)
    {
      ghost var live, m := Live(heap.blocks), heap.headers;
      FreeKeeps(heap.State(), b);
      heap.Kfree(ptr, b);
      OffThen(headers, m, heap.headers, Live(heap.blocks), live, Live(heap.blocks), heap.heapEnd, heap.heapEnd);
    }

    /** The two calls of kfree in task_destroy. */
    method FreeTask(t: nat, stack: nat, ghost task: Task, ghost headers: map<nat, Header>)
      requires heap.Good() && Blocks(task) <= Live(heap.blocks) && RightStack(task) && SparedSince(headers)
      requires t == Addr(task) && stack == StackPtr(task)
      modifies heap`headers, heap`blocks
      ensures heap.Good() && heap.State() == Without(old(heap.State()), Blocks(task))
      ensures Live(heap.blocks) == old(Live(heap.blocks)) - Blocks(task) && SparedSince(headers)
    {
      ghost var h := heap.State();
      if stack != 0 { Give(stack, task.stack.block, headers); }
      Give(t, task.tcb, headers);
      WithoutUnique(h, Blocks(task), heap.State());
    }

    /** task_destroy. */
    method Destroy(t: nat, ghost p: nat, ghost headers: map<nat, Header>)
      requires Listed() && (t != 0 ==> p < |ring| && t == Addr(ring[p])) && SparedSince(headers)
      modifies this`tcbs, this`taskList, this`ring, heap`headers, heap`blocks
      ensures Listed()
      ensures t == 0 ==> ring == old(ring) && heap.State() == old(heap.State())
      ensures t != 0 ==> ring == RemoveAt(old(ring), p)
                         && heap.State() == Without(old(heap.State()), Blocks(old(ring)[p]))
      ensures SparedSince(headers)
    {
      if t == 0 { return; }
      ghost var task, rest := RemoveTask(cpu.slots, ring, p, Live(heap.blocks));
      var stack := Delist(t, p);
      FreeTask(t, stack, task, headers);
      ring := rest;
    }

    /** The reaping walk is under way: the list is well formed, and nothing but dead tasks and their blocks has gone. */
    ghost predicate Walking(w: Walk, t: nat, goal: Goal)
      reads this, heap, cpu
    {
      && Listed() && WalkAt(ring, w, t) && w.current == goal.current && w.kept == goal.kept
      && Rest(heap.State(), ring) == goal.others && SparedSince(goal.headers)
    }

    /** One round of the reaping walk: a dead task is destroyed, and the walk goes on with the task that followed it. */
    method ReapStep(t: nat, ghost w: Walk, ghost goal: Goal) returns (next: nat, ghost w': Walk)
      requires Walking(w, t, goal) && w.k != w.p
      modifies this`tcbs, this`taskList, this`ring, heap`headers, heap`blocks
      ensures Walking(w', next, goal) && Ahead(|ring|, w'.k, w'.p) < Ahead(|old(ring)|, w.k, w.p)
    {
      assert LinkAt(tcbs, ring, w.p);
      next := tcbs[t].next;
      if tcbs[t].state == TASK_DEAD {
        w' := Bury(t, next, w, goal);
      } else {
        WalkOn(ring, w.k, w.p);
        w' := w.(p := Succ(w.p, |ring|));
      }
    }

    method Bury(t: nat, next: nat, ghost w: Walk, ghost goal: Goal) returns (ghost w': Walk)
      requires Walking(w, t, goal) && w.k != w.p
      requires ring[w.p].status == Dead && next == Addr(ring[Succ(w.p, |ring|)])
      modifies this`tcbs, this`taskList, this`ring, heap`headers, heap`blocks
      ensures Walking(w', next, goal) && Ahead(|ring|, w'.k, w'.p) < Ahead(|old(ring)|, w.k, w.p)
    {
      ghost var rest;
      rest, w' := Buried(cpu.slots, ring, w, heap.State());
      Destroy(t, w.p, goal.headers);
    }

    /** The reaping walk of schedule, over every task but the current one. */
    method ReapDead(ghost k: nat)
      requires Listed() && k < |ring| && current == Addr(ring[k])
      modifies this`tcbs, this`taskList, this`ring, heap`headers, heap`blocks
      ensures Listed() && ring == Keep(old(ring), current)
      ensures Rest(heap.State(), ring) == old(Rest(heap.State(), ring)) && heap.heapEnd == old(heap.heapEnd)
      ensures current == old(current) && nextId == old(nextId) && created == old(created)
      ensures SparedSince(old(heap.headers))
    {
      ghost var w := WalkBegins(tcbs, ring, taskList, k);
      ghost var goal := Goal(current, w.kept, Rest(heap.State(), ring), heap.headers);
      w := ReapFrom(tcbs[current].next, w, goal);
      WalkEnds(ring, w, current);
    }

    method ReapFrom(first: nat, ghost start: Walk, ghost goal: Goal) returns (ghost w: Walk)
      requires Walking(start, first, goal) && goal.current == current
      modifies this`tcbs, this`taskList, this`ring, heap`headers, heap`blocks
      ensures Walking(w, current, goal)
    {
      var t := first;
      w := start;
      while t != current
        invariant Walking(w, t, goal)
        decreases Ahead(|ring|, w.k, w.p)
      {
        t, w := ReapStep(t, w, goal);
      }
    }

    /**
     The search of schedule for a READY task: the dead are gone, so the successor is one unless the current task is
     alone.
     */
    method Pick(ghost k: nat) returns (next: nat)
      requires Linked(tcbs, ring, taskList) && k < |ring| && current == Addr(ring[k])
      requires OnlyRuns(ring, k)
      ensures next == Addr(ring[Succ(k, |ring|)])
    {
      assert LinkAt(tcbs, ring, k) && LinkAt(tcbs, ring, Succ(k, |ring|));
      next := tcbs[current].next;
      var start := next;
      var more := true;
      while more
        invariant next == Addr(ring[Succ(k, |ring|)]) && start == next && (|ring| > 1 ==> more)
        decreases more
      {
        if tcbs[next].state == TASK_READY { break; }
        next := tcbs[next].next;
        more := next != start;
      }
    }

    /** The state transitions of schedule. */
    method Transition(next: nat, ghost k: nat, ghost rsp: nat)
      requires Linked(tcbs, ring, taskList) && k < |ring| && |ring| > 1
      requires current == Addr(ring[k]) && next == Addr(ring[Succ(k, |ring|)])
      modifies this`tcbs, this`current
      ensures Linked(tcbs, SwitchAt(ring, k, rsp), taskList) && current == next
    {
      var prev := current;
      ghost var mid := ring[k := Suspended(ring[k], rsp)];
      GiveUp(prev, k, rsp);
      current := next;
      ghost var j := Succ(k, |ring|);
      Relabels(tcbs, mid, taskList, j, Resumed(mid[j]));
      tcbs := tcbs[next := tcbs[next].(state := TASK_RUNNING)];
    }

    /** A running task becomes READY; a dead one stays dead. */
    method GiveUp(prev: nat, ghost k: nat, ghost rsp: nat)
      requires Linked(tcbs, ring, taskList) && k < |ring| && prev == Addr(ring[k])
      modifies this`tcbs
      ensures Linked(tcbs, ring[k := Suspended(ring[k], rsp)], taskList)
    {
      ghost var t := Suspended(ring[k], rsp);
      assert LinkAt(tcbs, ring, k);
      Relabels(tcbs, ring, taskList, k, t);
      if tcbs[prev].state == TASK_RUNNING {
        tcbs := tcbs[prev := tcbs[prev].(state := TASK_READY)];
      } else {
        assert tcbs[prev := tcbs[prev].(state := Code(t.status))] == tcbs;
      }
    }

    /** The transition with the context switch. */
    method SwitchOver(next: nat, ghost k: nat, ghost rsp: nat)
      requires Linked(tcbs, ring, taskList) && Slots(cpu.slots, ring) && k < |ring| && |ring| > 1
      requires current == Addr(ring[k]) && next == Addr(ring[Succ(k, |ring|)]) && cpu.rsp == rsp + 48
      modifies this`tcbs, this`current, cpu
      ensures Linked(tcbs, SwitchAt(ring, k, rsp), taskList) && current == next
      ensures Slots(cpu.slots, SwitchAt(ring, k, rsp))
      ensures Switched(old(cpu.Regs()), old(cpu.mem), cpu.Regs(), cpu.mem, ring[Succ(k, |ring|)].rsp)
    {
      var slot := current + 8;
      SwitchSlots(cpu.slots, ring, k, slot, rsp);
      Transition(next, k, rsp);
      HandOver(slot, next, SwitchAt(ring, k, rsp));
    }

    /** The call of switch_to. */
    method HandOver(slot: nat, next: nat, ghost ring': seq<Task>)
      requires cpu.rsp >= 48 && next + 8 in cpu.slots && Slots(cpu.slots[slot := cpu.rsp - 48], ring')
      modifies cpu
      ensures Slots(cpu.slots, ring')
      ensures Switched(old(cpu.Regs()), old(cpu.mem), cpu.Regs(), cpu.mem, old(cpu.slots[next + 8]))
    {
      cpu.SwitchTo(slot, cpu.slots[next + 8]);
    }

    /** The first half of schedule: the dead tasks other than the current one are gone, with their blocks. */
    method ReapOthers(ghost y: System) returns (ghost k: nat)
      requires Good() && current != 0 && State() == y
      modifies this`tcbs, this`taskList, this`ring, heap`headers, heap`blocks
      ensures Listed() && State() == Reduced(y) && IdFor(nextId, created)
      ensures k < |ring| && current == Addr(ring[k])
      ensures OnlyRuns(ring, k)
      ensures SparedSince(old(heap.headers)) && cpu.Regs() == old(cpu.Regs()) && cpu.mem == old(cpu.mem)
    {
      ghost var ring0 := ring;
      k := Current(tcbs, ring, taskList, current);
      ReapDead(k);
      k := Reduces(y, ring0, k, State(), ring);
    }

    /** The second half of schedule: the successor of the current task, if there is one, gets the processor. */
    method SwitchOn(ghost k: nat, ghost rsp: nat)
      requires Linked(tcbs, ring, taskList) && Slots(cpu.slots, ring) && k < |ring| && current == Addr(ring[k])
      requires cpu.rsp == rsp + 48 && OnlyRuns(ring, k)
      modifies this`tcbs, this`current, this`ring, cpu
      ensures Linked(tcbs, ring, taskList) && Slots(cpu.slots, ring)
      ensures Moved(old(ring), k, rsp, ring, current) && nextId == old(nextId) && created == old(created)
      ensures heap.State() == old(heap.State()) && heap.Good() == old(heap.Good())
      ensures |old(ring)| == 1 ==> cpu.Regs() == old(cpu.Regs()) && cpu.mem == old(cpu.mem)
      ensures |old(ring)| > 1 ==>
                Switched(old(cpu.Regs()), old(cpu.mem), cpu.Regs(), cpu.mem, old(ring)[Succ(k, |old(ring)|)].rsp)
    {
      assert LinkAt(tcbs, ring, k) && LinkAt(tcbs, ring, Succ(k, |ring|));
      var next := Pick(k);
      if next == current || tcbs[next].state != TASK_READY { return; }
      SwitchOver(next, k, rsp);
      ring := SwitchAt(ring, k, rsp);
    }

    /** schedule with a current task. */
    method ScheduleFrom(ghost rsp: nat, ghost y: System)
      requires Good() && current != 0 && cpu.rsp == rsp + 48 && State() == y
      modifies this`tcbs, this`taskList, this`current, this`ring, heap`headers, heap`blocks, cpu
      ensures Good() && State() == Scheduled(y, rsp)
      ensures Switches(y.sched, old(cpu.Regs()), old(cpu.mem), cpu.Regs(), cpu.mem)
      ensures SparedSince(old(heap.headers))
    {
      ghost var k := ReapOthers(y);
      Continue(k, rsp, y);
    }

    /** The rest of schedule once the dead are gone. */
    method Continue(ghost k: nat, ghost rsp: nat, ghost y: System)
      requires Listed() && Inv(y) && State() == Reduced(y) && IdFor(nextId, created)
      requires k < |ring| && current == Addr(ring[k]) && OnlyRuns(ring, k) && cpu.rsp == rsp + 48
      modifies this`tcbs, this`current, this`ring, cpu
      ensures Good() && State() == Scheduled(y, rsp)
      ensures Switches(y.sched, old(cpu.Regs()), old(cpu.mem), cpu.Regs(), cpu.mem)
      ensures heap.headers == old(heap.headers) && heap.blocks == old(heap.blocks) && heap.heapEnd == old(heap.heapEnd)
    {
      ghost var r, h := ring, heap.State();
      SwitchOn(k, rsp);
      ScheduleDone(y, r, k, rsp, h, ring, current);
      assert State() == System(SchedOf(ring, current), y.created, h);
      Relisted(tcbs, ring, taskList, cpu.slots, State(), current);
    }

    /**
     schedule, up to the point where the next task runs. The registers are those at the call of switch_to, which
     saves the stack pointer `rsp`. The other task's context is then in the processor, or nothing was switched.
     */
    method Schedule(ghost rsp: nat)
      requires Good() && cpu.rsp == rsp + 48
      modifies this`tcbs, this`taskList, this`current, this`ring, heap`headers, heap`blocks, cpu
      ensures Good() && State() == Scheduled(old(State()), rsp)
      ensures Switches(old(State()).sched, old(cpu.Regs()), old(cpu.mem), cpu.Regs(), cpu.mem)
      ensures SparedSince(old(heap.headers))
    {
      if current == 0 {
        NobodyRuns(State(), rsp);
        return;
      }
      ghost var k := Current(tcbs, ring, taskList, current);
      assert LinkAt(tcbs, ring, k);
      if tcbs[current].next == 0 { return; }
      ScheduleFrom(rsp, State());
    }

    method SetDead(ghost ring': seq<Task>)
      requires current in tcbs
      modifies this`tcbs, this`ring
      ensures tcbs == old(tcbs)[current := old(tcbs)[current].(state := TASK_DEAD)] && ring == ring'
      ensures heap.State() == old(heap.State()) && heap.Good() == old(heap.Good()) && cpu.slots == old(cpu.slots)
      ensures nextId == old(nextId) && created == old(created) && current == old(current) && taskList == old(taskList)
    {
      tcbs := tcbs[current := tcbs[current].(state := TASK_DEAD)];
      ring := ring';
    }

    /** The first line of task_exit: the current task is dead, though still current. */
    method Die()
      requires Good() && current != 0
      modifies this`tcbs, this`ring
      ensures Good() && old(State()).sched.Active? && State() == Exited(old(State()))
      ensures heap.headers == old(heap.headers) && cpu.Regs() == old(cpu.Regs()) && cpu.mem == old(cpu.mem)
    {
      ghost var y := State();
      ghost var ring' := Dies(y, tcbs, cpu.slots, ring, taskList, current);
      SetDead(ring');
      assert State() == System(SchedOf(ring', current), y.created, y.heap) == Exited(y);
    }

    /** task_exit, up to the point where the next task runs or, if there is none, the processor halts. */
    method Exit(ghost rsp: nat)
      requires Good() && current != 0 && cpu.rsp == rsp + 48
      modifies this`tcbs, this`taskList, this`current, this`ring, heap`headers, heap`blocks, cpu
      ensures Good() && old(State()).sched.Active? && Steps(old(State()), TaskRuns.Exit(rsp), State())
      ensures Switches(MarkDead(old(State()).sched), old(cpu.Regs()), old(cpu.mem), cpu.Regs(), cpu.mem)
      ensures SparedSince(old(heap.headers))
    {
      ghost var y := State();
      Die();
      ghost var y1 := State();
      Schedule(rsp);
      ExitSteps(y, rsp, y1, State());
    }

    /** The second call of kmalloc in task_create; a control block without a stack is given back. */
    method AllocateStack(t: nat, ghost tcb: Block) returns (stack: nat)
      requires heap.Good() && tcb in Live(heap.blocks) && t == tcb.addr + HEADER
      modifies heap
      ensures heap.Good() && StackAllotted(old(heap.State()), tcb, heap.State(), stack)
      ensures old(heap.heapEnd) <= heap.heapEnd
      ensures OffPayloads(old(heap.headers), heap.headers, old(Live(heap.blocks)) - {tcb}, heap.heapEnd)
      ensures unchanged(this) && unchanged(cpu)
    {
      ghost var h, m := heap.State(), heap.headers;
      SizesFit();
      MallocGrants(h, STACK_SIZE);
      stack := heap.Kmalloc(STACK_SIZE);
      if stack == 0 {
        ghost var m1, end1 := heap.headers, heap.heapEnd;
        FreeKeeps(heap.State(), tcb);
        heap.Kfree(t, tcb);
        OffThen(m, m1, heap.headers, Live(h.blocks) - {tcb}, Live(h.blocks), Live(heap.blocks), end1, heap.heapEnd);
      } else {
        OffThen(m, m, heap.headers, Live(h.blocks) - {tcb}, Live(h.blocks), Live(h.blocks), heap.heapEnd, heap.heapEnd);
      }
    }

    /** The two calls of kmalloc in task_create. */
    method AllocateTask() returns (t: nat, stack: nat)
      requires heap.Good()
      modifies heap
      ensures heap.Good() && Allotted(old(heap.State()), heap.State(), t, stack)
      ensures unchanged(this) && unchanged(cpu)
      ensures OffPayloads(old(heap.headers), heap.headers, old(Live(heap.blocks)), heap.heapEnd)
    {
      ghost var h, m := heap.State(), heap.headers;
      SizesFit();
      MallocGrants(h, TCB_SIZE);
      t := heap.Kmalloc(TCB_SIZE);
      stack := 0;
      if t == 0 { return; }
      ghost var h1, m1, tcb := heap.State(), heap.headers, NewBlock(h, TCB_SIZE);
      assert Live(h1.blocks) - {tcb} == Live(h.blocks);
      stack := AllocateStack(t, tcb);
      OffThen(m, m1, heap.headers, Live(h.blocks), Live(h.blocks), Live(h.blocks), h1.end, heap.heapEnd);
      if stack == 0 { t := 0; }
    }

    /** task_create's insertion of a control block into the list. */
    method Insert(t: nat, id: Word, stack: nat, ghost task: Task)
      requires Linked(tcbs, ring, taskList) && t == Addr(task) && t !in tcbs
      requires IdFor(id, task.serial) && stack == StackPtr(task) && task.status == Ready
      modifies this`tcbs, this`taskList
      ensures Linked(tcbs, ring + [task], taskList)
    {
      if taskList != 0 {
        Links(tcbs, ring, taskList, task);
        var tail := FindTail();
        tcbs := tcbs[tail := tcbs[tail].(next := t)];
        tcbs := tcbs[t := Tcb(id, TASK_READY, stack, taskList)];
      } else {
        assert ring == [] && ring + [task] == [task];
        LinksFirst(tcbs, task);
        tcbs := tcbs[t := Tcb(id, TASK_READY, stack, t)];
        taskList := t;
      }
    }

    /**
     The rest of task_create: the control block is filled in, the first frame is written, and the task joins the
     ring.
     */
    method Enlist(t: nat, stack: nat, entry: Word, ghost task: Task)
      requires Linked(tcbs, ring, taskList) && Slots(cpu.slots, ring) && IdFor(nextId, created)
      requires t == Addr(task) && t !in tcbs && stack == StackPtr(task)
      requires task.serial == created && task.status == Ready && task.rsp + FIRST_FRAME == stack + STACK_SIZE
      modifies this`tcbs, this`taskList, this`nextId, this`ring, this`created, cpu`mem, cpu`slots
      ensures Linked(tcbs, ring, taskList) && Slots(cpu.slots, ring) && IdFor(nextId, created)
      ensures ring == old(ring) + [task] && created == old(created) + 1 && current == old(current)
      ensures StartsAt(t, ring, trampoline, entry, old(cpu.mem), cpu.mem)
      ensures heap.State() == old(heap.State()) && heap.Good() == old(heap.Good())
    {
      NewSlot(tcbs, cpu.slots, ring, taskList, task);
      var id := TakeId();
      Prepare(t, stack, entry, task);
      Insert(t, id, stack, task);
      ring := ring + [task];
    }

    /** next_id++. */
    method TakeId() returns (id: Word)
      requires IdFor(nextId, created)
      modifies this`nextId, this`created
      ensures IdFor(id, old(created)) && created == old(created) + 1 && IdFor(nextId, created)
      ensures heap.State() == old(heap.State()) && heap.Good() == old(heap.Good())
    {
      id := nextId;
      NextIdFor(nextId, created);
      nextId := (nextId + 1) % WORD;
      created := created + 1;
    }

    /** The first stack frame of a new task and its saved stack pointer. */
    method Prepare(t: nat, stack: nat, entry: Word, ghost task: Task)
      requires t == Addr(task) && task.rsp + FIRST_FRAME == stack + STACK_SIZE
      modifies cpu`mem, cpu`slots
      ensures FirstFrameAt(task.rsp, trampoline, entry, old(cpu.mem), cpu.mem)
      ensures cpu.slots == old(cpu.slots)[Addr(task) + 8 := task.rsp]
      ensures heap.State() == old(heap.State()) && heap.Good() == old(heap.Good())
    {
      var sp := cpu.FirstFrame(stack + STACK_SIZE, trampoline, entry);
      cpu.slots := cpu.slots[t + 8 := sp];
    }

    /** task_create: the address of the new control block, or 0. */
    method Create(entry: Word) returns (t: nat)
      requires Good()
      modifies this`tcbs, this`taskList, this`nextId, this`ring, this`created, heap, cpu`mem, cpu`slots
      ensures Good() && Steps(old(State()), Spawn, State()) && (t == 0 <==> created == old(created))
      ensures t != 0 ==> StartsAt(t, ring, trampoline, entry, old(cpu.mem), cpu.mem)
      ensures OffPayloads(old(heap.headers), heap.headers, old(Live(heap.blocks)), heap.heapEnd)
    {
      ghost var y := State();
      var stack;
      t, stack := AllocateTask();
      assert Listing(tcbs, ring, taskList, cpu.slots, Live(y.heap.blocks));
      if t == 0 {
        CreateFails(y, tcbs, ring, taskList, cpu.slots, current, heap.State(), stack);
        assert State() == y.(heap := heap.State());
        return;
      }
      ghost var task := CreateWorks(y, tcbs, ring, taskList, cpu.slots, heap.State(), t, stack);
      Join(t, stack, entry, task, y);
    }

    /** The successful end of task_create. */
    method Join(t: nat, stack: nat, entry: Word, ghost task: Task, ghost y: System)
      requires heap.Good() && Linked(tcbs, ring, taskList) && Slots(cpu.slots, ring) && IdFor(nextId, created)
      requires (current != 0 ==> current in tcbs) && Inv(y) && y.sched == SchedOf(ring, current) && y.created == created
      requires Joins(y, heap.State(), t, stack, task) && t !in tcbs
      modifies this`tcbs, this`taskList, this`nextId, this`ring, this`created, cpu`mem, cpu`slots
      ensures Good() && Steps(y, Spawn, State()) && created == old(created) + 1
      ensures StartsAt(t, ring, trampoline, entry, old(cpu.mem), cpu.mem)
    {
      ghost var h, ring0 := heap.State(), ring;
      Enlist(t, stack, entry, task);
      EnlistDone(y, tcbs, ring0, ring, taskList, cpu.slots, current, h, task);
      assert State() == System(SchedOf(ring, current), y.created + 1, h);
    }
  }

  /** The boot task alone in the list. */
  lemma BootListed(y: System, tcbs: map<nat, Tcb>, slots: map<nat, nat>, task: Task, t: nat, ring: seq<Task>)
    requires Inv(y) && y.sched == Active([], task, []) && tcbs == map[] && t == Addr(task) && ring == [task]
    requires task == Task(task.tcb, BootStack, 0, Running, 0)
    ensures Listing(tcbs[t := Tcb(0, TASK_RUNNING, 0, t)], ring, t, slots[t + 8 := 0], Live(y.heap.blocks))
    ensures SchedOf(ring, t) == y.sched
  {
    assert Linked(tcbs[t := Tcb(0, TASK_RUNNING, 0, t)], ring, t) by { LinksFirst(tcbs, task); }
    assert SchedOf(ring, t) == y.sched by {
      SchedAround([], task, []);
      assert [] + [task] + [] == ring;
    }
    FromInv(y, ring, t);
  }

  /**
   The task at address t is the last of the ring, and its first frame leads to the trampoline with the entry point.
   */
  ghost predicate StartsAt(t: nat, ring: seq<Task>, trampoline: Word, entry: Word, mem: Memory, mem': Memory) {
    && ring != [] && Addr(ring[|ring| - 1]) == t
    && FirstFrameAt(ring[|ring| - 1].rsp, trampoline, entry, mem, mem')
  }

  ghost predicate FirstFrameAt(sp: nat, trampoline: Word, entry: Word, mem: Memory, mem': Memory) {
    FrameAt(mem', sp) == Fresh(sp + FIRST_FRAME, trampoline, entry) && SameOutside(mem', mem, sp, sp + FIRST_FRAME)
  }

  /** A task that cannot be created leaves the ring and the live blocks as they were. */
  lemma CreateFails(y: System, tcbs: map<nat, Tcb>, ring: seq<Task>, list: nat, slots: map<nat, nat>, current: nat,
                    h: Heap, stack: nat)
    requires Inv(y) && y.sched == SchedOf(ring, current) && Listing(tcbs, ring, list, slots, Live(y.heap.blocks))
    requires Allotted(y.heap, h, 0, stack)
    ensures Steps(y, Spawn, y.(heap := h)) && Inv(y.(heap := h)) && Listing(tcbs, ring, list, slots, Live(h.blocks))
  {
    CreateInv(y);
    assert y.(heap := h) == TaskRuns.Create(y);
  }

  /** The task that joins the ring, with the blocks it was allotted. */
  ghost predicate Joins(y: System, h: Heap, t: nat, stack: nat, task: Task)
    requires Inv(y)
  {
    && task.serial == y.created && task.status == Ready && Addr(task) == t && StackPtr(task) == stack
    && task.rsp + FIRST_FRAME == stack + STACK_SIZE
    && TaskRuns.Create(y) == System(Append(y.sched, task), y.created + 1, h)
  }

  lemma CreateWorks(y: System, tcbs: map<nat, Tcb>, ring: seq<Task>, list: nat, slots: map<nat, nat>,
                    h: Heap, t: nat, stack: nat) returns (task: Task)
    requires Inv(y) && Listing(tcbs, ring, list, slots, Live(y.heap.blocks))
    requires Allotted(y.heap, h, t, stack) && t != 0
    ensures Joins(y, h, t, stack, task) && t !in tcbs
  {
    task := JoinsAs(y, h, t, stack);
    AllottedApart(y.heap, h, t, stack, ring);
  }

  lemma AllottedApart(h: Heap, h': Heap, t: nat, stack: nat, ring: seq<Task>)
    requires Valid(h) && Held(ring, Live(h.blocks)) && Allotted(h, h', t, stack) && t != 0
    ensures t !in Addrs(ring)
  {
    SizesFit();
    MallocGrants(h, TCB_SIZE);
    FreshAddr(Malloc(h, TCB_SIZE).0, ring, Live(h.blocks), NewBlock(h, TCB_SIZE));
  }

  lemma JoinsAs(y: System, h: Heap, t: nat, stack: nat) returns (task: Task)
    requires Inv(y) && Allotted(y.heap, h, t, stack) && t != 0
    ensures Joins(y, h, t, stack, task)
  {
    SizesFit();
    MallocGrants(y.heap, TCB_SIZE);
    var h1 := Malloc(y.heap, TCB_SIZE).0;
    task := NewTask(NewBlock(y.heap, TCB_SIZE), NewBlock(h1, STACK_SIZE), y.created);
  }

  /** A new block is at no task's address. */
  lemma FreshAddr(h: Heap, ring: seq<Task>, live: set<Block>, b: Block)
    requires Valid(h) && Held(ring, live) && b !in live && Live(h.blocks) == live + {b}
    ensures b.addr + HEADER !in Addrs(ring)
  {
    forall t | t in ring
      ensures t.tcb.addr != b.addr
    {
      assert t.tcb in live;
      PayloadApart(h, t.tcb, b);
    }
  }

  lemma EnlistDone(y: System, tcbs: map<nat, Tcb>, ring: seq<Task>, ring': seq<Task>, list: nat, slots: map<nat, nat>,
                   current: nat, h: Heap, task: Task)
    requires Inv(y) && y.sched == SchedOf(ring, current) && ring' == ring + [task] && current != Addr(task)
    requires Linked(tcbs, ring', list) && Slots(slots, ring')
    requires TaskRuns.Create(y) == System(Append(y.sched, task), y.created + 1, h)
    ensures var y' := System(SchedOf(ring', current), y.created + 1, h); Steps(y, Spawn, y') && Inv(y')
    ensures Listing(tcbs, ring', list, slots, Live(h.blocks))
  {
    AppendsSched(ring, task, current);
    CreateInv(y);
    FromInv(TaskRuns.Create(y), ring', current);
  }

  lemma AppendsSched(ring: seq<Task>, task: Task, current: nat)
    requires current != Addr(task)
    ensures SchedOf(ring + [task], current) == Append(SchedOf(ring, current), task)
  {
    var k, r := IndexAt(ring, current), ring + [task];
    assert IndexAt(r, current) == if k < |ring| then k else |r| by {
      assert forall j | 0 <= j < |ring| :: r[j] == ring[j];
    }
    if k < |ring| { assert r[..k] == ring[..k] && r[k + 1..] == ring[k + 1..] + [task]; }
  }

  lemma NextIdFor(id: Word, serial: nat)
    requires IdFor(id, serial)
    ensures IdFor((id + 1) % WORD, serial + 1)
  {
  }

  lemma NewSlot(tcbs: map<nat, Tcb>, slots: map<nat, nat>, ring: seq<Task>, list: nat, t: Task)
    requires Linked(tcbs, ring, list) && Slots(slots, ring) && Addr(t) !in tcbs
    ensures Slots(slots[Addr(t) + 8 := t.rsp], ring + [t])
  {
    assert forall u | u in ring :: Addr(u) in tcbs;
  }

  /** The outcome of the call of kmalloc for the stack. */
  ghost predicate StackAllotted(h: Heap, tcb: Block, h': Heap, stack: nat)
    requires Valid(h) && tcb in Live(h.blocks)
  {
    SizesFit();
    MallocGrants(h, STACK_SIZE);
    if Refused(h, STACK_SIZE) then stack == 0 && h' == Free(h, tcb)
    else stack == NewBlock(h, STACK_SIZE).addr + HEADER && h' == Malloc(h, STACK_SIZE).0
  }

  /** The outcome of the two calls of kmalloc. */
  ghost predicate Allotted(h: Heap, h': Heap, t: nat, stack: nat)
    requires Valid(h)
  {
    SizesFit();
    MallocGrants(h, TCB_SIZE);
    if Refused(h, TCB_SIZE) then t == 0 && h' == h
    else
      var h1, tcb := Malloc(h, TCB_SIZE).0, NewBlock(h, TCB_SIZE);
      StackAllotted(h1, tcb, h', stack) && t == if stack == 0 then 0 else tcb.addr + HEADER
  }

  /** What the write of the state means for the list and for the system. */
  lemma Dies(y: System, tcbs: map<nat, Tcb>, slots: map<nat, nat>, ring: seq<Task>, list: nat, current: nat)
    returns (ring': seq<Task>)
    requires Inv(y) && y.sched == SchedOf(ring, current) && Listing(tcbs, ring, list, slots, Live(y.heap.blocks))
    requires current in tcbs
    ensures y.sched.Active? && Exited(y) == System(SchedOf(ring', current), y.created, y.heap) && Inv(Exited(y))
    ensures Listing(tcbs[current := tcbs[current].(state := TASK_DEAD)], ring', list, slots, Live(y.heap.blocks))
  {
    var k := Current(tcbs, ring, list, current);
    MarkDeadInv(y);
    ring' := MarksDead(tcbs, slots, ring, list, k, current);
    Relisted(tcbs[current := tcbs[current].(state := TASK_DEAD)], ring', list, slots, Exited(y), current);
  }

  lemma MarksDead(tcbs: map<nat, Tcb>, slots: map<nat, nat>, ring: seq<Task>, list: nat, k: nat, current: nat)
    returns (ring': seq<Task>)
    requires Linked(tcbs, ring, list) && Slots(slots, ring) && k < |ring| && current == Addr(ring[k])
    ensures current in tcbs && Linked(tcbs[current := tcbs[current].(state := TASK_DEAD)], ring', list)
    ensures Slots(slots, ring') && SchedOf(ring, current).Active?
    ensures SchedOf(ring', current) == MarkDead(SchedOf(ring, current))
  {
    ring' := ring[k := ring[k].(status := Dead)];
    Relabels(tcbs, ring, list, k, ring[k].(status := Dead));
    MarkedSched(slots, ring, k);
  }

  lemma MarkedSched(slots: map<nat, nat>, ring: seq<Task>, k: nat)
    requires Separate(ring) && Slots(slots, ring) && k < |ring|
    ensures var ring', c := ring[k := ring[k].(status := Dead)], Addr(ring[k]);
            Slots(slots, ring') && SchedOf(ring, c).Active? && SchedOf(ring', c) == MarkDead(SchedOf(ring, c))
  {
    var a, b := SplitRing(ring, k);
    var t := ring[k];
    var dead := t.(status := Dead);
    assert ring[k := dead] == a + [dead] + b;
    SchedAround(a, t, b);
    SchedAround(a, dead, b);
    SlotsKept(slots, a, t, b, dead);
  }

  lemma SlotsKept(slots: map<nat, nat>, a: seq<Task>, t: Task, b: seq<Task>, u: Task)
    requires Slots(slots, a + [t] + b) && Addr(u) == Addr(t) && u.rsp == t.rsp
    ensures Slots(slots, a + [u] + b)
  {
    assert t in a + [t] + b;
    assert forall x | x in a || x in b :: x in a + [t] + b;
  }

  /** What schedule does to the processor: it continues with the first task in line, if there is one. */
  ghost predicate Switches(s: Sched, regs: Context, mem: Memory, regs': Context, mem': Memory) {
    var r := Reap(s);
    if r.Active? && Line(r) != [] then Switched(regs, mem, regs', mem', Line(r)[0].rsp)
    else regs' == regs && mem' == mem
  }

  lemma NobodyRuns(y: System, rsp: nat)
    requires Inv(y) && y.sched.Idle?
    ensures Scheduled(y, rsp) == y
  {
    assert Reaped(y.sched) == {};
  }

  /** Everybody but the task at index k is READY. */
  predicate OnlyRuns(ring: seq<Task>, k: nat) {
    forall i | 0 <= i < |ring| :: ring[i].status == Ready <==> i != k
  }

  /** The ring after the second half of schedule. */
  predicate Moved(ring: seq<Task>, k: nat, rsp: nat, ring': seq<Task>, current: nat)
    requires k < |ring|
  {
    if |ring| == 1 then ring' == ring && current == Addr(ring[k])
    else ring' == SwitchAt(ring, k, rsp) && current == Addr(ring[Succ(k, |ring|)])
  }

  /** What the two halves of schedule come to. */
  lemma ScheduleDone(y: System, ring: seq<Task>, k: nat, rsp: nat, h: Heap, ring': seq<Task>, current: nat)
    requires Inv(y) && Separate(ring) && k < |ring| && Reduced(y) == System(SchedOf(ring, Addr(ring[k])), y.created, h)
    requires OnlyRuns(ring, k)
    requires Moved(ring, k, rsp, ring', current)
    ensures var y' := System(SchedOf(ring', current), y.created, h);
            y' == Scheduled(y, rsp) && Inv(y') && y'.sched.Active?
    ensures |ring| == 1 ==> Line(Reap(y.sched)) == []
    ensures |ring| > 1 ==> var r := Reap(y.sched); r.Active? && Line(r) != [] && Line(r)[0] == ring[Succ(k, |ring|)]
  {
    ScheduledIs(y, ring, k, rsp);
    ScheduledInv(y, rsp);
    IndexIs(ring, k);
  }

  lemma Relisted(tcbs: map<nat, Tcb>, ring: seq<Task>, list: nat, slots: map<nat, nat>, y: System, current: nat)
    requires Linked(tcbs, ring, list) && Slots(slots, ring) && Inv(y) && y.sched == SchedOf(ring, current)
    requires y.sched.Active?
    ensures Listing(tcbs, ring, list, slots, Live(y.heap.blocks)) && current in tcbs
  {
    FromInv(y, ring, current);
    var k := IndexAt(ring, current);
    assert LinkAt(tcbs, ring, k);
  }

  lemma FromInv(y: System, ring: seq<Task>, current: nat)
    requires Inv(y) && y.sched == SchedOf(ring, current)
    ensures Held(ring, Live(y.heap.blocks)) && Ascending(ring)
  {
    RingOf(ring, current);
  }

  /** schedule on a reduced ring: nothing if the current task is alone, else a switch to its successor. */
  lemma ScheduledIs(y: System, ring: seq<Task>, k: nat, rsp: nat)
    requires Inv(y) && Separate(ring) && k < |ring| && Reduced(y).sched == SchedOf(ring, Addr(ring[k]))
    requires OnlyRuns(ring, k)
    ensures |ring| == 1 ==> Scheduled(y, rsp) == Reduced(y) && Line(Reduced(y).sched) == []
    ensures |ring| > 1 ==>
              && Scheduled(y, rsp) == Reduced(y).(sched := SchedOf(SwitchAt(ring, k, rsp), Addr(ring[Succ(k, |ring|)])))
              && Line(Reduced(y).sched) != [] && Line(Reduced(y).sched)[0] == ring[Succ(k, |ring|)]
  {
    IndexIs(ring, k);
    if |ring| > 1 {
      SwitchesRing(ring, k, rsp);
      SwitchNext(Reduced(y).sched, rsp);
    }
  }

  /** A system without its dead tasks but the current one. */
  ghost function Reduced(y: System): System
    requires Valid(y.heap) && Held(Ring(y.sched), Live(y.heap.blocks))
  {
    ReapHeld(y.sched, Live(y.heap.blocks));
    y.(sched := Reap(y.sched), heap := Without(y.heap, Reaped(y.sched)))
  }

  lemma Current(tcbs: map<nat, Tcb>, ring: seq<Task>, list: nat, current: nat) returns (k: nat)
    requires Linked(tcbs, ring, list) && current in tcbs
    ensures k < |ring| && current == Addr(ring[k]) && SchedOf(ring, current).Active?
  {
    var t :| t in ring && Addr(t) == current;
    k :| 0 <= k < |ring| && ring[k] == t;
    IndexIs(ring, k);
  }

  /** After the reaping walk the ring is the reaped ring, and everybody but the current task is READY. */
  lemma Kept(ring: seq<Task>, k: nat, ring': seq<Task>) returns (k': nat)
    requires Separate(ring) && k < |ring| && Sane(SchedOf(ring, Addr(ring[k]))) && ring' == Keep(ring, Addr(ring[k]))
    ensures SchedOf(ring', Addr(ring[k])) == Reap(SchedOf(ring, Addr(ring[k])))
    ensures k' < |ring'| && Addr(ring'[k']) == Addr(ring[k])
    ensures OnlyRuns(ring', k')
  {
    var c := Addr(ring[k]);
    KeepIsReap(ring, k);
    IndexIs(ring, k);
    var s := SchedOf(ring', c);
    ReapSane(SchedOf(ring, c));
    k' := IndexAt(ring', c);
    RingOf(ring', c);
    forall i | 0 <= i < |ring'| && i != k'
      ensures ring'[i] in Line(s)
    {
      assert ring'[i] in ring'[..k'] || ring'[i] in ring'[k' + 1..];
    }
  }

  /** The heap after the walk, in which only the removed tasks' blocks were freed, is the reduced system's. */
  lemma ReducedHeap(h: Heap, ring: seq<Task>, current: nat, h': Heap, ring': seq<Task>)
    requires Valid(h) && Held(ring, Live(h.blocks)) && Valid(h') && h'.end == h.end && Held(ring', Live(h'.blocks))
    requires SchedOf(ring', current) == Reap(SchedOf(ring, current)) && Rest(h', ring') == Rest(h, ring)
    ensures Reaped(SchedOf(ring, current)) <= Live(h.blocks) && h' == Without(h, Reaped(SchedOf(ring, current)))
  {
    var s := SchedOf(ring, current);
    RingOf(ring, current);
    RingOf(ring', current);
    ReapHeld(s, Live(h.blocks));
    assert Owned(ring') <= Live(h'.blocks);
    SameRest(Live(h.blocks), Owned(ring), Live(h'.blocks), Owned(ring'));
    WithoutUnique(h, Reaped(s), h');
  }

  lemma Reduces(y: System, ring: seq<Task>, k: nat, y': System, ring': seq<Task>) returns (k': nat)
    requires Inv(y) && Separate(ring) && k < |ring| && ring' == Keep(ring, Addr(ring[k]))
    requires y.sched == SchedOf(ring, Addr(ring[k])) && y'.sched == SchedOf(ring', Addr(ring[k]))
    requires y'.created == y.created && y'.heap.end == y.heap.end && Valid(y'.heap) && Held(ring', Live(y'.heap.blocks))
    requires Rest(y'.heap, ring') == Rest(y.heap, ring)
    ensures y' == Reduced(y)
    ensures k' < |ring'| && Addr(ring'[k']) == Addr(ring[k])
    ensures OnlyRuns(ring', k')
  {
    RingOf(ring, Addr(ring[k]));
    k' := Kept(ring, k, ring');
    ReducedHeap(y.heap, ring, Addr(ring[k]), y'.heap, ring');
  }

  lemma SameRest<T>(a: set<T>, x: set<T>, b: set<T>, y: set<T>)
    requires y <= x <= a && y <= b && b - y == a - x
    ensures b == a - (x - y)
  {
    assert b == (b - y) + y && a == (a - x) + x;
  }

  lemma SwitchSlots(slots: map<nat, nat>, ring: seq<Task>, k: nat, slot: nat, rsp: nat)
    requires Separate(ring) && Slots(slots, ring) && k < |ring| && |ring| > 1 && slot == Addr(ring[k]) + 8
    ensures Slots(slots[slot := rsp], SwitchAt(ring, k, rsp))
    ensures var t := ring[Succ(k, |ring|)]; Addr(t) + 8 in slots && slots[Addr(t) + 8] == t.rsp
  {
    var ring' := SwitchAt(ring, k, rsp);
    assert ring[Succ(k, |ring|)] in ring;
    forall t | t in ring'
      ensures Addr(t) + 8 in slots && (if Addr(t) + 8 == slot then rsp else slots[Addr(t) + 8]) == t.rsp
    {
      var i :| 0 <= i < |ring'| && ring'[i] == t;
      assert ring[i] in ring && Addr(t) == Addr(ring[i]) && (i != k ==> Addr(ring[i]) != Addr(ring[k]));
    }
  }

  /** Where the reaping walk stands: the indices of the current task and of the task looked at, and what is to stay. */
  datatype Walk = Walk(k: nat, p: nat, current: nat, kept: seq<Task>)

  /**
   What the walk keeps: the current task, the tasks that stay, the blocks of other users, and the headers it began
   with.
   */
  datatype Goal = Goal(current: nat, kept: seq<Task>, others: set<Block>, headers: map<nat, Header>)

  predicate WalkAt(ring: seq<Task>, w: Walk, t: nat) {
    match w
    case Walk(k, p, current, kept) =>
      && k < |ring| && p < |ring| && Addr(ring[p]) == t && Addr(ring[k]) == current
      && Clean(ring, k, p) && Keep(ring, current) == kept
  }

  lemma WalkBegins(tcbs: map<nat, Tcb>, ring: seq<Task>, list: nat, k: nat) returns (w: Walk)
    requires Linked(tcbs, ring, list) && k < |ring|
    ensures var c := Addr(ring[k]);
            c in tcbs && WalkAt(ring, w, tcbs[c].next) && w.current == c && w.kept == Keep(ring, c)
  {
    assert LinkAt(tcbs, ring, k);
    WalkStart(ring, k);
    w := Walk(k, Succ(k, |ring|), Addr(ring[k]), Keep(ring, Addr(ring[k])));
  }

  lemma WalkEnds(ring: seq<Task>, w: Walk, current: nat)
    requires Separate(ring) && WalkAt(ring, w, current) && w.current == current
    ensures ring == w.kept
  {
    WalkDone(ring, w.k);
  }

  lemma BuriedRest(slots: map<nat, nat>, ring: seq<Task>, p: nat, h: Heap) returns (rest: seq<Task>)
    requires Valid(h) && Held(ring, Live(h.blocks)) && Ascending(ring) && Slots(slots, ring) && p < |ring|
    ensures rest == RemoveAt(ring, p)
    ensures Blocks(ring[p]) <= Live(h.blocks) && Rest(Without(h, Blocks(ring[p])), rest) == Rest(h, ring)
  {
    var gone;
    gone, rest := RemoveTask(slots, ring, p, Live(h.blocks));
    assert Blocks(gone) <= Owned(ring) by { assert gone in ring; }
  }

  /** What the removal of a dead task means for the walk and for the heap. */
  lemma Buried(slots: map<nat, nat>, ring: seq<Task>, w: Walk, h: Heap) returns (rest: seq<Task>, w': Walk)
    requires Valid(h) && Held(ring, Live(h.blocks)) && Ascending(ring) && Separate(ring) && Slots(slots, ring)
    requires w.p < |ring| && WalkAt(ring, w, Addr(ring[w.p])) && w.p != w.k && ring[w.p].status == Dead
    ensures rest == RemoveAt(ring, w.p) && WalkAt(rest, w', Addr(ring[Succ(w.p, |ring|)]))
    ensures w'.current == w.current && w'.kept == w.kept && Ahead(|rest|, w'.k, w'.p) < Ahead(|ring|, w.k, w.p)
    ensures Blocks(ring[w.p]) <= Live(h.blocks) && Rest(Without(h, Blocks(ring[w.p])), rest) == Rest(h, ring)
  {
    WalkRemoved(ring, w.k, w.p);
    KeepWithout(ring, w.p, w.current);
    rest := BuriedRest(slots, ring, w.p, h);
    w' := w.(k := if w.p < w.k then w.k - 1 else w.k, p := NowAt(|rest|, w.p));
  }

  /** Without one task, the others still hold their blocks. */
  lemma RemoveTask(slots: map<nat, nat>, ring: seq<Task>, p: nat, live: set<Block>)
    returns (gone: Task, rest: seq<Task>)
    requires Held(ring, live) && Ascending(ring) && Slots(slots, ring) && p < |ring|
    ensures gone == ring[p] && rest == RemoveAt(ring, p)
    ensures Blocks(gone) <= live && RightStack(gone)
    ensures Held(rest, live - Blocks(gone)) && Ascending(rest) && Slots(slots, rest)
    ensures Owned(rest) == Owned(ring) - Blocks(gone)
  {
    gone, rest := ring[p], RemoveAt(ring, p);
    RemoveMembers(ring, p);
    assert gone in ring;
    OthersOwn(ring, gone, rest, live);
  }

  lemma RemoveMembers(ring: seq<Task>, p: nat)
    requires Ascending(ring) && p < |ring|
    ensures Ascending(RemoveAt(ring, p))
    ensures forall t :: t in RemoveAt(ring, p) <==> t in ring && t != ring[p]
    ensures forall t | t in ring && t != ring[p] :: t.serial != ring[p].serial
  {
    var r := RemoveAt(ring, p);
    forall t | t in ring && t != ring[p]
      ensures t in r && t.serial != ring[p].serial
    {
      var i :| 0 <= i < |ring| && ring[i] == t;
      assert t == r[if i < p then i else i - 1];
    }
  }

  lemma OthersOwn(ts: seq<Task>, gone: Task, rest: seq<Task>, live: set<Block>)
    requires Held(ts, live) && gone in ts
    requires forall t :: t in rest <==> t in ts && t != gone
    requires forall t | t in ts && t != gone :: t.serial != gone.serial
    ensures Held(rest, live - Blocks(gone)) && Owned(rest) == Owned(ts) - Blocks(gone)
  {
    forall b | b in Owned(ts) - Blocks(gone)
      ensures b in Owned(rest)
    {
      var t :| t in ts && b in Blocks(t);
      assert t in rest;
    }
  }
}
