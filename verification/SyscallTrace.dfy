/** The one-slot exec/exit state machine of kernel/src/syscall.c, over whole runs of system calls. */
module SyscallTrace {
  import opened Bits
  import opened Folding

  /** struct interrupt_frame. */
  datatype Frame = Frame(
    r15: Word, r14: Word, r13: Word, r12: Word, r11: Word, r10: Word, r9: Word, r8: Word,
    rbp: Word, rdi: Word, rsi: Word, rdx: Word, rcx: Word, rbx: Word, rax: Word,
    vector: Word, errorCode: Word, rip: Word, cs: Word, rflags: Word, rsp: Word, ss: Word)

  /** saved_frame, child_running, and whether the machine was halted by the shell's own exit. */
  datatype Slot = Slot(saved: Frame, childRunning: bool, halted: bool)

  /** What a system call means to the slot: a successful exec with the caller's frame, an exit, or anything else. */
  datatype Event = ExecOk(frame: Frame) | Exit | Plain

  function Next(st: Slot, ev: Event): Slot {
    if st.halted then st
    else
      match ev
      case ExecOk(frame) => st.(saved := frame, childRunning := true)
      case Exit => if st.childRunning then st.(childRunning := false) else st.(halted := true)
      case Plain => st
  }

  ghost function After(st: Slot, tr: seq<Event>): Slot {
    Fold((x: Slot, ev: Event) => Next(x, ev), st, tr)
  }

  lemma AfterLast(st: Slot, tr: seq<Event>)
    requires tr != []
    ensures After(st, tr) == Next(After(st, tr[..|tr| - 1]), tr[|tr| - 1])
  {
  }

  /** The exit at position `i` returns to a caller instead of halting the machine. */
  ghost predicate Returns(st: Slot, tr: seq<Event>, i: nat)
    requires i < |tr|
  {
    tr[i].Exit? && After(st, tr[..i]).childRunning && !After(st, tr[..i]).halted
  }

  /** Position `j` holds the last successful exec before `n`, and no exit has happened since. */
  ghost predicate OpenExec(tr: seq<Event>, j: nat, n: nat) {
    && j < n <= |tr| && tr[j].ExecOk?
    && forall k | j < k < n :: tr[k].Plain?
  }

  lemma {:induction false} RunningHasExec(st: Slot, tr: seq<Event>, n: nat) returns (j: nat)
    requires n <= |tr| && !st.childRunning
    requires After(st, tr[..n]).childRunning && !After(st, tr[..n]).halted
    ensures OpenExec(tr, j, n) && After(st, tr[..n]).saved == tr[j].frame
  {
    var before, ev := tr[..n - 1], tr[n - 1];
    assert tr[..n][..n - 1] == before;
    AfterLast(st, tr[..n]);
    match ev
    case ExecOk(_) => j := n - 1;
    case Exit =>
    case Plain => j := RunningHasExec(st, tr, n - 1);
  }

  /** Every exit that returns goes back to the frame of the latest successful exec, with no exit in between. */
  lemma ExitMatchesExec(st: Slot, tr: seq<Event>, i: nat) returns (j: nat)
    requires !st.childRunning && i < |tr| && Returns(st, tr, i)
    ensures OpenExec(tr, j, i) && After(st, tr[..i]).saved == tr[j].frame
  {
    j := RunningHasExec(st, tr, i);
  }

  /** Two exits that return go back to two different execs, in the same order. */
  lemma ExitsMatchedOnce(st: Slot, tr: seq<Event>, i: nat, i': nat) returns (j: nat, j': nat)
    requires !st.childRunning && i < i' < |tr| && Returns(st, tr, i) && Returns(st, tr, i')
    ensures OpenExec(tr, j, i) && OpenExec(tr, j', i') && j < i < j' < i'
    ensures After(st, tr[..i]).saved == tr[j].frame && After(st, tr[..i']).saved == tr[j'].frame
  {
    j := ExitMatchesExec(st, tr, i);
    j' := ExitMatchesExec(st, tr, i');
    assert tr[i].Exit?;
  }
}
