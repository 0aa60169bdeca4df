/**
 The context switch (kernel/src/switch.S) on a register file and memory, and what it means for
 tasks that each keep to their own stack.
 */
module ContextSwitch {
  import opened Bits

  /** Memory in aligned 8-byte words, by address. */
  type Memory = nat -> Word

  /** The registers that survive a call, with the stack pointer and the instruction pointer. */
  datatype Context = Context(rbx: Word, rbp: Word, r12: Word, r13: Word, r14: Word, r15: Word, rsp: nat, rip: Word)

  /** What a task resumes with whose saved stack pointer is `rsp`. */
  function FrameAt(mem: Memory, rsp: nat): Context {
    Context(mem(rsp + 40), mem(rsp + 32), mem(rsp + 24), mem(rsp + 16), mem(rsp + 8), mem(rsp), rsp + 56, mem(rsp + 48))
  }

  /**
   What a task that is about to execute switch_to returns to: its caller, with the return address taken off the
   stack.
   */
  function Caller(mem: Memory, regs: Context): Context {
    regs.(rsp := regs.rsp + 8, rip := mem(regs.rsp))
  }

  /** Two memories agree outside [lo, hi). */
  ghost predicate SameOutside(a: Memory, b: Memory, lo: nat, hi: nat) {
    forall x: nat | x < lo || x >= hi :: a(x) == b(x)
  }

  /** The processor has gone from one context to the other, and the first is on its stack. */
  ghost predicate Switched(regs: Context, mem: Memory, regs': Context, mem': Memory, newRsp: nat) {
    && regs.rsp >= 48
    && FrameAt(mem', regs.rsp - 48) == Caller(mem, regs)
    && SameOutside(mem', mem, regs.rsp - 48, regs.rsp)
    && regs' == FrameAt(mem', newRsp)
  }

  class Cpu {
    var rbx: Word
    var rbp: Word
    var r12: Word
    var r13: Word
    var r14: Word
    var r15: Word
    var rsp: nat
    var rip: Word
    var mem: Memory
    /** The `rsp` field of each control block, by the address of the field. */
    var slots: map<nat, nat>

    function Regs(): Context
      reads this
    {
      Context(rbx, rbp, r12, r13, r14, r15, rsp, rip)
    }

    method Store(a: nat, v: Word)
      modifies this`mem
      ensures mem(a) == v && forall x: nat | x != a :: mem(x) == old(mem)(x)
    {
      var m := mem;
      mem := x => if x == a then v else m(x);
    }

    method Push(v: Word)
      requires rsp >= 8
      modifies this`rsp, this`mem
      ensures rsp == old(rsp) - 8 && mem(rsp) == v
      ensures forall x: nat | x != rsp :: mem(x) == old(mem)(x)
    {
      rsp := rsp - 8;
      Store(rsp, v);
    }

    method Pop() returns (v: Word)
      modifies this`rsp
      ensures rsp == old(rsp) + 8 && v == mem(old(rsp))
    {
      v := mem(rsp);
      rsp := rsp + 8;
    }

    /**
     switch_to: the caller's context is in memory below its stack pointer, the saved stack pointer leads to it,
     and the processor continues with the context found at the new stack pointer.
     */
    method SwitchTo(oldRsp: nat, newRsp: nat)
      requires rsp >= 48
      modifies this
      ensures Switched(old(Regs()), old(mem), Regs(), mem, newRsp)
      ensures slots == old(slots)[oldRsp := old(rsp) - 48]
    {
      SaveRegisters();
      slots := slots[oldRsp := rsp];
      rsp := newRsp;
      RestoreRegisters();
    }

    /** The six pushes. */
    method SaveRegisters()
      requires rsp >= 48
      modifies this`rsp, this`mem
      ensures rsp == old(rsp) - 48
      ensures FrameAt(mem, rsp) == Caller(old(mem), old(Regs()))
      ensures SameOutside(mem, old(mem), rsp, old(rsp))
    {
      Push(rbx);
      Push(rbp);
      Push(r12);
      Push(r13);
      Push(r14);
      Push(r15);
    }

    /** The six pops, and the return. */
    method RestoreRegisters()
      modifies this`rbx, this`rbp, this`r12, this`r13, this`r14, this`r15, this`rsp, this`rip
      ensures Regs() == FrameAt(mem, old(rsp))
    {
      RestoreHigh();
      RestoreLow();
      rip := Pop();
    }

    method RestoreHigh()
      modifies this`r13, this`r14, this`r15, this`rsp
      ensures r15 == mem(old(rsp)) && r14 == mem(old(rsp) + 8) && r13 == mem(old(rsp) + 16) && rsp == old(rsp) + 24
    {
      r15 := Pop();
      r14 := Pop();
      r13 := Pop();
    }

    method RestoreLow()
      modifies this`rbx, this`rbp, this`r12, this`rsp
      ensures r12 == mem(old(rsp)) && rbp == mem(old(rsp) + 8) && rbx == mem(old(rsp) + 16) && rsp == old(rsp) + 24
    {
      r12 := Pop();
      rbp := Pop();
      rbx := Pop();
    }

    /** The first frame of a new task, written downwards from the top of its stack by task_create. */
    method FirstFrame(top: nat, trampoline: Word, entry: Word) returns (sp: nat)
      requires top >= 56
      modifies this`mem
      ensures sp == top - 56
      ensures FrameAt(mem, sp) == Fresh(top, trampoline, entry)
      ensures SameOutside(mem, old(mem), sp, top)
    {
      sp := top - 8;
      Store(sp, trampoline);
      sp := sp - 8;
      Store(sp, 0);
      sp := sp - 8;
      Store(sp, 0);
      sp := sp - 8;
      Store(sp, entry);
      sp := sp - 8;
      Store(sp, 0);
      sp := sp - 8;
      Store(sp, 0);
      sp := sp - 8;
      Store(sp, 0);
    }
  }

  /** A task's context before it first runs: in the trampoline, with the entry point in R12, on an empty stack. */
  function Fresh(top: nat, trampoline: Word, entry: Word): Context {
    Context(0, 0, entry, 0, 0, 0, top, trampoline)
  }
}
