/** System calls that replace the running program (kernel/src/syscall.c). */
module Syscalls {
  import opened Bits
  import opened Folding
  import opened PageTables
  import opened Mapping
  import opened Vmm
  import opened Loading
  import opened Elf
  import opened ProgramImage
  import opened Loader
  import opened ExecCycle
  import opened SyscallTrace
  import opened Files

  const SYS_EXEC := 3
  const SYS_EXIT := 4
  const FAILED: Word := WORD - 1
  const USER_CODE: Word := 0x23
  const USER_DATA: Word := 0x1B

  /** The bytes user memory holds from an address on. */
  type UserMemory = nat -> Byte

  /** The name an exec asks for: the copied bytes up to the first NUL. None when the arguments are rejected. */
  function ExecName(frame: Frame, user: UserMemory): Option<seq<Byte>> {
    if frame.rdi == 0 || frame.rsi == 0 || frame.rsi > 127 then None
    else Some(CString(Rounds((i: nat) => user(frame.rdi + i), frame.rsi)))
  }

  /** The file an exec asks for, if its arguments are good and there is one. */
  function ExecFile(files: seq<File>, frame: Frame, user: UserMemory): Option<File> {
    match ExecName(frame, user)
    case None => None
    case Some(name) => Lookup(files, name)
  }

  /** The name is in user memory at this address. */
  predicate NameAt(user: UserMemory, a: nat, name: seq<Byte>) {
    forall i | 0 <= i < |name| :: user(a + i) == name[i]
  }

  /**
   An exec looks for the name the caller points to if that has 1 to 127 characters, and for nothing if it has none or
   more, or if the pointer is null.
   */
  lemma ExecFinds(files: seq<File>, frame: Frame, user: UserMemory, name: seq<Byte>)
    requires frame.rsi == |name| && NameAt(user, frame.rdi, name) && 0 !in name
    ensures ExecFile(files, frame, user) ==
            if frame.rdi != 0 && 1 <= |name| <= 127 then Lookup(files, name) else None
  {
    var at := (i: nat) => user(frame.rdi + i);
    assert Rounds(at, frame.rsi) == name;
    CStringIs(name, name);
  }

  /**
   Where a program will start: 0 unless it is loadable, names an entry, and there are frames for all its pages and
   tables.
   */
  ghost function ProgramEntry(s: Space, img: Image, size: Word): Word {
    if Loadable(img, size) && Need(s, ExecLoads(img)) <= |s.free| then Entry(img) else 0
  }

  /** What an attempt to load a program leaves: nothing, the image without a stack, or both, as far as the frames go. */
  ghost function AfterLoad(s: Space, img: Image, size: Word): (s': Space)
    requires Sound(s)
    ensures Sound(s')
  {
    if !Loadable(img, size) then s
    else if Entry(img) == 0 then PlaceAll(s, ElfLoads(img))
    else PlaceAll(s, ExecLoads(img))
  }

  /** Where the child will start, or 0. */
  ghost function ChildEntry(f: Option<File>, s: Space): Word {
    if f.Some? then ProgramEntry(s, f.value.data.image, f.value.data.size) else 0
  }

  /** The address space after an exec of this file, successful or not. */
  ghost function AfterExec(f: Option<File>, s: Space): (s': Space)
    requires Sound(s)
    ensures Sound(s')
  {
    if f.Some? then AfterLoad(s, f.value.data.image, f.value.data.size) else s
  }

  /** What an exec amounts to that finds this entry point. */
  function ExecEvent(frame: Frame, entry: Word): Event {
    if entry != 0 then ExecOk(frame) else Plain
  }

  /** A successful exec loads all pages and the stack, and starts the file at its entry point. */
  lemma ExecStarts(f: File, s: Space)
    requires Sound(s) && ChildEntry(Some(f), s) != 0
    ensures ChildEntry(Some(f), s) == Entry(f.data.image)
    ensures AfterExec(Some(f), s) == PlaceAll(s, ExecLoads(f.data.image))
    ensures Need(s, ExecLoads(f.data.image)) <= |s.free|
  {
  }

  /** What an exec leaves is the old space, the one with the image, or the one with the image and its stack. */
  lemma ExecOutcomes(f: File, s: Space, s': Space)
    requires Sound(s) && s' == AfterExec(Some(f), s)
    ensures s' == s || s' == PlaceAll(s, ElfLoads(f.data.image)) || s' == PlaceAll(s, ExecLoads(f.data.image))
  {
  }

  /**
   Successful or not, an exec leaves user mode everything that is on no page of the file it named or the child's
   stack.
   */
  lemma ExecLeavesRest(f: File, s: Space, s': Space, addr: Word)
    requires Sound(s) && Owned(s) && Clear(f.data.image, PathOf(addr / 4096)) && s' == AfterExec(Some(f), s)
    ensures UserByte(s', addr) == UserByte(s, addr)
  {
    ExecOutcomes(f, s, s');
    ExecKeepsBytes(s, f.data.image, addr);
  }

  /**
   What an exec costs when there are frames for all of it: nothing if the file is rejected, the image if its entry point
   is 0, and otherwise the image and two stack pages, besides the missing tables.
   */
  lemma ExecCost(f: File, s: Space)
    requires Sound(s) && Need(s, ExecLoads(f.data.image)) <= |s.free|
    ensures var s', pages := AfterExec(Some(f), s), |ElfLoads(f.data.image)|;
            |s'.free| + |s'.tree.Keys| + (if !Loadable(f.data.image, f.data.size) then 0
                                          else if Entry(f.data.image) == 0 then pages else pages + 2) ==
            |s.free| + |s.tree.Keys|
  {
    ElfNeeds(s, f.data.image);
    LoadConserves(s, ElfLoads(f.data.image));
    LoadConserves(s, ExecLoads(f.data.image));
  }

  /** The address space after an exit to the shell. */
  ghost function AfterExit(shell: Option<(Image, Word)>, s: Space): Space
    requires Sound(s)
  {
    if shell.Some? && Loadable(shell.value.0, shell.value.1) then PlaceAll(s, ElfLoads(shell.value.0)) else s
  }

  // ---- The frame that starts the child ----

  function ChildFrame(frame: Frame, entry: Word): Frame {
    frame.(rip := entry, rsp := CHILD_STACK_VADDR + CHILD_STACK_PAGES * 4096,
           cs := USER_CODE, ss := USER_DATA, rflags := 0x202)
  }

  /** The frame an exec goes on with: the child's, or the caller's with an error. */
  function ExecFrame(frame: Frame, entry: Word): Frame {
    if entry != 0 then ChildFrame(frame, entry) else frame.(rax := FAILED)
  }

  /** User mode may write all 8 KiB below the stack pointer. */
  ghost predicate StackReady(s: Space, rsp: nat) {
    rsp >= 8192 && forall addr: Word | rsp - 8192 <= addr < rsp :: WritableAt(s, addr)
  }

  ghost predicate WritableAt(s: Space, addr: Word) {
    var t := Translate(s, PathOf(addr / 4096));
    t.Mapped? && t.user && t.writable
  }

  /**
   The frame goes on at the entry point, at privilege level 3 with interrupts on, on the stack at 0x900000, and with the
   caller's other registers.
   */
  predicate Entering(frame: Frame, entry: Word, frame': Frame) {
    && frame'.rip == entry && frame'.rsp == 0x902000
    && frame'.cs % 4 == 3 && frame'.ss % 4 == 3 && frame'.rflags / 0x200 % 2 == 1
    && frame' == frame.(rip := frame'.rip, rsp := frame'.rsp, cs := 0x23, ss := 0x1B, rflags := 0x202)
  }

  /** The child starts: at the file's entry point, with its stack. */
  ghost predicate Started(frame: Frame, img: Image, frame': Frame, s': Space) {
    Entering(frame, Entry(img), frame') && StackReady(s', frame'.rsp)
  }

  /** What an exec returns to: the child, or the caller with -1. */
  ghost predicate ExecReturns(f: Option<File>, s: Space, frame: Frame, frame': Frame, s': Space) {
    if ChildEntry(f, s) != 0 then Started(frame, f.value.data.image, frame', s')
    else frame' == frame.(rax := 0xFFFF_FFFF_FFFF_FFFF)
  }

  lemma StackPage(addr: Word) returns (l: PageLoad)
    requires 0x900000 <= addr < 0x902000
    ensures (l == StackLoad(0) || l == StackLoad(1)) && l.path == PathOf(addr / 4096)
  {
    var i := addr / 4096 - 0x900;
    assert i == 0 || i == 1;
    l := StackLoad(i);
  }

  lemma OpenWritable(s: Space, path: Path, addr: Word)
    requires Sound(s) && path == PathOf(addr / 4096) && Open(PageMap(s)[path]) && PageTables.Writable(PageMap(s)[path])
    ensures WritableAt(s, addr)
  {
    TranslateIsLeaf(s, path);
  }

  lemma ChildStack(s: Space, img: Image)
    requires Sound(s) && Need(s, ExecLoads(img)) <= |s.free|
    ensures StackReady(PlaceAll(s, ExecLoads(img)), 0x902000)
  {
    forall addr: Word | 0x900000 <= addr < 0x902000
      ensures WritableAt(PlaceAll(s, ExecLoads(img)), addr)
    {
      var l := StackPage(addr);
      ChildStackOpen(s, img, l);
      OpenWritable(PlaceAll(s, ExecLoads(img)), l.path, addr);
    }
  }

  lemma ChildEnters(frame: Frame, entry: Word, frame': Frame)
    requires frame' == ChildFrame(frame, entry)
    ensures Entering(frame, entry, frame') && frame'.rsp == 0x902000
  {
  }

  lemma ChildStarts(f: File, s: Space, frame: Frame, frame': Frame)
    requires Sound(s) && ChildEntry(Some(f), s) != 0 && Entering(frame, ChildEntry(Some(f), s), frame')
    ensures Started(frame, f.data.image, frame', AfterExec(Some(f), s))
  {
    ExecStarts(f, s);
    ChildStack(s, f.data.image);
  }

  lemma ExecEnters(f: Option<File>, s: Space, frame: Frame, frame': Frame)
    requires Sound(s) && frame' == ExecFrame(frame, ChildEntry(f, s))
    ensures ExecReturns(f, s, frame, frame', AfterExec(f, s))
  {
    if ChildEntry(f, s) != 0 {
      ChildEnters(frame, ChildEntry(f, s), frame');
      ChildStarts(f.value, s, frame, frame');
    }
  }

  class Kernel {
    const vm: AddressSpace
    var files: seq<File>
    var slot: Slot
    /** The shell's image and size, once syscall_set_shell_elf has been called. */
    var shell: Option<(Image, Word)>

    constructor (vm: AddressSpace)
      ensures this.vm == vm && !slot.childRunning && !slot.halted && files == [] && shell == None
    {
      this.vm := vm;
      files := [];
      shell := None;
      slot := Slot(Frame(0, 0, 0, 0, 0, 0, 0, 0, 0, 0, 0, 0, 0, 0, 0, 0, 0, 0, 0, 0, 0, 0), false, false);
    }

    /** The child's stack: two fresh pages. False when a frame is missing. */
    method MapChildStack() returns (ok: bool)
      requires vm.Valid()
      modifies vm`mem, vm`tree, vm.frames`usedFrames, vm.frames.bitmap
      ensures vm.Valid()
      ensures vm.State() == PlaceAll(old(vm.State()), Rounds(StackLoader(), CHILD_STACK_PAGES))
      ensures ok <==>
              forall i: nat | i < CHILD_STACK_PAGES :: PlaceAll(old(vm.State()), Rounds(StackLoader(), i)).free != {}
    {
      ghost var s, load := vm.State(), StackLoader();
      for i := 0 to CHILD_STACK_PAGES
        invariant vm.Valid() && vm.State() == PlaceAll(s, Rounds(load, i))
        invariant forall k: nat | k < i :: PlaceAll(s, Rounds(load, k)).free != {}
      {
        PlaceRound(s, load, i);
        ok := MapStackPage(i);
        if !ok {
          PlaceStuckEarly(s, load, i, CHILD_STACK_PAGES);
          return;
        }
      }
      ok := true;
    }

    method MapStackPage(i: nat) returns (found: bool)
      requires vm.Valid() && i < CHILD_STACK_PAGES
      modifies vm`mem, vm`tree, vm.frames`usedFrames, vm.frames.bitmap
      ensures vm.Valid()
      ensures vm.State() == Place(old(vm.State()), StackLoader()(i))
      ensures found <==> old(vm.State()).free != {}
    {
      found := PlacePage(vm, CHILD_STACK_VADDR + i * 4096, None, PRESENT + WRITE + USER, StackLoader()(i));
    }

    /** Loads a program and its stack. Returns its entry point, or 0 when it is rejected or frames run out. */
    method LoadProgram(img: Image, size: Word) returns (entry: Word)
      requires vm.Valid()
      modifies vm`mem, vm`tree, vm.frames`usedFrames, vm.frames.bitmap
      ensures vm.Valid()
      ensures entry == ProgramEntry(old(vm.State()), img, size) && vm.State() == AfterLoad(old(vm.State()), img, size)
    {
      ExecOutcome(vm.State(), img);
      entry := ElfLoad(vm, img, size);
      if entry == 0 { return; }
      var ok := MapChildStack();
      if !ok { entry := 0; }
    }

    /** The first half of handle_exec: find the file and load it. Returns the child's entry point, or 0. */
    method Start(frame: Frame, user: UserMemory) returns (entry: Word)
      requires vm.Valid()
      modifies vm`mem, vm`tree, vm.frames`usedFrames, vm.frames.bitmap
      ensures vm.Valid()
      ensures entry == ChildEntry(ExecFile(files, frame, user), old(vm.State()))
      ensures vm.State() == AfterExec(ExecFile(files, frame, user), old(vm.State()))
      ensures unchanged(this)
    {
      var f := LookUp(frame, user);
      if f.None? { return 0; }
      entry := LoadProgram(f.value.data.image, f.value.data.size);
    }

    /** The second half of handle_exec: the caller's frame is saved if there is a child to start. */
    method Enter(frame: Frame, entry: Word) returns (frame': Frame, ghost ev: Event)
      modifies this`slot
      ensures ev == ExecEvent(frame, entry)
      ensures frame' == ExecFrame(frame, entry)
      ensures (!old(slot).halted ==> slot == Next(old(slot), ev)) && shell == old(shell)
      ensures vm.Valid() == old(vm.Valid()) && (vm.frames.Valid() ==> vm.State() == old(vm.State()))
    {
      ev := ExecEvent(frame, entry);
      if entry == 0 {
        frame' := frame.(rax := FAILED);
      } else {
        slot := slot.(saved := frame, childRunning := true);
        frame' := ChildFrame(frame, entry);
      }
    }

    /** Both halves. */
    method Execute(frame: Frame, user: UserMemory) returns (frame': Frame, ghost ev: Event)
      requires vm.Valid()
      modifies this`slot, vm`mem, vm`tree, vm.frames`usedFrames, vm.frames.bitmap
      ensures vm.Valid() && vm.State() == AfterExec(ExecFile(files, frame, user), old(vm.State()))
      ensures ev == ExecEvent(frame, ChildEntry(ExecFile(files, frame, user), old(vm.State())))
      ensures frame' == ExecFrame(frame, ChildEntry(ExecFile(files, frame, user), old(vm.State())))
      ensures (!old(slot).halted ==> slot == Next(old(slot), ev)) && shell == old(shell)
    {
      var entry := Start(frame, user);
      frame', ev := Enter(frame, entry);
    }

    /**
     sys_exec: on success the caller's frame is saved and the returned frame starts the child; else only rax changes.
     */
    method HandleExec(frame: Frame, user: UserMemory) returns (frame': Frame, ghost ev: Event)
      requires vm.Valid()
      modifies this`slot, vm`mem, vm`tree, vm.frames`usedFrames, vm.frames.bitmap
      ensures vm.Valid() && vm.State() == AfterExec(ExecFile(files, frame, user), old(vm.State()))
      ensures ev == ExecEvent(frame, ChildEntry(ExecFile(files, frame, user), old(vm.State())))
      ensures ExecReturns(ExecFile(files, frame, user), old(vm.State()), frame, frame', vm.State())
      ensures (!old(slot).halted ==> slot == Next(old(slot), ev)) && shell == old(shell)
    {
      ghost var s, f := vm.State(), ExecFile(files, frame, user);
      frame', ev := Execute(frame, user);
      ExecEnters(f, s, frame, frame');
    }

    method LookUp(frame: Frame, user: UserMemory) returns (f: Option<File>)
      ensures f == ExecFile(files, frame, user)
    {
      var name := CopyName(frame, user);
      if name.None? { return None; }
      f := Lookup(files, name.value);
    }

    /** Copies the file name out of user memory, or rejects the arguments. */
    method CopyName(frame: Frame, user: UserMemory) returns (name: Option<seq<Byte>>)
      ensures name == ExecName(frame, user)
    {
      if frame.rdi == 0 || frame.rsi == 0 || frame.rsi > 127 { return None; }
      ghost var at := (i: nat) => user(frame.rdi + i);
      var buf: seq<Byte> := [];
      for i := 0 to frame.rsi
        invariant buf == Rounds(at, i)
      {
        buf := buf + [user(frame.rdi + i)];
      }
      name := Some(CString(buf));
    }

    /** sys_exit: halts if no child runs; otherwise reloads the shell and returns to the saved frame with rax = 0. */
    method HandleExit(frame: Frame) returns (frame': Frame)
      requires vm.Valid()
      modifies this`slot, vm`mem, vm`tree, vm.frames`usedFrames, vm.frames.bitmap
      ensures vm.Valid()
      ensures !old(slot).halted ==> slot == Next(old(slot), Exit)
      ensures !old(slot).childRunning ==> slot.halted && frame' == frame && vm.State() == old(vm.State())
      ensures old(slot).childRunning ==>
                frame' == old(slot).saved.(rax := 0) && vm.State() == AfterExit(shell, old(vm.State()))
    {
      if !slot.childRunning {
        slot := slot.(halted := true);
        return frame;
      }
      slot := slot.(childRunning := false);
      if shell.Some? {
        var _ := ElfLoad(vm, shell.value.0, shell.value.1);
      }
      frame' := slot.saved.(rax := 0);
    }

    /** syscall_dispatch. `io` is what the handler of an input or output call returns. */
    method Dispatch(frame: Frame, user: UserMemory, io: Word) returns (frame': Frame, ghost ev: Event)
      requires vm.Valid() && !slot.halted
      modifies this`slot, vm`mem, vm`tree, vm.frames`usedFrames, vm.frames.bitmap
      ensures vm.Valid()
      ensures ev == if frame.rax == SYS_EXEC
                    then ExecEvent(frame, ChildEntry(ExecFile(files, frame, user), old(vm.State())))
                    else if frame.rax == SYS_EXIT then Exit else Plain
      ensures slot == Next(old(slot), ev)
      ensures frame.rax == SYS_EXEC ==>
                && vm.State() == AfterExec(ExecFile(files, frame, user), old(vm.State()))
                && ExecReturns(ExecFile(files, frame, user), old(vm.State()), frame, frame', vm.State())
      ensures frame.rax == SYS_EXIT ==>
                if old(slot).childRunning
                then frame' == old(slot).saved.(rax := 0) && vm.State() == AfterExit(shell, old(vm.State()))
                else frame' == frame && vm.State() == old(vm.State())
      ensures frame.rax != SYS_EXEC && frame.rax != SYS_EXIT ==>
                && vm.State() == old(vm.State())
                && frame' == frame.(rax := if frame.rax < 3 then io else 0xFFFF_FFFF_FFFF_FFFF)
    {
      if frame.rax == SYS_EXEC {
        frame', ev := HandleExec(frame, user);
      } else if frame.rax == SYS_EXIT {
        ev := Exit;
        frame' := HandleExit(frame);
      } else if frame.rax >= 16 || frame.rax >= 3 {
        ev, frame' := Plain, frame.(rax := FAILED);
      } else {
        ev, frame' := Plain, frame.(rax := io);
      }
    }

    /** The child's run: memory becomes what it leaves. */
    method RunChild(written: Memory, ghost ran: Space)
      requires vm.Valid() && Sound(ran) && Rewritten(vm.State(), written, ran)
      modifies vm`mem
      ensures vm.Valid() && vm.State() == ran && slot == old(slot) && shell == old(shell)
    {
      vm.mem := written;
    }

    /** An exec with this event, and then the child's run, which leaves `ran`. */
    method ExecAndRun(frame: Frame, user: UserMemory, written: Memory, ghost ev: Event, ghost ran: Space)
      requires vm.Valid() && !slot.halted && Sound(ran)
      requires ExecEvent(frame, ChildEntry(ExecFile(files, frame, user), vm.State())) == ev
      requires Rewritten(AfterExec(ExecFile(files, frame, user), vm.State()), written, ran)
      modifies this`slot, vm`mem, vm`tree, vm.frames`usedFrames, vm.frames.bitmap
      ensures vm.Valid() && vm.State() == ran && slot == Next(old(slot), ev) && shell == old(shell)
    {
      var _, _ := Execute(frame, user);
      RunChild(written, ran);
    }

    /** The exit of a child whose caller's frame is saved. */
    method Leave(exit: Frame, ghost frame: Frame, ghost ran: Space, ghost img: Image, ghost size: Word)
      returns (back: Frame)
      requires vm.Valid() && vm.State() == ran && slot == Slot(frame, true, false) && shell == Some((img, size))
      requires Loadable(img, size)
      modifies this`slot, vm`mem, vm`tree, vm.frames`usedFrames, vm.frames.bitmap
      ensures vm.Valid() && vm.State() == PlaceAll(ran, ElfLoads(img)) && slot == Slot(frame, false, false)
      ensures back == frame.(rax := 0)
    {
      back := HandleExit(exit);
    }

    /**
     A whole cycle: an exec that succeeds, the child's run, which leaves `ran`, and its exit. The caller goes on with
     its registers, as if exec had returned 0. User mode reads the shell's image again wherever the shell has segments,
     and elsewhere what it read before, except on pages that were exposed to the child.
     */
    method ExecThenExit(frame: Frame, user: UserMemory, written: Memory, exit: Frame, ghost child: File,
                        ghost ran: Space,
                        ghost img: Image, ghost size: Word) returns (back: Frame)
      requires vm.Valid() && Owned(vm.State()) && !slot.halted
      requires ExecFile(files, frame, user) == Some(child) && Ran(Some(child), vm.State(), ran) && ran.mem == written
      requires shell == Some((img, size)) && Loadable(img, size) && Need(ran, ElfLoads(img)) <= |ran.free|
      modifies this`slot, vm`mem, vm`tree, vm.frames`usedFrames, vm.frames.bitmap
      ensures vm.Valid() && Owned(vm.State()) && slot == Slot(frame, false, false) && back == frame.(rax := 0)
      ensures Cycle(old(vm.State()), child.data.image, ran, img, vm.State())
      ensures Shown(vm.State(), img) && Spared(old(vm.State()), child.data.image, img, vm.State())
    {
      ghost var s := vm.State();
      RanFrom(Some(child), s, frame, ran, written);
      ghost var s' := CycleEnds(s, child, ran, img);
      ExecAndRun(frame, user, written, ExecOk(frame), ran);
      back := Leave(exit, frame, ran, img, size);
    }
  }

  /** The file was loaded and started, and its run left this. */
  ghost predicate Ran(f: Option<File>, s: Space, ran: Space) {
    f.Some? && Sound(s) && ChildEntry(f, s) != 0 && UserRan(AfterExec(f, s), ran)
  }

  /** The space with other contents of memory. */
  ghost predicate Rewritten(s: Space, written: Memory, ran: Space) {
    SameRoot(s, ran) && ran == s.(mem := written)
  }

  lemma RanFrom(f: Option<File>, s: Space, frame: Frame, ran: Space, written: Memory)
    requires Owned(s) && Ran(f, s, ran) && ran.mem == written
    ensures Sound(ran) && Rewritten(AfterExec(f, s), written, ran)
    ensures ExecEvent(frame, ChildEntry(f, s)) == ExecOk(frame)
  {
    ExecStarts(f.value, s);
    ChildSafe(s, f.value.data.image, ran);
  }

  /** What a cycle comes to. */
  lemma CycleEnds(s: Space, child: File, ran: Space, img: Image) returns (s': Space)
    requires Owned(s) && Ran(Some(child), s, ran) && Need(ran, ElfLoads(img)) <= |ran.free|
    ensures Sound(ran) && s' == PlaceAll(ran, ElfLoads(img)) && Cycle(s, child.data.image, ran, img, s')
    ensures Owned(s') && Shown(s', img) && Spared(s, child.data.image, img, s')
  {
    ExecStarts(child, s);
    ChildSafe(s, child.data.image, ran);
    s' := PlaceAll(ran, ElfLoads(img));
    ShellRestored(s, child.data.image, ran, img, s');
  }

  /** User mode reads the image: at each address of a loaded page the byte of the last segment that covers the page. */
  ghost predicate Shown(s: Space, img: Image) {
    forall k: nat, addr: Word | LastCovers(img, k, addr) ::
      UserByte(s, addr) == Some(ByteAt(img, Segments(img, PhNum(img))[k], addr))
  }

  /** User mode reads at every sheltered address what it read before. */
  ghost predicate Spared(s: Space, child: Image, shell: Image, s': Space) {
    forall addr: Word | Sheltered(s, child, shell, addr) :: UserByte(s', addr) == UserByte(s, addr)
  }

  lemma ShellRestored(s: Space, child: Image, ran: Space, shell: Image, s': Space)
    requires Cycle(s, child, ran, shell, s')
    ensures Owned(s') && Shown(s', shell) && Spared(s, child, shell, s')
  {
    CycleOwned(s, child, ran, shell, s');
    forall k: nat, addr: Word | LastCovers(shell, k, addr)
      ensures UserByte(s', addr) == Some(ByteAt(shell, Segments(shell, PhNum(shell))[k], addr))
    {
      CycleRestoresShell(s, child, ran, shell, s', k, addr);
    }
    forall addr: Word | Sheltered(s, child, shell, addr)
      ensures UserByte(s', addr) == UserByte(s, addr)
    {
      CycleShelters(s, child, ran, shell, s', addr);
    }
  }
}
