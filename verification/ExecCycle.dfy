/**
 One exec, the child's run, and the exit that reloads the shell (kernel/src/syscall.c), as
 steps on the address space: what they bring back, and what they cost.
 */
module ExecCycle {
  import opened Bits
  import opened Folding
  import opened Frames
  import opened PageTables
  import opened Mapping
  import opened Loading
  import opened Elf
  import opened ProgramImage

  const CHILD_STACK_VADDR := 0x900000
  const CHILD_STACK_PAGES := 2

  /** Page `i` of the child's stack: mapped writable for user mode, its frame left as it is. */
  function StackLoad(i: nat): PageLoad {
    PageLoad(PathOf(0x900 + i), None, PRESENT + WRITE + USER)
  }

  function StackLoader(): Loads {
    (i: nat) => StackLoad(i)
  }

  lemma StackRounds()
    ensures Rounds(StackLoader(), 0) == [] && Rounds(StackLoader(), 1) == [StackLoad(0)]
    ensures Rounds(StackLoader(), 2) == [StackLoad(0), StackLoad(1)]
  {
  }

  /** All pages handle_exec places for a child. */
  function ExecLoads(img: Image): seq<PageLoad> {
    ElfLoads(img) + [StackLoad(0), StackLoad(1)]
  }

  lemma StackPaths()
    ensures StackLoad(0).path == [0, 0, 4, 256] && StackLoad(1).path == [0, 0, 4, 257]
    ensures TablesOf(StackLoad(0).path) == TablesOf(StackLoad(1).path)
  {
    var a, b := StackLoad(0).path, StackLoad(1).path;
    assert forall d | 1 <= d <= 3 :: a[..d] == b[..d];
  }

  /** Two pages below the same page table cost one set of tables. */
  lemma SharedTables(s: Space, loads: seq<PageLoad>, a: PageLoad, b: PageLoad)
    requires TablesOf(a.path) == TablesOf(b.path)
    ensures Need(s, loads + [a] + [b]) == Need(s, loads + [a]) + 1
  {
    Snoc(loads + [a], [b]);
    Snoc(loads, [a]);
    assert LoadTables(loads + [a] + [b]) == LoadTables(loads + [a]);
  }

  /** Two such pages both find a frame to start with exactly when there are frames for everything. */
  lemma PairFound(s: Space, loads: seq<PageLoad>, a: PageLoad, b: PageLoad)
    requires Sound(s) && TablesOf(a.path) == TablesOf(b.path)
    ensures PlaceAll(s, loads).free != {} && PlaceAll(s, loads + [a]).free != {} <==>
            Need(s, loads + [a] + [b]) <= |s.free|
  {
    SharedTables(s, loads, a, b);
    LeftAfter(s, loads + [a]);
    FewerLeft(s, loads, a);
  }

  /** Something is left exactly when more than the need was there. */
  lemma LeftAfter(s: Space, loads: seq<PageLoad>)
    requires Sound(s)
    ensures PlaceAll(s, loads).free != {} <==> Need(s, loads) + 1 <= |s.free|
  {
    if Need(s, loads) <= |s.free| { PlaceAllSucceeds(s, loads); } else { PlaceAllFails(s, loads); }
  }

  lemma FewerLeft(s: Space, loads: seq<PageLoad>, a: PageLoad)
    requires Sound(s)
    ensures PlaceAll(s, loads + [a]).free <= PlaceAll(s, loads).free
  {
    PlaceAllAppends(s, loads, [a]);
    PlaceAllKeeps(PlaceAll(s, loads), [a]);
  }

  /**
   handle_exec notices a missing frame only when it asks for one itself. That is enough: it gets
   both stack frames exactly when there were frames for every page and table of the child.
   */
  lemma ExecSucceedsIff(s: Space, img: Image)
    requires Sound(s)
    ensures PlaceAll(s, ElfLoads(img)).free != {} && PlaceAll(s, ElfLoads(img) + [StackLoad(0)]).free != {} <==>
            Need(s, ExecLoads(img)) <= |s.free|
  {
    StackPaths();
    PairFound(s, ElfLoads(img), StackLoad(0), StackLoad(1));
    TwoMore(ElfLoads(img), StackLoad(0), StackLoad(1));
  }

  /** The stack loop after the image has been loaded: what it leaves, and when it finds both frames. */
  lemma ExecOutcome(s: Space, img: Image)
    requires Sound(s)
    ensures var s1 := PlaceAll(s, ElfLoads(img));
            && PlaceAll(s1, Rounds(StackLoader(), 2)) == PlaceAll(s, ExecLoads(img))
            && ((forall i: nat | i < 2 :: PlaceAll(s1, Rounds(StackLoader(), i)).free != {}) <==>
                Need(s, ExecLoads(img)) <= |s.free|)
  {
    var s1 := PlaceAll(s, ElfLoads(img));
    StackRounds();
    PlaceAllAppends(s, ElfLoads(img), [StackLoad(0), StackLoad(1)]);
    PlaceAllAppends(s, ElfLoads(img), [StackLoad(0)]);
    ExecSucceedsIff(s, img);
    assert PlaceAll(s1, Rounds(StackLoader(), 0)) == s1;
    BothRounds(s1);
  }

  lemma BothRounds(s: Space)
    requires Sound(s)
    ensures (forall i: nat | i < 2 :: PlaceAll(s, Rounds(StackLoader(), i)).free != {}) <==>
            PlaceAll(s, Rounds(StackLoader(), 0)).free != {} && PlaceAll(s, Rounds(StackLoader(), 1)).free != {}
  {
  }

  lemma TwoMore<T>(ls: seq<T>, a: T, b: T)
    ensures ls + [a] + [b] == ls + [a, b]
  {
  }

  /** Frames for the child and its stack are frames for the child. */
  lemma ElfNeeds(s: Space, img: Image)
    requires Need(s, ExecLoads(img)) <= |s.free|
    ensures Need(s, ElfLoads(img)) <= |s.free|
  {
    TwoMore(ElfLoads(img), StackLoad(0), StackLoad(1));
    FewerNeed(s, ElfLoads(img), StackLoad(0));
    FewerNeed(s, ElfLoads(img) + [StackLoad(0)], StackLoad(1));
  }

  lemma FewerNeed(s: Space, loads: seq<PageLoad>, l: PageLoad)
    ensures Need(s, loads) <= Need(s, loads + [l])
  {
    Snoc(loads, [l]);
    FewerNeeded(s.tree.Keys, LoadTables(loads), TablesOf(l.path));
  }

  // ---- The child runs ----

  /** User mode may write the frame. */
  ghost predicate UserWritable(s: Space, f: nat) {
    exists path: Path :: Open(PageMap(s)[path]) && Writable(PageMap(s)[path]) && FrameOf(PageMap(s)[path]) == f
  }

  /** User code ran: frames it may write hold anything now, and nothing else changed. */
  ghost predicate UserRan(s: Space, s': Space) {
    && s'.tree == s.tree && s'.free == s.free
    && forall f: nat {:trigger SameFrame(s.mem, s'.mem, f)} | !UserWritable(s, f) :: SameFrame(s.mem, s'.mem, f)
  }

  /** Whatever user code writes, it cannot touch the page tables. */
  lemma UserRunSafe(s: Space, s': Space)
    requires Sound(s) && Owned(s) && UserRan(s, s')
    ensures Sound(s') && Owned(s') && PageMap(s') == PageMap(s)
  {
    forall q | q in s.tree
      ensures s.tree[q] in s'.mem && s'.mem[s.tree[q]] == s.mem[s.tree[q]]
    {
      assert s.tree[q] in s.tree.Values;
      assert !UserWritable(s, s.tree[q]);
      assert SameFrame(s.mem, s'.mem, s.tree[q]);
    }
    SameTables(s.mem, s'.mem, s.tree);
    assert PageMap(s') == PageMap(s);
    forall path: Path | Open(PageMap(s')[path])
      ensures FrameOf(PageMap(s')[path]) !in s'.free && FrameOf(PageMap(s')[path]) !in s'.tree.Values
    {
      assert Open(PageMap(s)[path]);
    }
  }

  /** A child's run is safe, whatever became of its pages. */
  lemma ChildSafe(s: Space, child: Image, ran: Space)
    requires Sound(s) && Owned(s) && UserRan(PlaceAll(s, ExecLoads(child)), ran)
    ensures Sound(ran) && Owned(ran) && PageMap(ran) == PageMap(PlaceAll(s, ExecLoads(child)))
  {
    ExecFlags(child);
    PlaceAllOwned(s, ExecLoads(child));
    UserRunSafe(PlaceAll(s, ExecLoads(child)), ran);
  }

  // ---- A whole cycle ----

  /** A successful exec of `child`, its run, and an exit that finds frames to reload the shell. */
  ghost predicate Cycle(s: Space, child: Image, ran: Space, shell: Image, s': Space) {
    && Sound(s) && Owned(s)
    && Need(s, ExecLoads(child)) <= |s.free|
    && UserRan(PlaceAll(s, ExecLoads(child)), ran)
    && Need(ran, ElfLoads(shell)) <= |ran.free|
    && (ChildSafe(s, child, ran); s' == PlaceAll(ran, ElfLoads(shell)))
  }

  /** Whatever the child writes, there is a cycle if there are frames for both loads. */
  lemma CycleHappens(s: Space, child: Image, ran: Space, shell: Image) returns (s': Space)
    requires Sound(s) && Owned(s) && Need(s, ExecLoads(child)) <= |s.free|
    requires var s1 := PlaceAll(s, ExecLoads(child)); UserRan(s1, ran) && Need(s1, ElfLoads(shell)) <= |s1.free|
    ensures Cycle(s, child, ran, shell, s')
  {
    ChildSafe(s, child, ran);
    s' := PlaceAll(ran, ElfLoads(shell));
  }

  /** The address space vmm_init builds is open to cycles: user mode can reach nothing yet. */
  lemma BootOwned(mem: Memory, free: set<nat>)
    requires |free| >= 5 && forall f | f in free :: 0 < f < MAX_FRAMES
    ensures Sound(Booted(mem, free)) && Owned(Booted(mem, free))
  {
    var s := Booted(mem, free);
    forall path: Path
      ensures !Open(PageMap(s)[path])
    {
      BootMapsIdentity(mem, free, path);
      TranslateIsLeaf(s, path);
    }
  }

  lemma ExecFlags(child: Image)
    ensures SmallFlags(ExecLoads(child))
  {
    ImageFlags(child, Segments(child, PhNum(child)));
  }

  lemma CycleOwned(s: Space, child: Image, ran: Space, shell: Image, s': Space)
    requires Cycle(s, child, ran, shell, s')
    ensures Sound(ran) && Sound(s') && Owned(s') && Owned(ran) && PageMap(ran) == PageMap(PlaceAll(s, ExecLoads(child)))
  {
    ChildSafe(s, child, ran);
    ImageFlags(shell, Segments(shell, PhNum(shell)));
    PlaceAllOwned(ran, ElfLoads(shell));
  }

  /** Segment k of an image is the last that covers the page of the address. */
  ghost predicate LastCovers(img: Image, k: nat, addr: Word) {
    var segs := Segments(img, PhNum(img));
    && k < |segs|
    && FirstPage(segs[k]) <= addr / 4096 < FirstPage(segs[k]) + PageCount(segs[k])
    && (forall j | k < j < |segs| :: !Covers(segs[j], PathOf(addr / 4096)))
  }

  /** After the cycle the shell's pages hold the shell's file image again, whatever the child wrote. */
  lemma CycleRestoresShell(s: Space, child: Image, ran: Space, shell: Image, s': Space, k: nat, addr: Word)
    requires Cycle(s, child, ran, shell, s') && LastCovers(shell, k, addr)
    ensures UserByte(s', addr) == Some(ByteAt(shell, Segments(shell, PhNum(shell))[k], addr))
  {
    ChildSafe(s, child, ran);
    LoadedByte(ran, shell, Segments(shell, PhNum(shell)), k, addr);
  }

  /** Pages outside the child, its stack and the shell translate as before the exec. */
  lemma CycleKeepsOthers(s: Space, child: Image, ran: Space, shell: Image, s': Space, path: Path)
    requires Cycle(s, child, ran, shell, s')
    requires NoneAt(ExecLoads(child), path) && NoneAt(ElfLoads(shell), path)
    ensures Translate(s', path) == Translate(s, path)
  {
    CycleOwned(s, child, ran, shell, s');
    CycleLeaf(s, child, ran, shell, s', path);
    TranslateIsLeaf(s, path);
    TranslateIsLeaf(s', path);
  }

  lemma CycleLeaf(s: Space, child: Image, ran: Space, shell: Image, s': Space, path: Path)
    requires Cycle(s, child, ran, shell, s')
    requires NoneAt(ExecLoads(child), path) && NoneAt(ElfLoads(shell), path)
    ensures PageMap(s')[path] == PageMap(s)[path]
  {
    LoadKeepsOthers(s, ExecLoads(child), path);
    CycleOwned(s, child, ran, shell, s');
    LoadKeepsOthers(ran, ElfLoads(shell), path);
  }

  // ---- What an exec leaves alone, even one that runs out of frames ----

  /** The page is none of the child's: no segment covers it, and it is not in the stack. */
  ghost predicate Clear(child: Image, path: Path) {
    && path != StackLoad(0).path && path != StackLoad(1).path
    && forall j | 0 <= j < |Segments(child, PhNum(child))| :: !Covers(Segments(child, PhNum(child))[j], path)
  }

  lemma ClearNone(child: Image, path: Path)
    requires Clear(child, path)
    ensures NoneAt(ElfLoads(child), path) && NoneAt(ExecLoads(child), path)
  {
    ImageNoneAt(child, Segments(child, PhNum(child)), path);
  }

  /** An exec, successful or not, leaves alone what is on no page of the child or its stack. */
  lemma ExecKeepsBytes(s: Space, child: Image, addr: Word)
    requires Sound(s) && Owned(s) && Clear(child, PathOf(addr / 4096))
    ensures UserByte(PlaceAll(s, ElfLoads(child)), addr) == UserByte(s, addr)
    ensures UserByte(PlaceAll(s, ExecLoads(child)), addr) == UserByte(s, addr)
  {
    ClearNone(child, PathOf(addr / 4096));
    LoadKeepsBytes(s, ElfLoads(child), addr);
    LoadKeepsBytes(s, ExecLoads(child), addr);
  }

  // ---- What the child can change ----

  lemma PlacedFresh(s: Space, l: PageLoad)
    requires Sound(s) && Placed(s, l) && l.flags < 4096
    ensures FrameOf(PageMap(Place(s, l))[l.path]) in s.free
  {
    assert PageMap(Place(s, l))[l.path] == NewLeaf(s, l);
  }

  /** A page that a load names is in a frame that was free before. */
  lemma {:induction false} LoadedFresh(s: Space, loads: seq<PageLoad>, path: Path) returns (s': Space)
    requires Sound(s) && AllPlaced(s, loads) && SmallFlags(loads)
    ensures s' == PlaceAll(s, loads) && FreshAt(s, s', loads, path)
  {
    if loads == [] {
      s' := s;
      FreshNone(s, path);
    } else {
      var init := AllButLast(s, loads);
      var s1 := LoadedFresh(s, init, path);
      s' := FreshStep(s, loads, s1, path);
    }
  }

  lemma FreshNone(s: Space, path: Path)
    requires Sound(s)
    ensures PlaceAll(s, []) == s && FreshAt(s, s, [], path)
  {
  }

  lemma FreshStep(s: Space, loads: seq<PageLoad>, s1: Space, path: Path) returns (s': Space)
    requires Sound(s) && AllPlaced(s, loads) && SmallFlags(loads) && loads != []
    requires s1 == PlaceAll(s, loads[..|loads| - 1]) && FreshAt(s, s1, loads[..|loads| - 1], path)
    ensures s' == PlaceAll(s, loads) && FreshAt(s, s', loads, path)
  {
    var last := loads[|loads| - 1];
    LastPlaced(s, loads, s1);
    s' := Place(s1, last);
    FreshMore(s, s1, s', loads[..|loads| - 1], last, path);
    FreshSplit(s, s', loads, path);
  }

  ghost predicate FreshAt(s: Space, s': Space, loads: seq<PageLoad>, path: Path) {
    s'.free <= s.free && (NoneAt(loads, path) || FrameOf(PageMap(s')[path]) in s.free)
  }

  lemma FreshMore(s: Space, s1: Space, s': Space, init: seq<PageLoad>, last: PageLoad, path: Path)
    requires last.flags < 4096 && FreshAt(s, s1, init, path)
    requires Sound(s1) && Placed(s1, last) && s' == Place(s1, last)
    ensures s'.free <= s.free
    ensures !NoneAt(init, path) || last.path == path ==> FrameOf(PageMap(s')[path]) in s.free
  {
    PlaceKeeps(s1, last);
    if last.path == path { PlacedFresh(s1, last); } else { LeafElsewhere(s1, last, path); }
  }

  lemma FreshSplit(s: Space, s': Space, loads: seq<PageLoad>, path: Path)
    requires loads != [] && s'.free <= s.free
    requires !NoneAt(loads[..|loads| - 1], path) || loads[|loads| - 1].path == path ==>
               FrameOf(PageMap(s')[path]) in s.free
    ensures FreshAt(s, s', loads, path)
  {
  }

  lemma LeafElsewhere(s: Space, l: PageLoad, path: Path)
    requires Sound(s) && Placed(s, l) && l.path != path
    ensures PageMap(Place(s, l))[path] == PageMap(s)[path]
  {
  }

  /** User mode can write the frame through a page that neither the child nor its stack replaces. */
  ghost predicate Exposed(s: Space, child: Image, f: nat) {
    exists path: Path ::
      && NoneAt(ExecLoads(child), path) && Open(PageMap(s)[path]) && Writable(PageMap(s)[path])
      && FrameOf(PageMap(s)[path]) == f
  }

  /** While the child runs, it can write a frame that was in use before exactly when that frame was exposed. */
  lemma WritableIffExposed(s: Space, child: Image, f: nat)
    requires Sound(s) && Need(s, ExecLoads(child)) <= |s.free| && f !in s.free
    ensures UserWritable(PlaceAll(s, ExecLoads(child)), f) <==> Exposed(s, child, f)
  {
    var loads := ExecLoads(child);
    var s1 := PlaceAll(s, loads);
    forall path: Path
      ensures NoneAt(loads, path) ==> PageMap(s1)[path] == PageMap(s)[path]
      ensures !NoneAt(loads, path) ==> FrameOf(PageMap(s1)[path]) != f
    {
      if NoneAt(loads, path) {
        LoadKeepsOthers(s, loads, path);
      } else {
        ExecFlags(child);
        NeedPlaces(s, loads);
        var _ := LoadedFresh(s, loads, path);
      }
    }
  }

  /** The page is on none of the pages that the child, its stack and the shell are loaded to. */
  ghost predicate OffLoads(child: Image, shell: Image, path: Path) {
    NoneAt(ExecLoads(child), path) && NoneAt(ElfLoads(shell), path)
  }

  /** What user mode reads through a page that the child cannot write survives the cycle. */
  lemma CycleKeepsBytes(s: Space, child: Image, ran: Space, shell: Image, s': Space, addr: Word)
    requires Cycle(s, child, ran, shell, s') && OffLoads(child, shell, PathOf(addr / 4096))
    requires var e := PageMap(s)[PathOf(addr / 4096)];
             !Open(e) || !UserWritable(PlaceAll(s, ExecLoads(child)), FrameOf(e))
    ensures UserByte(s', addr) == UserByte(s, addr)
  {
    var s1 := PlaceAll(s, ExecLoads(child));
    CycleOwned(s, child, ran, shell, s');
    LoadKeepsBytes(s, ExecLoads(child), addr);
    LoadKeepsOthers(s, ExecLoads(child), PathOf(addr / 4096));
    RunKeepsByte(s1, ran, addr);
    LoadKeepsBytes(ran, ElfLoads(shell), addr);
  }

  lemma RunKeepsByte(s: Space, ran: Space, addr: Word)
    requires Sound(s) && Sound(ran) && PageMap(ran) == PageMap(s) && UserRan(s, ran)
    requires var e := PageMap(s)[PathOf(addr / 4096)]; !Open(e) || !UserWritable(s, FrameOf(e))
    ensures UserByte(ran, addr) == UserByte(s, addr)
  {
    var path := PathOf(addr / 4096);
    TranslateIsLeaf(s, path);
    TranslateIsLeaf(ran, path);
    if Open(PageMap(s)[path]) { assert SameFrame(s.mem, ran.mem, FrameOf(PageMap(s)[path])); }
  }

  /** The space after a run that fills one frame with a byte. */
  ghost function Scribbled(s: Space, f: nat, v: Byte): Space {
    s.(mem := s.mem[f := Data(seq(4096, _ => v))])
  }

  lemma ScribbleRuns(s: Space, addr: Word, v: Byte, ran: Space)
    requires Sound(s) && Owned(s) && Open(PageMap(s)[PathOf(addr / 4096)])
    requires var f := FrameOf(PageMap(s)[PathOf(addr / 4096)]); UserWritable(s, f) && ran == Scribbled(s, f, v)
    ensures UserRan(s, ran) && Sound(ran) && UserByte(ran, addr) == Some(v)
  {
    UserRunSafe(s, ran);
    TranslateIsLeaf(ran, PathOf(addr / 4096));
  }

  /** Whatever user mode reads through an exposed page, some run of the child makes it any byte at all. */
  lemma ChildOverwrites(s: Space, child: Image, shell: Image, addr: Word, v: Byte) returns (ran: Space, s': Space)
    requires Sound(s) && Owned(s) && Need(s, ExecLoads(child)) <= |s.free|
    requires var s1 := PlaceAll(s, ExecLoads(child)); Need(s1, ElfLoads(shell)) <= |s1.free|
    requires OffLoads(child, shell, PathOf(addr / 4096)) && Open(PageMap(s)[PathOf(addr / 4096)])
    requires UserWritable(PlaceAll(s, ExecLoads(child)), FrameOf(PageMap(s)[PathOf(addr / 4096)]))
    ensures Cycle(s, child, ran, shell, s') && UserByte(s', addr) == Some(v)
  {
    var s1, path := PlaceAll(s, ExecLoads(child)), PathOf(addr / 4096);
    LoadKeepsOthers(s, ExecLoads(child), path);
    ExecFlags(child);
    PlaceAllOwned(s, ExecLoads(child));
    ran := Scribbled(s1, FrameOf(PageMap(s)[path]), v);
    ScribbleRuns(s1, addr, v, ran);
    s' := CycleHappens(s, child, ran, shell);
    CycleOwned(s, child, ran, shell, s');
    LoadKeepsBytes(ran, ElfLoads(shell), addr);
  }

  /** Nothing is loaded to the page, and user mode cannot read it or cannot write its frame while the child runs. */
  ghost predicate Sheltered(s: Space, child: Image, shell: Image, addr: Word) {
    var e := PageMap(s)[PathOf(addr / 4096)];
    OffLoads(child, shell, PathOf(addr / 4096)) && !(Open(e) && Exposed(s, child, FrameOf(e)))
  }

  lemma CycleShelters(s: Space, child: Image, ran: Space, shell: Image, s': Space, addr: Word)
    requires Cycle(s, child, ran, shell, s') && Sheltered(s, child, shell, addr)
    ensures UserByte(s', addr) == UserByte(s, addr)
  {
    var e := PageMap(s)[PathOf(addr / 4096)];
    if Open(e) { WritableIffExposed(s, child, FrameOf(e)); }
    CycleKeepsBytes(s, child, ran, shell, s', addr);
  }

  /** A byte outside the loaded pages survives every run of the child if and only if its page is sheltered. */
  lemma BytesSurviveIff(s: Space, child: Image, shell: Image, addr: Word)
    requires Sound(s) && Owned(s) && Need(s, ExecLoads(child)) <= |s.free|
    requires var s1 := PlaceAll(s, ExecLoads(child)); Need(s1, ElfLoads(shell)) <= |s1.free|
    requires OffLoads(child, shell, PathOf(addr / 4096))
    ensures (forall ran, s' | Cycle(s, child, ran, shell, s') :: UserByte(s', addr) == UserByte(s, addr)) <==>
            Sheltered(s, child, shell, addr)
  {
    if Sheltered(s, child, shell, addr) {
      forall ran, s' | Cycle(s, child, ran, shell, s')
        ensures UserByte(s', addr) == UserByte(s, addr)
      {
        CycleShelters(s, child, ran, shell, s', addr);
      }
    } else {
      var v: Byte := if UserByte(s, addr) == Some(0) then 1 else 0;
      WritableIffExposed(s, child, FrameOf(PageMap(s)[PathOf(addr / 4096)]));
      var ran, s' := ChildOverwrites(s, child, shell, addr, v);
    }
  }

  // ---- The shell's stack ----

  /** Page `i` of the stack usermode_exec_elf maps for the shell. */
  function ShellStack(i: nat): PageLoad {
    PageLoad(PathOf(0x800 + i), None, PRESENT + WRITE + USER)
  }

  /** All pages usermode_exec_elf places for the shell. */
  function ShellLoads(shell: Image): seq<PageLoad> {
    ElfLoads(shell) + [ShellStack(0), ShellStack(1)]
  }

  lemma ShellStackPaths()
    ensures ShellStack(0).path == [0, 0, 4, 0] && ShellStack(1).path == [0, 0, 4, 1]
  {
  }

  lemma LastTwo(ls: seq<PageLoad>, a: PageLoad, b: PageLoad)
    requires a.path != b.path
    ensures var loads := ls + [a, b];
            LastAt(loads, |ls|) && loads[|ls|] == a && LastAt(loads, |ls| + 1) && loads[|ls| + 1] == b
  {
  }

  lemma HoldsWritable(s: Space, l: PageLoad)
    requires Holds(s, l.path, l) && l.flags == PRESENT + WRITE + USER
    ensures Open(PageMap(s)[l.path]) && Writable(PageMap(s)[l.path])
  {
    FlagsOpen(PageMap(s)[l.path]);
  }

  lemma LastLoadOpen(s: Space, loads: seq<PageLoad>, n: nat, l: PageLoad)
    requires Sound(s) && Need(s, loads) <= |s.free| && SmallFlags(loads) && LastAt(loads, n)
    requires loads[n] == l && l.flags == PRESENT + WRITE + USER
    ensures var e := PageMap(PlaceAll(s, loads))[l.path]; Open(e) && Writable(e)
  {
    LoadShowsLast(s, loads, n);
    HoldsWritable(PlaceAll(s, loads), l);
  }

  /** After usermode_exec_elf the stack is open to user mode for writing. */
  lemma ShellStackOpen(s: Space, shell: Image, l: PageLoad)
    requires Sound(s) && Need(s, ShellLoads(shell)) <= |s.free| && (l == ShellStack(0) || l == ShellStack(1))
    ensures var e := PageMap(PlaceAll(s, ShellLoads(shell)))[l.path]; Open(e) && Writable(e)
  {
    var ls, loads := ElfLoads(shell), ShellLoads(shell);
    ShellFlags(shell);
    ShellStackPaths();
    LastTwo(ls, ShellStack(0), ShellStack(1));
    LastLoadOpen(s, loads, if l == ShellStack(0) then |ls| else |ls| + 1, l);
  }

  lemma ShellFlags(shell: Image)
    ensures SmallFlags(ShellLoads(shell))
  {
    ImageFlags(shell, Segments(shell, PhNum(shell)));
  }

  /** After a successful exec so is the child's. */
  lemma ChildStackOpen(s: Space, child: Image, l: PageLoad)
    requires Sound(s) && Need(s, ExecLoads(child)) <= |s.free| && (l == StackLoad(0) || l == StackLoad(1))
    ensures var e := PageMap(PlaceAll(s, ExecLoads(child)))[l.path]; Open(e) && Writable(e)
  {
    var ls, loads := ElfLoads(child), ExecLoads(child);
    ExecFlags(child);
    StackPaths();
    LastTwo(ls, StackLoad(0), StackLoad(1));
    LastLoadOpen(s, loads, if l == StackLoad(0) then |ls| else |ls| + 1, l);
  }

  /** A page that user mode may write is exposed itself. */
  lemma OwnPageOverwritten(s: Space, child: Image, shell: Image, addr: Word, v: Byte) returns (ran: Space, s': Space)
    requires Sound(s) && Owned(s) && Need(s, ExecLoads(child)) <= |s.free|
    requires var s1 := PlaceAll(s, ExecLoads(child)); Need(s1, ElfLoads(shell)) <= |s1.free|
    requires OffLoads(child, shell, PathOf(addr / 4096))
    requires var e := PageMap(s)[PathOf(addr / 4096)]; Open(e) && Writable(e)
    ensures Cycle(s, child, ran, shell, s') && UserByte(s', addr) == Some(v)
  {
    var f := FrameOf(PageMap(s)[PathOf(addr / 4096)]);
    assert Exposed(s, child, f);
    WritableIffExposed(s, child, f);
    ran, s' := ChildOverwrites(s, child, shell, addr, v);
  }

  /**
   So a child can leave any byte anywhere in the shell's stack, unless a segment of the child or of the shell covers
   the page. Here `s` is what usermode_exec_elf made of `s0`, and `l` is a page of the stack.
   */
  lemma ShellStackOverwritten(s0: Space, s: Space, child: Image, shell: Image, l: PageLoad, addr: Word, v: Byte)
    returns (ran: Space, s': Space)
    requires Sound(s0) && Owned(s0) && Need(s0, ShellLoads(shell)) <= |s0.free| && s == PlaceAll(s0, ShellLoads(shell))
    requires Need(s, ExecLoads(child)) <= |s.free|
    requires var s1 := PlaceAll(s, ExecLoads(child)); Need(s1, ElfLoads(shell)) <= |s1.free|
    requires (l == ShellStack(0) || l == ShellStack(1)) && PathOf(addr / 4096) == l.path
    requires OffLoads(child, shell, l.path)
    ensures Cycle(s, child, ran, shell, s') && UserByte(s', addr) == Some(v)
  {
    ShellStackOpen(s0, shell, l);
    ShellFlags(shell);
    PlaceAllOwned(s0, ShellLoads(shell));
    ran, s' := OwnPageOverwritten(s, child, shell, addr, v);
  }

  // ---- What cycles cost ----

  /** Frames are conserved: what a load takes from the allocator is in its pages and in new tables. */
  lemma LoadConserves(s: Space, loads: seq<PageLoad>)
    requires Sound(s) && Need(s, loads) <= |s.free|
    ensures var s' := PlaceAll(s, loads);
            && |s'.free| + |s'.tree.Keys| + |loads| == |s.free| + |s.tree.Keys|
            && s.tree.Keys <= s'.tree.Keys
            && (LoadTables(loads) <= s.tree.Keys ==> |s'.free| + |loads| == |s.free|)
  {
    PlaceAllSucceeds(s, loads);
    GrowsToAll(s.tree.Keys, s.tree.Keys + LoadTables(loads), LoadTables(loads));
  }

  /**
   One cycle takes exactly the child's pages, two stack pages, the shell's pages, and the tables that were missing.
   */
  lemma CycleCost(s: Space, child: Image, ran: Space, shell: Image, s': Space)
    requires Cycle(s, child, ran, shell, s')
    ensures |s'.free| + |s'.tree.Keys| + |ElfLoads(child)| + 2 + |ElfLoads(shell)| == |s.free| + |s.tree.Keys|
    ensures s.tree.Keys <= s'.tree.Keys
    ensures LoadTables(ExecLoads(child)) + LoadTables(ElfLoads(shell)) <= s.tree.Keys ==>
              |s'.free| + |ElfLoads(child)| + 2 + |ElfLoads(shell)| == |s.free|
  {
    ChildSafe(s, child, ran);
    LoadConserves(s, ExecLoads(child));
    LoadConserves(ran, ElfLoads(shell));
  }

  /** Consecutive cycles. */
  ghost predicate Cycles(states: seq<Space>, children: seq<Image>, rans: seq<Space>, shell: Image) {
    && |states| == |children| + 1 && |rans| == |children|
    && forall i: nat {:trigger CycleAt(states, children, rans, shell, i)} | i < |children| ::
         CycleAt(states, children, rans, shell, i)
  }

  ghost predicate CycleAt(states: seq<Space>, children: seq<Image>, rans: seq<Space>, shell: Image, i: nat)
    requires i < |children| == |rans| == |states| - 1
  {
    Cycle(states[i], children[i], rans[i], shell, states[i + 1])
  }

  /** The pages one cycle places. */
  function CyclePages(child: Image, shell: Image): nat {
    |ElfLoads(child)| + 2 + |ElfLoads(shell)|
  }

  function Sum(xs: seq<nat>): nat {
    if xs == [] then 0 else Sum(xs[..|xs| - 1]) + xs[|xs| - 1]
  }

  /** `pages` frames went into pages, and the rest of what left the allocator into tables. */
  ghost predicate Paid(s: Space, s': Space, pages: nat) {
    && |s'.free| + |s'.tree.Keys| + pages == |s.free| + |s.tree.Keys|
    && s.tree.Keys <= s'.tree.Keys
  }

  lemma {:induction false} AllPaid(states: seq<Space>, costs: seq<nat>)
    requires |states| == |costs| + 1
    requires forall i | 0 <= i < |costs| :: Paid(states[i], states[i + 1], costs[i])
    ensures Paid(states[0], states[|costs|], Sum(costs))
  {
    if costs != [] {
      var n := |costs| - 1;
      AllPaid(states[..n + 1], costs[..n]);
      assert Paid(states[n], states[n + 1], costs[n]);
    }
  }

  lemma {:induction false} SumAtLeast(xs: seq<nat>, k: nat)
    requires forall i | 0 <= i < |xs| :: xs[i] >= k
    ensures Sum(xs) >= |xs| * k
  {
    if xs != [] {
      SumAtLeast(xs[..|xs| - 1], k);
      OneMore(|xs|, k);
    }
  }

  lemma OneMore(n: nat, k: nat)
    requires n > 0
    ensures n * k == (n - 1) * k + k
  {
  }

  lemma CyclePaid(states: seq<Space>, children: seq<Image>, rans: seq<Space>, shell: Image, i: nat)
    requires Cycles(states, children, rans, shell) && i < |children|
    ensures Paid(states[i], states[i + 1], CyclePages(children[i], shell))
  {
    assert CycleAt(states, children, rans, shell, i);
    CycleCost(states[i], children[i], rans[i], shell, states[i + 1]);
  }

  /** No frame comes back: all cycles together place no more pages than there were free frames at the start. */
  lemma CyclesBounded(states: seq<Space>, children: seq<Image>, rans: seq<Space>, shell: Image, costs: seq<nat>)
    requires Cycles(states, children, rans, shell)
    requires |costs| == |children| && forall i | 0 <= i < |costs| :: costs[i] == CyclePages(children[i], shell)
    ensures |states[|children|].free| + Sum(costs) <= |states[0].free|
    ensures |children| * (2 + |ElfLoads(shell)|) <= |states[0].free|
  {
    forall i: nat | i < |costs|
      ensures Paid(states[i], states[i + 1], costs[i])
    {
      CyclePaid(states, children, rans, shell, i);
    }
    AllPaid(states, costs);
    SubsetSize(states[0].tree.Keys, states[|children|].tree.Keys);
    SumAtLeast(costs, 2 + |ElfLoads(shell)|);
  }
}
