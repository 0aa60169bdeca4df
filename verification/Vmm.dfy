/** The virtual memory manager (kernel/src/vmm.c): page tables built in frames taken from the frame allocator. */
module Vmm {
  import opened Bits
  import opened Frames
  import opened PageTables
  import opened Mapping

  class AddressSpace {
    const frames: FrameAllocator
    /** Physical memory, frame by frame. */
    var mem: Memory
    /** The frame of the PML4; 0 is the null pointer. */
    var pml4: nat
    /** Where the tables are. */
    ghost var tree: Tree

    ghost function State(): Space
      requires frames.Valid()
      reads this, frames.bitmap
    {
      Space(mem, tree, frames.Free())
    }

    ghost predicate Valid()
      reads this, frames.bitmap
    {
      && frames.Valid()
      && Sound(State())
      && tree[[]] == pml4
    }

    constructor (frames: FrameAllocator)
      ensures this.frames == frames && pml4 == 0 && mem == map[]
    {
      this.frames := frames;
      mem, pml4, tree := map[], 0, map[];
    }

    /**
     Takes a frame and clears its 512 entries; 0 when no frame is left. Frame 0 would be taken, but not as a table.
     */
    method AllocTable() returns (t: nat)
      requires frames.Valid()
      modifies this`mem, frames`usedFrames, frames.bitmap
      ensures t == 0 <==> old(frames.Free()) == {} || 0 in old(frames.Free())
      ensures old(frames.Free()) == {} ==> mem == old(mem) && frames.Free() == {}
      ensures 0 in old(frames.Free()) ==> mem == old(mem) && frames.Free() == old(frames.Free()) - {0}
      ensures t != 0 ==>
                && t == Lowest(old(frames.Free()))
                && frames.Free() == old(frames.Free()) - {t}
                && mem == old(mem)[t := ZeroTable()]
    {
      var addr := frames.AllocFrame();
      if addr == 0 { return 0; }
      t := addr / 4096;
      var table := new Word[512];
      for i := 0 to 512
        modifies table
        invariant forall k | 0 <= k < i :: table[k] == 0
      {
        table[i] := 0;
      }
      assert table[..] == seq(512, _ => 0);
      mem := mem[t := Table(table[..])];
    }

    /** Adds `link` to the flags of a present entry above the leaves. */
    method WidenLink(ghost path: Path, ghost depth: nat, table: nat, i: nat, link: nat)
      requires Valid() && depth < 3 && path[..depth] in tree && tree[path[..depth]] == table && i == path[depth]
      requires LinkFlags(link) && path[..depth + 1] in tree
      modifies this`mem
      ensures State() == Step(old(State()), path, depth, link)
    {
      OrWord(mem[table].entries[i], link);
      mem := SetEntry(mem, table, i, BitOr(mem[table].entries[i], link));
    }

    /** Hangs a new empty table below an absent entry; 0 when no frame is left for one. */
    method HangTable(ghost path: Path, ghost depth: nat, table: nat, i: nat, link: nat) returns (next: nat)
      requires Valid() && depth < 3 && path[..depth] in tree && tree[path[..depth]] == table && i == path[depth]
      requires LinkFlags(link) && path[..depth + 1] !in tree
      modifies this`mem, this`tree, frames`usedFrames, frames.bitmap
      ensures State() == Step(old(State()), path, depth, link)
      ensures next == if path[..depth + 1] in tree then tree[path[..depth + 1]] else 0
    {
      next := AllocTable();
      if next == 0 { return; }
      assert IsTable(mem, table) && next < MAX_FRAMES;
      OrWord(next * 4096, link);
      mem := SetEntry(mem, table, i, BitOr(next * 4096, link));
      tree := tree[path[..depth + 1] := next];
    }

    /** One level of vmm_map_page: the table below an entry, created if need be; 0 when no frame is left for one. */
    method NextTable(ghost path: Path, ghost depth: nat, table: nat, i: nat, link: nat) returns (next: nat)
      requires Valid() && depth < 3 && path[..depth] in tree && tree[path[..depth]] == table && i == path[depth]
      requires LinkFlags(link)
      modifies this`mem, this`tree, frames`usedFrames, frames.bitmap
      ensures Valid()
      ensures State() == Step(old(State()), path, depth, link)
      ensures next == if path[..depth + 1] in tree then tree[path[..depth + 1]] else 0
    {
      EntrySteps(mem, tree, path, depth);
      StepSound(State(), path, depth, link);
      var e := mem[table].entries[i];
      if Present(e) {
        next := FrameOf(e);
        WidenLink(path, depth, table, i, link);
      } else {
        next := HangTable(path, depth, table, i, link);
      }
    }

    /** The three upper levels of vmm_map_page: the page table that will hold the leaf, or 0 when frames run out. */
    method LeafTable(path: Path, link: nat) returns (t: nat)
      requires Valid() && LinkFlags(link)
      modifies this`mem, this`tree, frames`usedFrames, frames.bitmap
      ensures Valid()
      ensures path[..0] in old(tree) && State() == Build(old(State()), path, link, 0)
      ensures t == if path[..3] in tree then tree[path[..3]] else 0
    {
      AtRoot(path);
      t := Descend(path, link, 0, Build(State(), path, link, 0));
    }

    /** The walk down a path stands at this table, and the rest of the way leads to the goal. */
    ghost predicate StandsAt(path: Path, link: nat, depth: nat, table: nat, goal: Space)
      reads this, frames.bitmap
    {
      && Valid() && LinkFlags(link) && depth <= 3 && path[..depth] in tree && tree[path[..depth]] == table
      && Build(State(), path, link, depth) == goal
    }

    /** The walk from the root. */
    method Descend(path: Path, link: nat, ghost root: nat, ghost goal: Space) returns (t: nat)
      requires root == 0 && StandsAt(path, link, root, pml4, goal)
      modifies this`mem, this`tree, frames`usedFrames, frames.bitmap
      ensures Valid() && State() == goal
      ensures t == if path[..3] in tree then tree[path[..3]] else 0
    {
      t := pml4;
      for depth := 0 to 3
        invariant StandsAt(path, link, depth, t, goal)
      {
        t := LevelDown(path, depth, t, link, goal);
        if t == 0 { return; }
      }
    }

    /** One level of that walk: it stands one level below, or there is no way on. */
    method LevelDown(path: Path, depth: nat, table: nat, link: nat, ghost goal: Space) returns (t: nat)
      requires depth < 3 && StandsAt(path, link, depth, table, goal)
      modifies this`mem, this`tree, frames`usedFrames, frames.bitmap
      ensures t == 0 ==> Valid() && State() == goal && path[..3] !in tree
      ensures t != 0 ==> StandsAt(path, link, depth + 1, t, goal)
    {
      BuildStops(State(), path, link, depth);
      t := NextTable(path, depth, table, path[depth], link);
    }

    /** Maps the page of `virt` to the frame of `phys`, or leaves all translations alone when frames run out. */
    method MapPage(virt: Word, phys: Word, flags: Half)
      requires Valid()
      modifies this`mem, this`tree, frames`usedFrames, frames.bitmap
      ensures Valid()
      ensures State() == MapAt(old(State()), virt, phys, flags)
    {
      var path := PathOf(virt / 4096);
      var link := LinkFor(flags);
      var e := LeafFor(phys, flags);
      var t := LeafTable(path, link);
      MapSound(old(State()), path, e, link);
      if t == 0 { return; }
      mem := SetEntry(mem, t, path[3], e);
      assert State() == Map(old(State()), path, e, link);
    }

    /** The walk of vmm_unmap_page: the page table of a path, or 0 where an entry above it is absent. */
    method FindLeafTable(path: Path) returns (t: nat)
      requires Valid()
      ensures t == if path[..3] in tree then tree[path[..3]] else 0
    {
      AtRoot(path);
      t := pml4;
      for depth := 0 to 3
        invariant path[..depth] in tree && tree[path[..depth]] == t
      {
        EntrySteps(mem, tree, path, depth);
        var e := mem[t].entries[path[depth]];
        if !Present(e) {
          NoTableNoLeaf(mem, tree, path, depth + 1);
          return 0;
        }
        t := FrameOf(e);
      }
    }

    /** Clears the leaf of the page of `virt` if all tables above it exist. */
    method UnmapPage(virt: Word)
      requires Valid()
      modifies this`mem
      ensures Valid()
      ensures State() == Unmap(old(State()), PathOf(virt / 4096))
    {
      var path := PathOf(virt / 4096);
      var t := FindLeafTable(path);
      UnmapSound(State(), path);
      if t == 0 { return; }
      mem := SetEntry(mem, t, path[3], 0);
      assert State() == Unmap(old(State()), path);
    }

    /** The identity mapping of vmm_init. */
    method MapIdentity()
      requires Valid()
      modifies this`mem, this`tree, frames`usedFrames, frames.bitmap
      ensures Valid()
      ensures State() == Run(old(State()), IdentityCalls(IDENTITY_PAGES))
    {
      for page := 0 to IDENTITY_PAGES
        invariant Valid() && State() == Run(old(State()), IdentityCalls(page))
      {
        IdentityStep(old(State()), page);
        MapPage(page * 4096, page * 4096, PRESENT + WRITE);
      }
    }

    /** A new PML4 with the first 4 MiB mapped to themselves; no page table when there is no frame for the PML4. */
    method Init()
      requires frames.Valid()
      modifies this, frames`usedFrames, frames.bitmap
      ensures old(frames.Free()) == {} || 0 in old(frames.Free()) ==> pml4 == 0 && mem == old(mem)
      ensures old(frames.Free()) != {} && 0 !in old(frames.Free()) ==>
                Valid() && State() == Booted(old(mem), old(frames.Free()))
    {
      pml4 := AllocTable();
      if pml4 == 0 { return; }
      tree := map[[] := pml4];
      assert State() == Empty(old(mem), old(frames.Free()));
      MapIdentity();
    }
  }
}
