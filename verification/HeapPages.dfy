/** The pages behind the kernel heap (kernel/src/kheap.c): fresh frames, mapped for the kernel only. */
module HeapPages {
  import opened Bits
  import opened Folding
  import opened PageTables
  import opened Mapping
  import opened Vmm
  import opened Loading
  import opened Loader
  import opened ProgramImage

  /** The i-th page of a region that starts at page `first`. */
  function HeapLoad(first: nat, i: nat): PageLoad {
    PageLoad(PathOf(first + i), None, PRESENT + WRITE)
  }

  function HeapLoader(first: nat): Loads {
    (i: nat) => HeapLoad(first, i)
  }

  /** kheap_map_region: the pages in order, until frames run out. The heap starts and grows by whole pages. */
  method MapRegion(vm: AddressSpace, first: nat, pages: nat)
    requires vm.Valid() && (first + pages) * 4096 <= WORD
    modifies vm`mem, vm`tree, vm.frames`usedFrames, vm.frames.bitmap
    ensures vm.Valid()
    ensures vm.State() == PlaceAll(old(vm.State()), Rounds(HeapLoader(first), pages))
  {
    ghost var s, load := vm.State(), HeapLoader(first);
    for i := 0 to pages
      invariant vm.Valid() && vm.State() == PlaceAll(s, Rounds(load, i))
    {
      PlaceRound(s, load, i);
      var found := MapHeapPage(vm, first, i);
      if !found {
        PlaceStuckEarly(s, load, i, pages);
        return;
      }
    }
  }

  method MapHeapPage(vm: AddressSpace, first: nat, i: nat) returns (found: bool)
    requires vm.Valid() && (first + i + 1) * 4096 <= WORD
    modifies vm`mem, vm`tree, vm.frames`usedFrames, vm.frames.bitmap
    ensures vm.Valid()
    ensures vm.State() == Place(old(vm.State()), HeapLoader(first)(i))
    ensures found <==> old(vm.State()).free != {}
  {
    found := PlacePage(vm, (first + i) * 4096, None, PRESENT + WRITE, HeapLoader(first)(i));
  }

  /** The processor finds a page that the kernel may write and user mode may not touch. */
  predicate HeapPage(t: Translation) {
    t.Mapped? && t.writable && !t.user
  }

  /**
   With enough frames every page of the region is in a frame that is neither free nor a table, writable for the
   kernel and closed to user mode.
   */
  lemma RegionMapped(s: Space, first: nat, pages: nat, i: nat)
    requires Sound(s) && first + pages <= PAGES && i < pages
    requires Need(s, Rounds(HeapLoader(first), pages)) <= |s.free|
    ensures var s', l := PlaceAll(s, Rounds(HeapLoader(first), pages)), HeapLoad(first, i);
            Holds(s', PathOf(first + i), l) && HeapPage(Translate(s', PathOf(first + i)))
  {
    HeapLast(first, pages, i);
    LastHolds(s, Rounds(HeapLoader(first), pages), i, HeapLoad(first, i));
  }

  lemma LastHolds(s: Space, loads: seq<PageLoad>, i: nat, l: PageLoad)
    requires Sound(s) && Need(s, loads) <= |s.free| && SmallFlags(loads) && LastAt(loads, i)
    requires loads[i] == l && l.flags == PRESENT + WRITE
    ensures Holds(PlaceAll(s, loads), l.path, l) && HeapPage(Translate(PlaceAll(s, loads), l.path))
  {
    LoadShowsLast(s, loads, i);
    TranslateIsLeaf(PlaceAll(s, loads), l.path);
    KernelLeaf(PageMap(PlaceAll(s, loads))[l.path]);
  }

  /** Pages outside the region translate as before, even if frames run out. */
  lemma RegionElsewhere(s: Space, first: nat, pages: nat, page: nat)
    requires Sound(s) && first + pages <= PAGES && page < PAGES && !(first <= page < first + pages)
    ensures Translate(PlaceAll(s, Rounds(HeapLoader(first), pages)), PathOf(page)) == Translate(s, PathOf(page))
  {
    HeapNone(first, pages, page);
    NoneChanged(s, Rounds(HeapLoader(first), pages), PathOf(page));
  }

  lemma NoneChanged(s: Space, loads: seq<PageLoad>, path: Path)
    requires Sound(s) && NoneAt(loads, path)
    ensures Translate(PlaceAll(s, loads), path) == Translate(s, path)
  {
    LoadKeepsOthers(s, loads, path);
    TranslateIsLeaf(s, path);
    TranslateIsLeaf(PlaceAll(s, loads), path);
  }

  lemma KernelLeaf(e: Word)
    requires e % 4096 == PRESENT + WRITE
    ensures HeapPage(Decode(e))
  {
    FlagBits(e);
  }

  lemma HeapPathIs(first: nat, i: nat, page: nat)
    requires first + i < PAGES && page < PAGES
    ensures HeapLoad(first, i).path == PathOf(page) <==> first + i == page
  {
    SamePage(first + i, page);
  }

  lemma HeapLast(first: nat, pages: nat, i: nat)
    requires first + pages <= PAGES && i < pages
    ensures var loads := Rounds(HeapLoader(first), pages);
            SmallFlags(loads) && LastAt(loads, i) && loads[i] == HeapLoad(first, i)
  {
    forall j | i < j < pages
      ensures HeapLoad(first, j).path != HeapLoad(first, i).path
    {
      HeapPathIs(first, j, first + i);
    }
  }

  lemma HeapNone(first: nat, pages: nat, page: nat)
    requires first + pages <= PAGES && page < PAGES && !(first <= page < first + pages)
    ensures var loads := Rounds(HeapLoader(first), pages);
            SmallFlags(loads) && NoneAt(loads, PathOf(page))
  {
    forall j: nat | j < pages
      ensures HeapLoad(first, j).path != PathOf(page)
    {
      HeapPathIs(first, j, page);
    }
  }
}
