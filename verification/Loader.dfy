/** The ELF loader (kernel/src/elf.c) at work on an address space. */
module Loader {
  import opened Bits
  import opened Bytes
  import opened Folding
  import opened Frames
  import opened PageTables
  import opened Mapping
  import opened Vmm
  import opened Loading
  import opened Elf

  /** Zeroes a frame and copies into it the file data that falls within the page. */
  method FillPage(img: Image, seg: Segment, page: nat) returns (bytes: seq<Byte>)
    ensures bytes == PageBytes(img, seg, page)
  {
    var frame := new Byte[4096];
    for i := 0 to 4096
      invariant forall k | 0 <= k < i :: frame[k] == 0
    {
      frame[i] := 0;
    }
    var start, end := page * 4096, page * 4096 + 4096;
    var copyStart, copyEnd := Max(start, seg.vaddr), Min(end, DataEnd(seg));
    if copyStart < copyEnd {
      var dst := copyStart - start;
      var src := seg.offset + (copyStart - seg.vaddr);
      for i := 0 to copyEnd - copyStart
        invariant forall k | 0 <= k < 4096 ::
                    frame[k] == if dst <= k < dst + i then ByteAt(img, seg, start + k) else 0
      {
        frame[dst + i] := img((src + i) % WORD);
      }
    }
    bytes := frame[..];
    forall k | 0 <= k < 4096
      ensures bytes[k] == PageBytes(img, seg, page)[k]
    {
      assert PageBytes(img, seg, page)[k] == ByteAt(img, seg, start + k);
    }
  }

  /** Takes a frame and fills it if asked to; 0 when no frame is left. */
  method TakeFrame(vm: AddressSpace, bytes: Option<seq<Byte>>) returns (addr: Word)
    requires vm.Valid()
    modifies vm`mem, vm.frames`usedFrames, vm.frames.bitmap
    ensures vm.Valid()
    ensures if old(vm.State()).free == {} then addr == 0 && vm.State() == old(vm.State())
            else addr == Lowest(old(vm.State()).free) * 4096 > 0 && vm.State() == Take(old(vm.State()), bytes)
  {
    ghost var s := vm.State();
    addr := vm.frames.AllocFrame();
    if addr != 0 && bytes.Some? { vm.mem := vm.mem[addr / 4096 := Data(bytes.value)]; }
    assert s.free != {} ==> vm.State() == Take(s, bytes);
  }

  /** One round of a loading loop: a fresh frame, filled if asked to, and mapped. False when no frame was left. */
  method PlacePage(vm: AddressSpace, virt: Word, bytes: Option<seq<Byte>>, flags: Half, ghost l: PageLoad)
    returns (found: bool)
    requires vm.Valid() && l == PageLoad(PathOf(virt / 4096), bytes, flags)
    modifies vm`mem, vm`tree, vm.frames`usedFrames, vm.frames.bitmap
    ensures vm.Valid()
    ensures vm.State() == Place(old(vm.State()), l)
    ensures found <==> old(vm.State()).free != {}
  {
    var addr := TakeFrame(vm, bytes);
    found := addr != 0;
    if found { vm.MapPage(virt, addr, flags); }
  }

  /** The body of load_segment's loop: builds page `n` of the segment and maps it. */
  method LoadPage(vm: AddressSpace, img: Image, seg: Segment, n: nat) returns (found: bool)
    requires vm.Valid() && n < PageCount(seg)
    modifies vm`mem, vm`tree, vm.frames`usedFrames, vm.frames.bitmap
    ensures vm.Valid()
    ensures vm.State() == Place(old(vm.State()), SegmentLoader(img, seg)(n))
    ensures found <==> old(vm.State()).free != {}
  {
    var page := FirstPage(seg) + n;
    LoadRound(img, seg, n);
    var bytes := FillPage(img, seg, page);
    found := PlacePage(vm, page * 4096, Some(bytes), SegmentFlags(seg), SegmentLoader(img, seg)(n));
  }

  /** Places the pages of one segment in order, and gives up when frames run out. */
  method LoadSegment(vm: AddressSpace, img: Image, seg: Segment)
    requires vm.Valid()
    modifies vm`mem, vm`tree, vm.frames`usedFrames, vm.frames.bitmap
    ensures vm.Valid()
    ensures vm.State() == PlaceAll(old(vm.State()), SegmentLoads(img, seg))
  {
    ghost var s, load := vm.State(), SegmentLoader(img, seg);
    for n := 0 to PageCount(seg)
      invariant vm.Valid() && vm.State() == PlaceAll(s, Rounds(load, n))
    {
      PlaceRound(s, load, n);
      var found := LoadPage(vm, img, seg, n);
      if !found {
        PlaceStuckEarly(s, load, n, PageCount(seg));
        return;
      }
    }
  }

  lemma LoadRound(img: Image, seg: Segment, n: nat)
    requires n < PageCount(seg)
    ensures var page := FirstPage(seg) + n;
            && page * 4096 < WORD
            && SegmentLoader(img, seg)(n) ==
               PageLoad(PathOf(page * 4096 / 4096), Some(PageBytes(img, seg, page)), SegmentFlags(seg))
  {
  }

  /** The checks of elf_validate, in its order. */
  method Validate(img: Image, size: Word) returns (ok: bool)
    ensures ok <==> ValidHeader(img, size)
  {
    if size < EHDR_SIZE { return false; }
    if img(0) != ELF_MAGIC[0] || img(1) != ELF_MAGIC[1] || img(2) != ELF_MAGIC[2] || img(3) != ELF_MAGIC[3] {
      return false;
    }
    if img(4) != 2 { return false; }
    if img(5) != 1 { return false; }
    if U16(img, 16) != 2 { return false; }
    if U16(img, 18) != 62 { return false; }
    return true;
  }

  /** Loads every PT_LOAD segment and returns the entry point; 0 for an image it rejects. */
  method ElfLoad(vm: AddressSpace, img: Image, size: Word) returns (entry: Word)
    requires vm.Valid()
    modifies vm`mem, vm`tree, vm.frames`usedFrames, vm.frames.bitmap
    ensures vm.Valid()
    ensures Loadable(img, size) ==> entry == Entry(img) && vm.State() == PlaceAll(old(vm.State()), ElfLoads(img))
    ensures !Loadable(img, size) ==> entry == 0 && vm.State() == old(vm.State())
  {
    var ok := Validate(img, size);
    if !ok { return 0; }
    var phEnd := (PhOff(img) + PhNum(img) * PhEntSize(img)) % WORD;
    if phEnd > size { return 0; }
    ghost var s := vm.State();
    for i := 0 to PhNum(img)
      invariant vm.Valid() && vm.State() == PlaceAll(s, ImageLoads(img, Segments(img, i)))
    {
      var ph := PhAt(img, i);
      if U32(img, ph) == PT_LOAD {
        PlaceSegment(s, img, Segments(img, i), SegmentAt(img, ph));
        LoadSegment(vm, img, SegmentAt(img, ph));
      } else {
        Snoc(Segments(img, i), []);
      }
    }
    entry := Entry(img);
  }
}
