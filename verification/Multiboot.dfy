/**
 The memory map in the boot information (kernel/src/multiboot2.c): a walk over tags, in the format of section 3.6
 of the Multiboot2 Specification.
 */
module Multiboot {
  import opened Bits
  import opened Bytes
  import opened Frames
  import opened BootFrames

  const MAX_REGIONS := 32
  const TAG_END: Half := 0
  const TAG_MMAP: Half := 6

  /** What is read at an address as a 32-bit and as a 64-bit word. */
  datatype Info = Info(u32: nat -> Half, u64: nat -> Word)

  /** How far apart tags are: `ALIGN_UP(size, 8)` in 32-bit arithmetic. */
  function Align8(size: Half): nat {
    (size + 7) % HALF / 8 * 8
  }

  function EntryAt(info: Info, p: nat): Region {
    Region(info.u64(p), info.u64(p + 8), info.u32(p + 16))
  }

  // ---- The format ----

  /** A tag: one with a memory map, or any other. */
  datatype Tag =
    | Other(kind: Half, size: Half)
    | MemoryMap(size: Half, entrySize: Half, version: Half, entries: seq<Region>)

  /** The size of a tag with the padding after it: the next multiple of 8. */
  function Padded(size: nat): (d: nat)
    ensures d % 8 == 0 && size <= d < size + 8
  {
    if size % 8 == 0 then size else size + (8 - size % 8)
  }

  /** n entries of `step` bytes take `all` bytes. */
  predicate Product(n: nat, step: nat, all: nat) {
    all == n * step
  }

  /** The tag is at p, well formed. */
  predicate TagAt(info: Info, p: nat, t: Tag) {
    && info.u32(p + 4) == t.size && 8 <= t.size < HALF - 7
    && match t
       case Other(kind, _) => info.u32(p) == kind && kind != 0 && kind != 6
       case MemoryMap(size, entrySize, version, entries) =>
         && info.u32(p) == 6 && info.u32(p + 8) == entrySize >= 24 && info.u32(p + 12) == version
         && size >= 16 && Product(|entries|, entrySize, size - 16)
         && EntriesAt(info, p + 16, entrySize, entries)
  }

  /** The entry is at p: its base, its length and its type. */
  predicate RegionAt(info: Info, p: nat, r: Region) {
    info.u64(p) == r.base && info.u64(p + 8) == r.length && info.u32(p + 16) == r.kind
  }

  /** The entries follow each other from p on, `step` bytes apart. */
  predicate EntriesAt(info: Info, p: nat, step: nat, rs: seq<Region>)
    decreases rs
  {
    rs == [] || (RegionAt(info, p, rs[0]) && EntriesAt(info, p + step, step, rs[1..]))
  }

  /** From p on there are these tags and then the end tag. */
  predicate Encodes(info: Info, p: nat, tags: seq<Tag>)
    decreases tags
  {
    if tags == [] then info.u32(p) == 0
    else TagAt(info, p, tags[0]) && Encodes(info, p + Padded(tags[0].size), tags[1..])
  }

  /** A tag's own entries. */
  function Own(t: Tag): seq<Region> {
    if t.MemoryMap? then t.entries else []
  }

  /** All entries of all memory maps, in order. */
  function Entries(tags: seq<Tag>): seq<Region> {
    if tags == [] then []
    else Own(tags[0]) + Entries(tags[1..])
  }

  // ---- What the walk finds in any boot information ----

  function NextTag(info: Info, p: nat): nat {
    p + Align8(info.u32(p + 4))
  }

  predicate StepAt(info: Info, ps: seq<nat>, i: nat) {
    i + 1 < |ps| && info.u32(ps[i]) != TAG_END && ps[i + 1] == NextTag(info, ps[i])
  }

  /** The walk from p on visits the tags at these addresses, of which the last is the end tag. */
  ghost predicate Visits(info: Info, p: nat, ps: seq<nat>) {
    ps != [] && ps[0] == p && info.u32(ps[|ps| - 1]) == TAG_END && forall i: nat | i + 1 < |ps| :: StepAt(info, ps, i)
  }

  lemma VisitsOn(info: Info, p: nat, ps: seq<nat>)
    requires Visits(info, p, ps) && info.u32(p) != TAG_END
    ensures |ps| > 1 && Visits(info, NextTag(info, p), ps[1..])
  {
    assert StepAt(info, ps, 0);
    forall i: nat | i + 2 < |ps|
      ensures StepAt(info, ps[1..], i)
    {
      assert StepAt(info, ps, i + 1);
    }
  }

  lemma VisitsOut(info: Info, p: nat, ps: seq<nat>)
    requires Visits(info, p, ps) && info.u32(p) == TAG_END
    ensures |ps| == 1
  {
    assert |ps| > 1 ==> StepAt(info, ps, 0);
  }

  /**
   What one memory map yields: entries `step` bytes apart from `at` on, as long as they start before `end` and there
   is room.
   */
  function MapEntries(info: Info, at: nat, end: nat, step: nat, room: nat): (rs: seq<Region>)
    ensures |rs| <= room
    decreases room
  {
    if at < end && room > 0 then [EntryAt(info, at)] + MapEntries(info, at + step, end, step, room - 1) else []
  }

  /** What the tag at p yields. */
  function TagEntries(info: Info, p: nat, room: nat): (rs: seq<Region>)
    ensures |rs| <= room
  {
    if info.u32(p) == TAG_MMAP then MapEntries(info, p + 16, p + info.u32(p + 4), info.u32(p + 8), room) else []
  }

  /** What the tags at these addresses yield, up to the end tag. */
  function Found(info: Info, ps: seq<nat>, room: nat): (rs: seq<Region>)
    ensures |rs| <= room
    decreases |ps|
  {
    if |ps| <= 1 then []
    else
      var here := TagEntries(info, ps[0], room);
      here + Found(info, ps[1..], room - |here|)
  }

  /** What has been recorded, with these tags ahead and room for more, leads to the goal. */
  ghost predicate Leads(info: Info, ps: seq<nat>, room: nat, seen: seq<Region>, goal: seq<Region>) {
    room + |seen| == MAX_REGIONS && seen + Found(info, ps, room) == goal
  }

  lemma LeadsOn(info: Info, ps: seq<nat>, room: nat, seen: seq<Region>, goal: seq<Region>, here: seq<Region>)
    requires Leads(info, ps, room, seen, goal) && |ps| > 1 && here == TagEntries(info, ps[0], room)
    ensures Leads(info, ps[1..], room - |here|, seen + here, goal)
  {
    Regroup(seen, here, Found(info, ps[1..], room - |here|));
  }

  function Upto(rs: seq<Region>, room: nat): seq<Region> {
    if |rs| <= room then rs else rs[..room]
  }

  class BootMap {
    const regions: array<Region>
    var count: nat

    ghost predicate Valid()
      reads this
    {
      regions.Length == MAX_REGIONS && count <= MAX_REGIONS
    }

    ghost function Recorded(): seq<Region>
      requires Valid()
      reads this, regions
    {
      regions[..count]
    }

    constructor ()
      ensures Valid() && fresh(regions)
    {
      regions := new Region[MAX_REGIONS](_ => Region(0, 0, 0));
      count := 0;
    }

    /** multiboot2_parse_mmap, for any boot information in which the walk reaches an end tag. */
    method Parse(info: Info, addr: nat, ghost ps: seq<nat>)
      requires Valid() && Visits(info, addr + 8, ps)
      modifies this`count, regions
      ensures Valid() && Recorded() == Found(info, ps, MAX_REGIONS)
    {
      count := 0;
      var ptr: nat := addr + 8;
      ghost var rest, room: nat := ps, MAX_REGIONS;
      ghost var goal := Found(info, ps, room);
      while info.u32(ptr) != TAG_END
        invariant Valid() && Visits(info, ptr, rest) && Leads(info, rest, room, Recorded(), goal)
        decreases |rest|
      {
        VisitsOn(info, ptr, rest);
        ptr, room := ReadTag(info, ptr, rest, room, goal);
        rest := rest[1..];
      }
      VisitsOut(info, ptr, rest);
    }

    /** One round of the walk over the tags. */
    method ReadTag(info: Info, ptr: nat, ghost ps: seq<nat>, ghost room: nat, ghost goal: seq<Region>)
      returns (next: nat, ghost room': nat)
      requires Valid() && |ps| > 1 && ps[0] == ptr && Leads(info, ps, room, Recorded(), goal)
      modifies this`count, regions
      ensures Valid() && next == NextTag(info, ptr) && Leads(info, ps[1..], room', Recorded(), goal)
    {
      ghost var here := TagEntries(info, ptr, room);
      LeadsOn(info, ps, room, Recorded(), goal, here);
      room' := room - |here|;
      ReadEntries(info, ptr, room);
      next := ptr + Align8(info.u32(ptr + 4));
    }

    /** The entries of the tag, if it is a memory map. */
    method ReadEntries(info: Info, ptr: nat, ghost room: nat)
      requires Valid() && room == MAX_REGIONS - count
      modifies this`count, regions
      ensures Valid() && Recorded() == old(Recorded()) + TagEntries(info, ptr, room)
    {
      var kind, size, step := info.u32(ptr), info.u32(ptr + 4), info.u32(ptr + 8);
      if kind == TAG_MMAP { ReadMap(info, ptr + 16, ptr + size, step, room); }
    }

    /** The loop over the entries of one memory map. */
    method ReadMap(info: Info, start: nat, end: nat, step: nat, ghost room: nat)
      requires Valid() && room == MAX_REGIONS - count
      modifies this`count, regions
      ensures Valid() && Recorded() == old(Recorded()) + MapEntries(info, start, end, step, room)
    {
      var at: nat := start;
      ghost var left, goal := room, Recorded() + MapEntries(info, start, end, step, room);
      while at < end && count < MAX_REGIONS
        invariant Valid() && left + count == MAX_REGIONS && Recorded() + MapEntries(info, at, end, step, left) == goal
        decreases MAX_REGIONS - count
      {
        var r, next := EntryAt(info, at), at + step;
        left := left - 1;
        Regroup(Recorded(), [r], MapEntries(info, next, end, step, left));
        AddEntry(r);
        at := next;
      }
    }

    method AddEntry(r: Region)
      requires Valid() && count < MAX_REGIONS
      modifies this`count, regions
      ensures Valid() && Recorded() == old(Recorded()) + [r] && count == old(count) + 1
    {
      regions[count] := r;
      count := count + 1;
    }
  }

  lemma Regroup(a: seq<Region>, b: seq<Region>, c: seq<Region>)
    ensures a + (b + c) == a + b + c
  {
  }

  // ---- Well-formed boot information ----

  lemma PaddedAligned(size: Half)
    requires size < HALF - 7
    ensures Align8(size) == Padded(size)
  {
  }

  /** The walk goes on from a well-formed tag to the next. */
  lemma NextPadded(info: Info, p: nat, t: Tag)
    requires TagAt(info, p, t)
    ensures info.u32(p) != TAG_END && NextTag(info, p) == p + Padded(t.size)
  {
    PaddedAligned(t.size);
  }

  /** In a well-formed memory map the walk finds its entries, as many as there is room for. */
  lemma {:induction false} MapFound(info: Info, at: nat, end: nat, step: nat, rs: seq<Region>, left: nat, room: nat)
    requires EntriesAt(info, at, step, rs) && Product(|rs|, step, left) && end == at + left && step > 0
    ensures MapEntries(info, at, end, step, room) == Upto(rs, room)
    decreases rs
  {
    if rs != [] && room > 0 {
      var left' := (|rs| - 1) * step;
      assert left == step + left';
      MapFound(info, at + step, end, step, rs[1..], left', room - 1);
      assert Upto(rs, room) == [rs[0]] + Upto(rs[1..], room - 1);
    }
  }

  lemma TagFound(info: Info, p: nat, t: Tag, room: nat)
    requires TagAt(info, p, t)
    ensures TagEntries(info, p, room) == Upto(Own(t), room)
  {
    if t.MemoryMap? { MapFound(info, p + 16, p + t.size, t.entrySize, t.entries, t.size - 16, room); }
  }

  lemma UptoCat(a: seq<Region>, b: seq<Region>, room: nat)
    ensures |Upto(a, room)| <= room && Upto(a, room) + Upto(b, room - |Upto(a, room)|) == Upto(a + b, room)
  {
  }

  /** Where well-formed tags are. */
  function Places(p: nat, tags: seq<Tag>): (ps: seq<nat>)
    ensures |ps| == |tags| + 1 && ps[0] == p
    decreases tags
  {
    if tags == [] then [p] else [p] + Places(p + Padded(tags[0].size), tags[1..])
  }

  /** In well-formed boot information the walk visits all tags. */
  lemma {:induction false} TagsVisited(info: Info, p: nat, tags: seq<Tag>)
    requires Encodes(info, p, tags)
    ensures Visits(info, p, Places(p, tags))
    decreases tags
  {
    if tags != [] {
      NextPadded(info, p, tags[0]);
      var ps, qs := Places(p, tags), Places(p + Padded(tags[0].size), tags[1..]);
      TagsVisited(info, p + Padded(tags[0].size), tags[1..]);
      assert StepAt(info, ps, 0);
      forall i: nat | i + 1 < |ps|
        ensures StepAt(info, ps, i)
      {
        if i > 0 { assert StepAt(info, qs, i - 1); }
      }
    }
  }

  lemma FirstTag(info: Info, p: nat, tags: seq<Tag>) returns (next: nat, rest: seq<Tag>)
    requires Encodes(info, p, tags) && tags != []
    ensures TagAt(info, p, tags[0]) && next == p + Padded(tags[0].size) && rest == tags[1..] && |rest| < |tags|
    ensures Encodes(info, next, rest) && Places(p, tags) == [p] + Places(next, rest)
  {
    next, rest := p + Padded(tags[0].size), tags[1..];
  }

  /** There it finds all entries of all memory maps, as many as there is room for. */
  lemma {:induction false} TagsFound(info: Info, p: nat, tags: seq<Tag>, room: nat)
    requires Encodes(info, p, tags)
    ensures Found(info, Places(p, tags), room) == Upto(Entries(tags), room)
    decreases |tags|
  {
    if tags != [] {
      var next, rest := FirstTag(info, p, tags);
      var left := LeftAfter(info, p, room);
      TagsFound(info, next, rest, left);
      HeadFound(info, p, tags[0], room, left, Places(next, rest), Entries(rest));
    }
  }

  lemma LeftAfter(info: Info, p: nat, room: nat) returns (left: nat)
    ensures left == room - |TagEntries(info, p, room)|
  {
    left := room - |TagEntries(info, p, room)|;
  }

  lemma HeadFound(info: Info, p: nat, t: Tag, room: nat, left: nat, ps: seq<nat>, rest: seq<Region>)
    requires TagAt(info, p, t) && ps != [] && left == room - |TagEntries(info, p, room)|
    requires Found(info, ps, left) == Upto(rest, left)
    ensures Found(info, [p] + ps, room) == Upto(Own(t) + rest, room)
  {
    TagFound(info, p, t, room);
    FoundMore(info, p, ps, room, TagEntries(info, p, room), Own(t), rest);
  }

  lemma FoundMore(info: Info, p: nat, ps: seq<nat>, room: nat, got: seq<Region>, here: seq<Region>, rest: seq<Region>)
    requires ps != [] && got == TagEntries(info, p, room) == Upto(here, room)
    requires Found(info, ps, room - |got|) == Upto(rest, room - |got|)
    ensures Found(info, [p] + ps, room) == Upto(here + rest, room)
  {
    assert ([p] + ps)[1..] == ps;
    UptoCat(here, rest, room);
  }

  /** There is only one walk. */
  lemma {:induction false} VisitsOnce(info: Info, p: nat, ps: seq<nat>, qs: seq<nat>)
    requires Visits(info, p, ps) && Visits(info, p, qs)
    ensures ps == qs
    decreases |ps|
  {
    if info.u32(p) == TAG_END {
      VisitsOut(info, p, ps);
      VisitsOut(info, p, qs);
    } else {
      VisitsOn(info, p, ps);
      VisitsOn(info, p, qs);
      VisitsOnce(info, NextTag(info, p), ps[1..], qs[1..]);
      assert ps == [ps[0]] + ps[1..] && qs == [qs[0]] + qs[1..];
    }
  }

  /** What the kernel records of well-formed boot information: the first 32 entries of its memory maps. */
  lemma WalkFinds(info: Info, p: nat, ps: seq<nat>, tags: seq<Tag>)
    requires Visits(info, p, ps) && Encodes(info, p, tags)
    ensures Found(info, ps, MAX_REGIONS) == Upto(Entries(tags), MAX_REGIONS)
  {
    TagsVisited(info, p, tags);
    VisitsOnce(info, p, ps, Places(p, tags));
    TagsFound(info, p, tags, MAX_REGIONS);
  }

  /**
   The start of kernel_main: the memory map is read and handed to the frame allocator. The free frames come from
   what the walk finds, which in well-formed boot information is the first 32 entries, and the used counter is right
   exactly when those regions that are available share no frame.
   */
  method InitMemory(boot: BootMap, frames: FrameAllocator, info: Info, addr: nat, ghost ps: seq<nat>, start: Word,
                    end: Word)
    requires boot.Valid() && frames.Valid() && Visits(info, addr + 8, ps)
    modifies boot, boot.regions, frames, frames.bitmap
    ensures frames.Free() == InitialFree(Found(info, ps, MAX_REGIONS), start, end)
    ensures forall tags | Encodes(info, addr + 8, tags) ::
              frames.Free() == InitialFree(Upto(Entries(tags), 32), start, end)
    ensures frames.Counted() <==> Apart(AllTaken(Found(info, ps, MAX_REGIONS)))
  {
    boot.Parse(info, addr, ps);
    ghost var rs := Found(info, ps, MAX_REGIONS);
    Init(frames, boot.regions[..boot.count], start, end);
    FewerThanAll(frames.bitmap[..]);
    UsedIsCounted(rs, frames.Free(), frames.usedFrames);
    forall tags | Encodes(info, addr + 8, tags)
      ensures rs == Upto(Entries(tags), 32)
    {
      WalkFinds(info, addr + 8, ps, tags);
    }
  }

  // ---- In bytes ----

  /** How words are read from memory. */
  function Reading(mem: Store): Info {
    Info((a: nat) => U32(mem, a), (a: nat) => U64(mem, a))
  }

  /** The bytes a tag starts with. */
  function TagBytes(t: Tag): seq<Byte> {
    match t
    case Other(kind, size) => LittleEndian(kind, 4) + LittleEndian(size, 4)
    case MemoryMap(size, entrySize, version, _) =>
      LittleEndian(6, 4) + (LittleEndian(size, 4) + (LittleEndian(entrySize, 4) + LittleEndian(version, 4)))
  }

  /** The bytes an entry of a memory map starts with; what follows is reserved. */
  function EntryBytes(r: Region): seq<Byte> {
    LittleEndian(r.base, 8) + (LittleEndian(r.length, 8) + LittleEndian(r.kind, 4))
  }

  predicate EntriesIn(mem: Store, p: nat, step: nat, rs: seq<Region>)
    decreases rs
  {
    rs == [] || (HoldsAt(mem, p, EntryBytes(rs[0])) && EntriesIn(mem, p + step, step, rs[1..]))
  }

  /** A well-formed tag: its size, its kind, and its entries. */
  predicate TagIn(mem: Store, p: nat, t: Tag) {
    && HoldsAt(mem, p, TagBytes(t)) && 8 <= t.size < HALF - 7
    && match t
       case Other(kind, _) => kind != 0 && kind != 6
       case MemoryMap(size, entrySize, _, entries) =>
         && entrySize >= 24 && size >= 16 && Product(|entries|, entrySize, size - 16)
         && EntriesIn(mem, p + 16, entrySize, entries)
  }

  /** The tags and then the end tag, byte by byte. */
  predicate TagsIn(mem: Store, p: nat, tags: seq<Tag>)
    decreases tags
  {
    if tags == [] then HoldsAt(mem, p, LittleEndian(0, 4) + LittleEndian(8, 4))
    else TagIn(mem, p, tags[0]) && TagsIn(mem, p + Padded(tags[0].size), tags[1..])
  }

  lemma ReadsRegion(mem: Store, p: nat, r: Region)
    requires HoldsAt(mem, p, EntryBytes(r))
    ensures RegionAt(Reading(mem), p, r)
  {
    HoldsCat(mem, p, LittleEndian(r.base, 8), LittleEndian(r.length, 8) + LittleEndian(r.kind, 4));
    HoldsCat(mem, p + 8, LittleEndian(r.length, 8), LittleEndian(r.kind, 4));
    Read64(mem, p, r.base);
    Read64(mem, p + 8, r.length);
    Read32(mem, p + 16, r.kind);
  }

  lemma {:induction false} ReadsEntries(mem: Store, p: nat, step: nat, rs: seq<Region>)
    requires EntriesIn(mem, p, step, rs)
    ensures EntriesAt(Reading(mem), p, step, rs)
    decreases rs
  {
    if rs != [] {
      ReadsRegion(mem, p, rs[0]);
      ReadsEntries(mem, p + step, step, rs[1..]);
    }
  }

  lemma ReadsTag(mem: Store, p: nat, t: Tag)
    requires TagIn(mem, p, t)
    ensures TagAt(Reading(mem), p, t)
  {
    match t
    case Other(kind, size) =>
      HoldsCat(mem, p, LittleEndian(kind, 4), LittleEndian(size, 4));
      Read32(mem, p, kind);
      Read32(mem, p + 4, size);
    case MemoryMap(size, entrySize, version, entries) =>
      ReadsMap(mem, p, size, entrySize, version);
      ReadsEntries(mem, p + 16, entrySize, entries);
  }

  lemma ReadsMap(mem: Store, p: nat, size: Half, entrySize: Half, version: Half)
    requires HoldsAt(mem, p, LittleEndian(6, 4) + (LittleEndian(size, 4) + (LittleEndian(entrySize, 4) +
                                                                            LittleEndian(version, 4))))
    ensures U32(mem, p) == 6 && U32(mem, p + 4) == size && U32(mem, p + 8) == entrySize && U32(mem, p + 12) == version
  {
    var b := LittleEndian(entrySize, 4) + LittleEndian(version, 4);
    HoldsCat(mem, p, LittleEndian(6, 4), LittleEndian(size, 4) + b);
    HoldsCat(mem, p + 4, LittleEndian(size, 4), b);
    HoldsCat(mem, p + 8, LittleEndian(entrySize, 4), LittleEndian(version, 4));
    Read32(mem, p, 6);
    Read32(mem, p + 4, size);
    Read32(mem, p + 8, entrySize);
    Read32(mem, p + 12, version);
  }

  lemma ReadsEnd(mem: Store, p: nat)
    requires HoldsAt(mem, p, LittleEndian(0, 4) + LittleEndian(8, 4))
    ensures Reading(mem).u32(p) == 0
  {
    HoldsCat(mem, p, LittleEndian(0, 4), LittleEndian(8, 4));
    Read32(mem, p, 0);
  }

  lemma FirstIn(mem: Store, p: nat, tags: seq<Tag>) returns (next: nat, rest: seq<Tag>)
    requires TagsIn(mem, p, tags) && tags != []
    ensures TagIn(mem, p, tags[0]) && next == p + Padded(tags[0].size) && rest == tags[1..] && |rest| < |tags|
    ensures TagsIn(mem, next, rest)
  {
    next, rest := p + Padded(tags[0].size), tags[1..];
  }

  lemma EncodesFrom(info: Info, p: nat, tags: seq<Tag>, next: nat, rest: seq<Tag>)
    requires tags != [] && TagAt(info, p, tags[0]) && next == p + Padded(tags[0].size) && rest == tags[1..]
    requires Encodes(info, next, rest)
    ensures Encodes(info, p, tags)
  {
  }

  /** Boot information that is well formed in bytes is so in words. */
  lemma {:induction false} ReadsTags(mem: Store, p: nat, tags: seq<Tag>)
    requires TagsIn(mem, p, tags)
    ensures Encodes(Reading(mem), p, tags)
    decreases |tags|
  {
    if tags == [] {
      ReadsEnd(mem, p);
    } else {
      var next, rest := FirstIn(mem, p, tags);
      ReadsTag(mem, p, tags[0]);
      ReadsTags(mem, next, rest);
      EncodesFrom(Reading(mem), p, tags, next, rest);
    }
  }

  /**
   From the bytes of the boot information to the free frames: where every available entry is taken exactly, a frame is
   free exactly when it is usable and lies wholly in an available entry among the first 32.
   */
  lemma BootMemoryMeans(mem: Store, p: nat, tags: seq<Tag>, start: Word, end: Word, f: nat) returns (ps: seq<nat>)
    requires TagsIn(mem, p, tags) && start < end && end + 4095 < HALF * 4096
    requires forall r | r in Upto(Entries(tags), 32) && r.kind == 1 :: ExactOutside(r, start, end)
    ensures Visits(Reading(mem), p, ps)
    ensures f in InitialFree(Found(Reading(mem), ps, MAX_REGIONS), start, end) <==>
            Usable(f, start, end) && exists r | r in Upto(Entries(tags), 32) :: r.kind == 1 && Within(r, f)
  {
    ReadsTags(mem, p, tags);
    TagsVisited(Reading(mem), p, tags);
    ps := Places(p, tags);
    WalkFinds(Reading(mem), p, ps, tags);
    InitialFreeMeans(Upto(Entries(tags), 32), start, end, f);
  }
}
