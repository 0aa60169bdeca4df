/**
 What a loaded program looks like from user mode, byte by byte: the meaning of PT_LOAD
 segments (System V gABI, chapter 5, "Program Header" and "Program Loading").
 */
module ProgramImage {
  import opened Bits
  import opened Folding
  import opened Frames
  import opened PageTables
  import opened Mapping
  import opened Loading
  import opened Elf

  /** The byte user mode reads at an address, if the processor lets it. */
  ghost function UserByte(s: Space, addr: Word): Option<Byte> {
    match Translate(s, PathOf(addr / 4096))
    case Fault => None
    case Mapped(f, _, user) =>
      if user && f in s.mem && s.mem[f].Data? && |s.mem[f].bytes| == 4096
      then Some(s.mem[f].bytes[addr % 4096]) else None
  }

  // ---- Which load a page shows ----

  ghost predicate NoneAt(loads: seq<PageLoad>, path: Path) {
    forall i | 0 <= i < |loads| :: loads[i].path != path
  }

  /** Load `i` is the last one that goes to its page. */
  ghost predicate LastAt(loads: seq<PageLoad>, i: nat) {
    i < |loads| && forall j | i < j < |loads| :: loads[j].path != loads[i].path
  }

  /** Whether or not there are enough frames, pages a load does not name are mapped as before. */
  lemma {:induction false} LoadKeepsOthers(s: Space, loads: seq<PageLoad>, path: Path)
    requires Sound(s) && NoneAt(loads, path)
    ensures PageMap(PlaceAll(s, loads))[path] == PageMap(s)[path]
  {
    if loads != [] {
      var init, last := loads[..|loads| - 1], loads[|loads| - 1];
      LoadKeepsOthers(s, init, path);
      PlacedOrNot(PlaceAll(s, init), last);
    }
  }

  lemma {:induction false} ShowsLast(s: Space, s': Space, loads: seq<PageLoad>, i: nat)
    requires LastAt(loads, i) && Shows(s, s', loads, loads[i].path)
    ensures Holds(s', loads[i].path, loads[i])
  {
    if i < |loads| - 1 { ShowsLast(s, s', loads[..|loads| - 1], i); }
  }

  /** A page that holds a load lets user mode read the load's bytes. */
  lemma HoldsByte(s: Space, l: PageLoad, addr: Word)
    requires Sound(s) && Holds(s, l.path, l) && l.path == PathOf(addr / 4096)
    requires l.bytes.Some? && |l.bytes.value| == 4096
    requires (l.flags == PRESENT + USER || l.flags == PRESENT + WRITE + USER)
    ensures UserByte(s, addr) == Some(l.bytes.value[addr % 4096])
  {
    TranslateIsLeaf(s, l.path);
    FlagsOpen(PageMap(s)[l.path]);
  }

  lemma FlagsOpen(e: Word)
    requires e % 4096 == PRESENT + USER || e % 4096 == PRESENT + WRITE + USER
    ensures Present(e) && User(e) && (Writable(e) <==> e % 4096 == PRESENT + WRITE + USER)
  {
    FlagBits(e);
  }

  // ---- One image ----

  lemma SegmentLoadAt(img: Image, seg: Segment, i: nat)
    requires i < PageCount(seg)
    ensures |SegmentLoads(img, seg)| == PageCount(seg)
    ensures SegmentLoads(img, seg)[i] == SegmentLoad(img, seg, i)
  {
  }

  /** Pages of one segment never share a path: no segment spans the whole address space. */
  lemma SegmentPagesDistinct(img: Image, seg: Segment, i: nat, j: nat)
    requires i < j < PageCount(seg) <= PAGES
    ensures SegmentLoads(img, seg)[i].path != SegmentLoads(img, seg)[j].path
  {
    SegmentLoadAt(img, seg, i); SegmentLoadAt(img, seg, j);
    SamePath(FirstPage(seg) + i, FirstPage(seg) + j);
    FarApart(FirstPage(seg) + i, j - i);
  }

  lemma FarApart(x: nat, d: nat)
    requires 0 < d < PAGES
    ensures x % PAGES != (x + d) % PAGES
  {
  }

  /** Some page of the segment goes to `path`. */
  ghost predicate Covers(seg: Segment, path: Path) {
    exists page: nat :: FirstPage(seg) <= page < FirstPage(seg) + PageCount(seg) && PathOf(page) == path
  }

  lemma SegmentNoneAt(img: Image, seg: Segment, path: Path)
    requires !Covers(seg, path)
    ensures NoneAt(SegmentLoads(img, seg), path)
  {
    forall i: nat | i < PageCount(seg)
      ensures SegmentLoads(img, seg)[i].path != path
    {
      SegmentLoadAt(img, seg, i);
    }
  }

  lemma {:induction false} ConcatNoneAt(parts: seq<seq<PageLoad>>, path: Path)
    requires forall j | 0 <= j < |parts| :: NoneAt(parts[j], path)
    ensures NoneAt(Concat(parts), path)
  {
    if parts != [] { ConcatNoneAt(parts[..|parts| - 1], path); }
  }

  lemma ImageNoneAt(img: Image, segs: seq<Segment>, path: Path)
    requires forall j | 0 <= j < |segs| :: !Covers(segs[j], path)
    ensures NoneAt(ImageLoads(img, segs), path)
  {
    forall j | 0 <= j < |segs|
      ensures NoneAt(Parts(img, segs)[j], path)
    {
      SegmentNoneAt(img, segs[j], path);
    }
    ConcatNoneAt(Parts(img, segs), path);
  }

  lemma LastAtAppended(a: seq<PageLoad>, b: seq<PageLoad>, n: nat)
    requires LastAt(a, n) && NoneAt(b, a[n].path)
    ensures LastAt(a + b, n)
  {
  }

  lemma LastAtInTail(a: seq<PageLoad>, b: seq<PageLoad>, n: nat)
    requires LastAt(b, n)
    ensures LastAt(a + b, |a| + n) && (a + b)[|a| + n] == b[n]
  {
  }

  lemma SegmentLastAt(img: Image, seg: Segment, i: nat)
    requires i < PageCount(seg) <= PAGES
    ensures LastAt(SegmentLoads(img, seg), i) && SegmentLoads(img, seg)[i] == SegmentLoad(img, seg, i)
  {
    SegmentLoadAt(img, seg, i);
    forall j | i < j < PageCount(seg)
      ensures SegmentLoads(img, seg)[j].path != SegmentLoads(img, seg)[i].path
    {
      SegmentPagesDistinct(img, seg, i, j);
    }
  }

  /** The last load for its page within one part is the last of all unless a later part goes there too. */
  lemma {:induction false} LastInConcat(parts: seq<seq<PageLoad>>, k: nat, i: nat) returns (n: nat)
    requires k < |parts| && LastAt(parts[k], i)
    requires forall j | k < j < |parts| :: NoneAt(parts[j], parts[k][i].path)
    ensures LastAt(Concat(parts), n) && Concat(parts)[n] == parts[k][i]
  {
    var init, last := parts[..|parts| - 1], parts[|parts| - 1];
    if k == |parts| - 1 {
      n := |Concat(init)| + i;
      LastAtInTail(Concat(init), last, i);
    } else {
      n := LastInConcat(init, k, i);
      LastAtAppended(Concat(init), last, n);
    }
  }

  lemma {:induction false} PartSize(parts: seq<seq<PageLoad>>, k: nat)
    requires k < |parts|
    ensures |parts[k]| <= |Concat(parts)|
  {
    if k < |parts| - 1 { PartSize(parts[..|parts| - 1], k); }
  }

  /** Page `i` of segment `k` is a load of the image, and the last one for its page unless a later segment covers it. */
  lemma SegmentInImage(img: Image, segs: seq<Segment>, k: nat, i: nat) returns (n: nat)
    requires k < |segs| && i < PageCount(segs[k]) && |ImageLoads(img, segs)| <= PAGES
    requires forall j | k < j < |segs| :: !Covers(segs[j], SegmentLoad(img, segs[k], i).path)
    ensures LastAt(ImageLoads(img, segs), n) && ImageLoads(img, segs)[n] == SegmentLoad(img, segs[k], i)
  {
    PartSize(Parts(img, segs), k);
    SegmentLastAt(img, segs[k], i);
    forall j | k < j < |segs|
      ensures NoneAt(Parts(img, segs)[j], SegmentLoad(img, segs[k], i).path)
    {
      SegmentNoneAt(img, segs[j], SegmentLoad(img, segs[k], i).path);
    }
    n := LastInConcat(Parts(img, segs), k, i);
  }

  lemma FreeBound(s: Space)
    requires Sound(s)
    ensures |s.free| <= MAX_FRAMES
  {
    SubsetSize(s.free, Below(MAX_FRAMES));
  }

  lemma {:induction false} ConcatFlags(parts: seq<seq<PageLoad>>)
    requires forall j | 0 <= j < |parts| :: SmallFlags(parts[j])
    ensures SmallFlags(Concat(parts))
  {
    if parts != [] { ConcatFlags(parts[..|parts| - 1]); }
  }

  lemma ImageFlags(img: Image, segs: seq<Segment>)
    ensures SmallFlags(ImageLoads(img, segs))
  {
    forall j, i: nat | 0 <= j < |segs| && i < PageCount(segs[j])
      ensures SegmentLoads(img, segs[j])[i].flags < 4096
    {
      SegmentLoadAt(img, segs[j], i);
    }
    ConcatFlags(Parts(img, segs));
  }

  /**
   A loaded image means what its segments say: with frames for all pages and tables, user mode reads at every
   address of a loaded page the byte of the last segment that covers the page, file data or zero.
   */
  lemma LoadedByte(s: Space, img: Image, segs: seq<Segment>, k: nat, addr: Word)
    requires Sound(s) && Need(s, ImageLoads(img, segs)) <= |s.free| && k < |segs|
    requires FirstPage(segs[k]) <= addr / 4096 < FirstPage(segs[k]) + PageCount(segs[k])
    requires forall j | k < j < |segs| :: !Covers(segs[j], PathOf(addr / 4096))
    ensures UserByte(PlaceAll(s, ImageLoads(img, segs)), addr) == Some(ByteAt(img, segs[k], addr))
  {
    var i, l := PageIndex(img, segs[k], addr);
    LoadedPage(s, img, segs, k, i, l);
    SegmentByte(PlaceAll(s, ImageLoads(img, segs)), img, segs[k], addr, l);
  }

  /** The load that fills the page of an address. */
  lemma PageIndex(img: Image, seg: Segment, addr: Word) returns (i: nat, l: PageLoad)
    requires FirstPage(seg) <= addr / 4096 < FirstPage(seg) + PageCount(seg)
    ensures i < PageCount(seg) && l == SegmentLoad(img, seg, i)
    ensures l.path == PathOf(addr / 4096) && LoadOf(img, seg, addr / 4096, l)
  {
    i := addr / 4096 - FirstPage(seg);
    l := SegmentLoad(img, seg, i);
  }

  predicate LoadOf(img: Image, seg: Segment, page: nat, l: PageLoad) {
    l.bytes == Some(PageBytes(img, seg, page)) && l.flags == SegmentFlags(seg)
  }

  lemma LoadedPage(s: Space, img: Image, segs: seq<Segment>, k: nat, i: nat, l: PageLoad)
    requires Sound(s) && Need(s, ImageLoads(img, segs)) <= |s.free|
    requires k < |segs| && i < PageCount(segs[k]) && l == SegmentLoad(img, segs[k], i)
    requires forall j | k < j < |segs| :: !Covers(segs[j], l.path)
    ensures Holds(PlaceAll(s, ImageLoads(img, segs)), l.path, l)
  {
    FreeBound(s);
    var n := SegmentInImage(img, segs, k, i);
    ImageFlags(img, segs);
    LoadShowsLast(s, ImageLoads(img, segs), n);
  }

  lemma LoadShowsLast(s: Space, loads: seq<PageLoad>, n: nat)
    requires Sound(s) && Need(s, loads) <= |s.free| && SmallFlags(loads) && LastAt(loads, n)
    ensures Holds(PlaceAll(s, loads), loads[n].path, loads[n])
  {
    NeedPlaces(s, loads);
    var s' := PlaceAllShows(s, loads, loads[n].path);
    ShowsLast(s, s', loads, n);
  }

  lemma SegmentByte(s: Space, img: Image, seg: Segment, addr: Word, l: PageLoad)
    requires Sound(s) && l.path == PathOf(addr / 4096) && LoadOf(img, seg, addr / 4096, l) && Holds(s, l.path, l)
    ensures UserByte(s, addr) == Some(ByteAt(img, seg, addr))
  {
    HoldsByte(s, l, addr);
    assert addr / 4096 * 4096 + addr % 4096 == addr;
  }

  // ---- The order of loads and segments ----

  ghost predicate DistinctPages(loads: seq<PageLoad>) {
    forall i, j | 0 <= i < j < |loads| :: loads[i].path != loads[j].path
  }

  ghost predicate GoesTo(loads: seq<PageLoad>, q: seq<nat>) {
    exists l :: l in loads && q in TablesOf(l.path)
  }

  lemma {:induction false} LoadTablesMembers(loads: seq<PageLoad>, q: seq<nat>)
    ensures q in LoadTables(loads) <==> GoesTo(loads, q)
  {
    if loads != [] {
      var init, last := loads[..|loads| - 1], loads[|loads| - 1];
      LoadTablesMembers(init, q);
      assert forall l :: l in loads <==> l in init || l == last;
    }
  }

  /** What a load needs does not depend on the order of its pages. */
  lemma NeedPermutes(s: Space, a: seq<PageLoad>, b: seq<PageLoad>)
    requires multiset(a) == multiset(b)
    ensures LoadTables(a) == LoadTables(b) && Need(s, a) == Need(s, b)
  {
    SameMembers(a, b);
    forall q: seq<nat>
      ensures q in LoadTables(a) <==> q in LoadTables(b)
    {
      LoadTablesMembers(a, q);
      LoadTablesMembers(b, q);
      assert GoesTo(a, q) <==> GoesTo(b, q);
    }
  }

  lemma DistinctPermutes(a: seq<PageLoad>, b: seq<PageLoad>)
    requires multiset(a) == multiset(b) && DistinctPages(a)
    ensures DistinctPages(b)
  {
    SameMembers(a, b);
    forall i, j | 0 <= i < j < |b|
      ensures b[i].path != b[j].path
    {
      if b[i] == b[j] {
        SeenTwice(b, i, j);
        var x, y := Twice(a, b[i]);
      } else {
        assert b[i] in a && b[j] in a;
        var x :| 0 <= x < |a| && a[x] == b[i];
        var y :| 0 <= y < |a| && a[y] == b[j];
      }
    }
  }

  /** Loads that user mode can read in full. */
  ghost predicate UserLoads(loads: seq<PageLoad>) {
    forall i | 0 <= i < |loads| ::
      && loads[i].bytes.Some? && |loads[i].bytes.value| == 4096
      && (loads[i].flags == PRESENT + USER || loads[i].flags == PRESENT + WRITE + USER)
  }

  /** A page that is not remapped reads as before. */
  lemma UserByteKept(s: Space, s': Space, addr: Word)
    requires Sound(s) && Sound(s') && Owned(s) && Kept(s, s')
    requires PageMap(s')[PathOf(addr / 4096)] == PageMap(s)[PathOf(addr / 4096)]
    ensures UserByte(s', addr) == UserByte(s, addr)
  {
    var path := PathOf(addr / 4096);
    var e := PageMap(s)[path];
    TranslateIsLeaf(s, path);
    TranslateIsLeaf(s', path);
    if Open(e) { assert SameFrame(s.mem, s'.mem, FrameOf(e)); }
  }

  /** Whether or not there are enough frames, user mode reads outside the loaded pages what it read before. */
  lemma LoadKeepsBytes(s: Space, loads: seq<PageLoad>, addr: Word)
    requires Sound(s) && Owned(s) && NoneAt(loads, PathOf(addr / 4096))
    ensures UserByte(PlaceAll(s, loads), addr) == UserByte(s, addr)
  {
    LoadKeepsOthers(s, loads, PathOf(addr / 4096));
    PlaceAllKeeps(s, loads);
    UserByteKept(s, PlaceAll(s, loads), addr);
  }

  /** What user mode reads after a load of distinct pages: the load that goes there, or what was there before. */
  lemma LoadReads(s: Space, loads: seq<PageLoad>, addr: Word)
    requires Sound(s) && Owned(s) && Need(s, loads) <= |s.free| && DistinctPages(loads) && UserLoads(loads)
    ensures forall l | l in loads && l.path == PathOf(addr / 4096) ::
              UserByte(PlaceAll(s, loads), addr) == Some(l.bytes.value[addr % 4096])
    ensures (forall l | l in loads :: l.path != PathOf(addr / 4096)) ==>
              UserByte(PlaceAll(s, loads), addr) == UserByte(s, addr)
  {
    var path, s' := PathOf(addr / 4096), PlaceAll(s, loads);
    forall l | l in loads && l.path == path
      ensures UserByte(s', addr) == Some(l.bytes.value[addr % 4096])
    {
      var n :| 0 <= n < |loads| && loads[n] == l;
      LoadShowsLast(s, loads, n);
      HoldsByte(s', l, addr);
    }
    if forall l | l in loads :: l.path != path { LoadKeepsBytes(s, loads, addr); }
  }

  /** Distinct pages can be loaded in any order: user mode reads the same everywhere, and the same frames are left. */
  lemma LoadOrderIrrelevant(s: Space, a: seq<PageLoad>, b: seq<PageLoad>, addr: Word)
    requires Sound(s) && Owned(s) && Need(s, a) <= |s.free| && DistinctPages(a) && UserLoads(a)
    requires multiset(a) == multiset(b)
    ensures UserByte(PlaceAll(s, a), addr) == UserByte(PlaceAll(s, b), addr)
    ensures |PlaceAll(s, a).free| == |PlaceAll(s, b).free| && PlaceAll(s, a).tree.Keys == PlaceAll(s, b).tree.Keys
  {
    NeedPermutes(s, a, b);
    PlaceAllSucceeds(s, a);
    PlaceAllSucceeds(s, b);
    OrderReads(s, a, b, addr);
  }

  lemma OrderReads(s: Space, a: seq<PageLoad>, b: seq<PageLoad>, addr: Word)
    requires Sound(s) && Owned(s) && Need(s, a) <= |s.free| && Need(s, b) <= |s.free| && DistinctPages(a)
    requires UserLoads(a)
    requires multiset(a) == multiset(b)
    ensures UserByte(PlaceAll(s, a), addr) == UserByte(PlaceAll(s, b), addr)
  {
    SameMembers(a, b);
    DistinctPermutes(a, b);
    assert UserLoads(b) by {
      forall i | 0 <= i < |b| ensures b[i] in a {}
    }
    LoadReads(s, a, addr);
    LoadReads(s, b, addr);
    if l :| l in a && l.path == PathOf(addr / 4096) { assert l in b; }
  }

  /** No page belongs to two segments. */
  ghost predicate DisjointSegments(segs: seq<Segment>) {
    forall i, j, path: Path | 0 <= i < j < |segs| :: !(Covers(segs[i], path) && Covers(segs[j], path))
  }

  lemma CoversLoad(img: Image, seg: Segment, i: nat)
    requires i < PageCount(seg)
    ensures Covers(seg, SegmentLoads(img, seg)[i].path)
  {
    SegmentLoadAt(img, seg, i);
  }

  ghost predicate ApartParts(parts: seq<seq<PageLoad>>) {
    && (forall k | 0 <= k < |parts| :: DistinctPages(parts[k]))
    && (forall k, m, i, j | 0 <= k < m < |parts| && 0 <= i < |parts[k]| && 0 <= j < |parts[m]| ::
          parts[k][i].path != parts[m][j].path)
  }

  lemma {:induction false} ConcatDistinct(parts: seq<seq<PageLoad>>)
    requires ApartParts(parts)
    ensures DistinctPages(Concat(parts))
  {
    if parts != [] {
      var init, last := parts[..|parts| - 1], parts[|parts| - 1];
      ConcatDistinct(init);
      forall n: nat, m: nat | n < |Concat(init)| && m < |last|
        ensures Concat(init)[n].path != last[m].path
      {
        var k, i := InConcat(init, n);
      }
    }
  }

  lemma ImageDistinct(img: Image, segs: seq<Segment>)
    requires DisjointSegments(segs) && |ImageLoads(img, segs)| <= PAGES
    ensures DistinctPages(ImageLoads(img, segs))
  {
    var parts := Parts(img, segs);
    forall k | 0 <= k < |parts|
      ensures DistinctPages(parts[k])
    {
      PartSize(parts, k);
      forall i, j | 0 <= i < j < |parts[k]|
        ensures parts[k][i].path != parts[k][j].path
      {
        SegmentPagesDistinct(img, segs[k], i, j);
      }
    }
    forall k, m, i, j | 0 <= k < m < |parts| && 0 <= i < |parts[k]| && 0 <= j < |parts[m]|
      ensures parts[k][i].path != parts[m][j].path
    {
      CoversLoad(img, segs[k], i);
      CoversLoad(img, segs[m], j);
    }
    ConcatDistinct(parts);
  }

  lemma ImageUserLoads(img: Image, segs: seq<Segment>)
    ensures UserLoads(ImageLoads(img, segs))
  {
    var loads := ImageLoads(img, segs);
    forall n | 0 <= n < |loads|
      ensures && loads[n].bytes.Some? && |loads[n].bytes.value| == 4096
              && (loads[n].flags == PRESENT + USER || loads[n].flags == PRESENT + WRITE + USER)
    {
      var k, i := InConcat(Parts(img, segs), n);
      SegmentLoadAt(img, segs[k], i);
    }
  }

  /** When no two segments share a page, the order of the program headers does not matter. */
  lemma SegmentOrderIrrelevant(s: Space, img: Image, segs: seq<Segment>, segs': seq<Segment>, addr: Word)
    requires Sound(s) && Owned(s) && Need(s, ImageLoads(img, segs)) <= |s.free|
    requires DisjointSegments(segs) && multiset(segs) == multiset(segs')
    ensures UserByte(PlaceAll(s, ImageLoads(img, segs)), addr) == UserByte(PlaceAll(s, ImageLoads(img, segs')), addr)
    ensures |PlaceAll(s, ImageLoads(img, segs)).free| == |PlaceAll(s, ImageLoads(img, segs')).free|
  {
    FreeBound(s);
    ImageDistinct(img, segs);
    ImageUserLoads(img, segs);
    MapPermutes(PartOf(img), segs, segs');
    ConcatPermutes(Parts(img, segs), Parts(img, segs'));
    LoadOrderIrrelevant(s, ImageLoads(img, segs), ImageLoads(img, segs'), addr);
  }
}
