/**
 What the bytes of an ELF file mean (System V gABI, chapter 4, "ELF Header", and chapter 5, "Program Header"): an
 encoder for the headers, and what elf_load makes of a file that holds its output.
 */
module ElfFormat {
  import opened Bits
  import opened Bytes
  import opened PageTables
  import opened Mapping
  import opened Loading
  import opened Elf
  import opened ProgramImage
  import opened ExecCycle

  /** A 16-bit number. */
  type Short = x: nat | x < 0x1_0000

  type Ident = s: seq<Byte> | |s| == 16 witness seq(16, _ => 0)

  /** Elf64_Ehdr. */
  datatype FileHeader = FileHeader(
    ident: Ident, kind: Short, machine: Short, version: Half, entry: Word, phoff: Word, shoff: Word, flags: Half,
    ehsize: Short, phentsize: Short, phnum: Short, shentsize: Short, shnum: Short, shstrndx: Short)

  /** Elf64_Phdr. */
  datatype ProgramHeader = ProgramHeader(
    kind: Half, flags: Half, offset: Word, vaddr: Word, paddr: Word, filesz: Word, memsz: Word, align: Word)

  /** The fields in their order, in three parts. */
  function HeaderBytes(h: FileHeader): seq<Byte> {
    h.ident + (LittleEndian(h.kind, 2) + (LittleEndian(h.machine, 2) + (LittleEndian(h.version, 4) + Places(h))))
  }

  function Places(h: FileHeader): seq<Byte> {
    LittleEndian(h.entry, 8) + (LittleEndian(h.phoff, 8) + (LittleEndian(h.shoff, 8) + (LittleEndian(h.flags, 4) +
    Counts(h))))
  }

  function Counts(h: FileHeader): seq<Byte> {
    LittleEndian(h.ehsize, 2) + (LittleEndian(h.phentsize, 2) + (LittleEndian(h.phnum, 2) +
    (LittleEndian(h.shentsize, 2) + (LittleEndian(h.shnum, 2) + LittleEndian(h.shstrndx, 2)))))
  }

  function ProgramBytes(p: ProgramHeader): seq<Byte> {
    LittleEndian(p.kind, 4) + (LittleEndian(p.flags, 4) + (LittleEndian(p.offset, 8) + (LittleEndian(p.vaddr, 8) +
    Sizes(p))))
  }

  function Sizes(p: ProgramHeader): seq<Byte> {
    LittleEndian(p.paddr, 8) + (LittleEndian(p.filesz, 8) + (LittleEndian(p.memsz, 8) + LittleEndian(p.align, 8)))
  }

  /** The image holds this header and, where the header says, these program headers, all within its size. */
  predicate Encoded(img: Image, size: Word, h: FileHeader, ps: seq<ProgramHeader>) {
    && HoldsAt(img, 0, HeaderBytes(h)) && |ps| == h.phnum && TableWithin(h, size)
    && forall i | 0 <= i < |ps| :: HoldsEntry(img, h, i, ps[i])
  }

  predicate TableWithin(h: FileHeader, size: Word) {
    h.phoff + h.phnum * h.phentsize <= size
  }

  predicate HoldsEntry(img: Image, h: FileHeader, i: nat, p: ProgramHeader) {
    HoldsAt(img, h.phoff + i * h.phentsize, ProgramBytes(p))
  }

  // ---- Reading back ----

  lemma ReadsPlaces(img: Image, a: nat, h: FileHeader)
    requires HoldsAt(img, a, Places(h))
    ensures U64(img, a) == h.entry && U64(img, a + 8) == h.phoff && HoldsAt(img, a + 28, Counts(h))
  {
    var c := LittleEndian(h.flags, 4) + Counts(h);
    var b := LittleEndian(h.shoff, 8) + c;
    HoldsCat(img, a, LittleEndian(h.entry, 8), LittleEndian(h.phoff, 8) + b);
    HoldsCat(img, a + 8, LittleEndian(h.phoff, 8), b);
    HoldsCat(img, a + 16, LittleEndian(h.shoff, 8), c);
    HoldsCat(img, a + 24, LittleEndian(h.flags, 4), Counts(h));
    Read64(img, a, h.entry);
    Read64(img, a + 8, h.phoff);
  }

  lemma ReadsCounts(img: Image, a: nat, h: FileHeader)
    requires HoldsAt(img, a, Counts(h))
    ensures U16(img, a + 2) == h.phentsize && U16(img, a + 4) == h.phnum
  {
    var c := LittleEndian(h.shentsize, 2) + (LittleEndian(h.shnum, 2) + LittleEndian(h.shstrndx, 2));
    var b := LittleEndian(h.phnum, 2) + c;
    HoldsCat(img, a, LittleEndian(h.ehsize, 2), LittleEndian(h.phentsize, 2) + b);
    HoldsCat(img, a + 2, LittleEndian(h.phentsize, 2), b);
    HoldsCat(img, a + 4, LittleEndian(h.phnum, 2), c);
    Read16(img, a + 2, h.phentsize);
    Read16(img, a + 4, h.phnum);
  }

  lemma ReadsHeader(img: Image, h: FileHeader)
    requires HoldsAt(img, 0, HeaderBytes(h))
    ensures HoldsAt(img, 0, h.ident) && U16(img, 16) == h.kind && U16(img, 18) == h.machine
    ensures HoldsAt(img, 24, Places(h))
  {
    var c := LittleEndian(h.version, 4) + Places(h);
    var b := LittleEndian(h.machine, 2) + c;
    HoldsCat(img, 0, h.ident, LittleEndian(h.kind, 2) + b);
    HoldsCat(img, 16, LittleEndian(h.kind, 2), b);
    HoldsCat(img, 18, LittleEndian(h.machine, 2), c);
    HoldsCat(img, 20, LittleEndian(h.version, 4), Places(h));
    Read16(img, 16, h.kind);
    Read16(img, 18, h.machine);
  }

  /** The loader finds the entry point and the program header table. */
  lemma HeaderDecoded(img: Image, h: FileHeader)
    requires HoldsAt(img, 0, HeaderBytes(h))
    ensures Entry(img) == h.entry && PhOff(img) == h.phoff && PhEntSize(img) == h.phentsize && PhNum(img) == h.phnum
  {
    ReadsHeader(img, h);
    ReadsPlaces(img, 24, h);
    ReadsCounts(img, 52, h);
  }

  /** The identification of a 64-bit little-endian file. */
  predicate Elf64Little(ident: Ident) {
    && ident[0] == 0x7f && ident[1] == 'E' as nat && ident[2] == 'L' as nat && ident[3] == 'F' as nat
    && ident[4] == 2 && ident[5] == 1
  }

  lemma ReadsIdent(img: Image, ident: Ident)
    requires HoldsAt(img, 0, ident)
    ensures Elf64Little(ident) <==> (forall i | 0 <= i < 4 :: img(i) == ELF_MAGIC[i]) && img(4) == 2 && img(5) == 1
  {
    forall i | 0 <= i < 6 ensures img(i) == ident[i] { assert img(0 + i) == ident[i]; }
    assert ELF_MAGIC == [0x7f, 'E' as nat, 'L' as nat, 'F' as nat];
  }

  /** A table of n entries within the image: its arithmetic does not wrap around. */
  lemma InTable(off: nat, i: nat, n: nat, step: nat, size: Word)
    requires i <= n && off + n * step <= size
    ensures (off + i * step) % WORD == off + i * step
  {
    var x := i * step;
    assert x + (n - i) * step == n * step;
    assert off + x < WORD;
  }

  /** The program header table ends there. */
  predicate TableEnds(h: FileHeader, end: nat) {
    end == h.phoff + h.phnum * h.phentsize
  }

  lemma TableEnd(img: Image, size: Word, off: nat, n: nat, step: nat, end: nat)
    requires PhOff(img) == off && PhNum(img) == n && PhEntSize(img) == step && end == off + n * step
    ensures Loadable(img, size) <==> ValidHeader(img, size) && end % WORD <= size
  {
  }

  /** The end is at most one round of the 64-bit address space too far. */
  lemma OneRound(h: FileHeader, end: nat)
    requires TableEnds(h, end)
    ensures end < 2 * WORD && end % WORD == if end < WORD then end else end - WORD
  {
    assert h.phnum * h.phentsize <= 0xFFFF * 0xFFFF by { Products(h.phnum, h.phentsize); }
  }

  lemma Products(a: nat, b: nat)
    requires a <= 0xFFFF && b <= 0xFFFF
    ensures a * b <= 0xFFFF * 0xFFFF
  {
    var c := 0xFFFF - b;
    assert a * 0xFFFF == a * b + a * c;
  }

  /** An executable for this machine, as far as its header says. */
  predicate Executable(h: FileHeader) {
    Elf64Little(h.ident) && h.kind == 2 && h.machine == 62
  }

  lemma ValidDecoded(img: Image, size: Word, h: FileHeader)
    requires HoldsAt(img, 0, HeaderBytes(h))
    ensures ValidHeader(img, size) <==> size >= 64 && Executable(h)
  {
    ReadsHeader(img, h);
    ReadsIdent(img, h.ident);
  }

  /**
   The loader accepts exactly executable little-endian 64-bit files for x86-64 that hold a header and, as far as a sum
   modulo 2^64 tells, their program header table. So it decides as it is meant to unless that sum wraps around.
   */
  lemma AcceptedIff(img: Image, size: Word, h: FileHeader, end: nat)
    requires HoldsAt(img, 0, HeaderBytes(h)) && TableEnds(h, end)
    ensures Loadable(img, size) <==> size >= 64 && Executable(h) && end % WORD <= size
    ensures (Loadable(img, size) <==> size >= 64 && Executable(h) && end <= size) <==>
            !(size >= 64 && Executable(h) && WORD <= end <= size + WORD)
  {
    HeaderDecoded(img, h);
    ValidDecoded(img, size, h);
    TableEnd(img, size, h.phoff, h.phnum, h.phentsize, end);
    OneRound(h, end);
  }

  /** The segment is the one the program header describes. */
  predicate Describes(p: ProgramHeader, seg: Segment) {
    && seg.flags == p.flags && seg.offset == p.offset && seg.vaddr == p.vaddr
    && seg.filesz == p.filesz && seg.memsz == p.memsz
  }

  lemma ReadsSizes(img: Image, a: nat, p: ProgramHeader)
    requires HoldsAt(img, a, Sizes(p))
    ensures U64(img, a + 8) == p.filesz && U64(img, a + 16) == p.memsz
  {
    var b := LittleEndian(p.memsz, 8) + LittleEndian(p.align, 8);
    HoldsCat(img, a, LittleEndian(p.paddr, 8), LittleEndian(p.filesz, 8) + b);
    HoldsCat(img, a + 8, LittleEndian(p.filesz, 8), b);
    HoldsCat(img, a + 16, LittleEndian(p.memsz, 8), LittleEndian(p.align, 8));
    Read64(img, a + 8, p.filesz);
    Read64(img, a + 16, p.memsz);
  }

  lemma ReadsProgram(img: Image, a: nat, p: ProgramHeader)
    requires HoldsAt(img, a, ProgramBytes(p))
    ensures U32(img, a) == p.kind && Describes(p, SegmentAt(img, a))
  {
    var c := LittleEndian(p.vaddr, 8) + Sizes(p);
    var b := LittleEndian(p.offset, 8) + c;
    HoldsCat(img, a, LittleEndian(p.kind, 4), LittleEndian(p.flags, 4) + b);
    HoldsCat(img, a + 4, LittleEndian(p.flags, 4), b);
    HoldsCat(img, a + 8, LittleEndian(p.offset, 8), c);
    HoldsCat(img, a + 16, LittleEndian(p.vaddr, 8), Sizes(p));
    Read32(img, a, p.kind);
    Read32(img, a + 4, p.flags);
    Read64(img, a + 8, p.offset);
    Read64(img, a + 16, p.vaddr);
    ReadsSizes(img, a + 24, p);
  }

  /** The header is marked PT_LOAD. */
  predicate Loads(p: ProgramHeader) {
    p.kind == 1
  }

  /** How many of the first k headers are. */
  function Rank(ps: seq<ProgramHeader>, k: nat): nat
    requires k <= |ps|
  {
    if k == 0 then 0 else Rank(ps, k - 1) + if Loads(ps[k - 1]) then 1 else 0
  }

  lemma {:induction false} RankGrows(ps: seq<ProgramHeader>, j: nat, k: nat)
    requires j < k <= |ps| && Loads(ps[j])
    ensures Rank(ps, j) < Rank(ps, k)
  {
    if j < k - 1 { RankGrows(ps, j, k - 1); }
  }

  /** The first n headers give these segments, in order. */
  predicate Matches(ps: seq<ProgramHeader>, n: nat, segs: seq<Segment>)
    requires n <= |ps|
  {
    && |segs| == Rank(ps, n)
    && forall k | 0 <= k < n && Loads(ps[k]) :: Rank(ps, k) < |segs| && Describes(ps[k], segs[Rank(ps, k)])
  }

  lemma TableAt(img: Image, off: nat, i: nat, n: nat, step: nat, size: Word)
    requires PhOff(img) == off && PhEntSize(img) == step && i < n && off + n * step <= size
    ensures PhAt(img, i) == off + i * step
  {
    InTable(off, i, n, step, size);
  }

  /** The program header is read at this offset. */
  predicate ReadAt(img: Image, a: nat, p: ProgramHeader) {
    U32(img, a) == p.kind && Describes(p, SegmentAt(img, a))
  }

  lemma ReadsEntry(img: Image, size: Word, h: FileHeader, i: nat, p: ProgramHeader)
    requires HoldsAt(img, 0, HeaderBytes(h)) && TableWithin(h, size) && i < h.phnum && HoldsEntry(img, h, i, p)
    ensures ReadAt(img, PhAt(img, i), p)
  {
    HeaderDecoded(img, h);
    TableAt(img, h.phoff, i, h.phnum, h.phentsize, size);
    ReadsProgram(img, h.phoff + i * h.phentsize, p);
  }

  /** The segments of the program headers at these offsets. */
  function SegmentsFrom(img: Image, at: seq<nat>): seq<Segment> {
    if at == [] then []
    else SegmentsFrom(img, at[..|at| - 1]) + if U32(img, at[|at| - 1]) == 1 then [SegmentAt(img, at[|at| - 1])] else []
  }

  lemma {:induction false} SegmentsTable(img: Image, n: nat, at: seq<nat>)
    requires |at| == n && forall i | 0 <= i < n :: at[i] == PhAt(img, i)
    ensures Segments(img, n) == SegmentsFrom(img, at)
  {
    if n > 0 { SegmentsTable(img, n - 1, at[..n - 1]); }
  }

  lemma {:induction false} SegmentsMatch(img: Image, at: seq<nat>, ps: seq<ProgramHeader>)
    requires |at| == |ps| && forall i | 0 <= i < |ps| :: ReadAt(img, at[i], ps[i])
    ensures Matches(ps, |ps|, SegmentsFrom(img, at))
  {
    if ps != [] {
      var init, last := ps[..|ps| - 1], ps[|ps| - 1];
      SegmentsMatch(img, at[..|ps| - 1], init);
      MatchesLonger(ps, SegmentsFrom(img, at[..|ps| - 1]));
      FromNext(img, at, last);
      MatchesNext(ps, |ps|, SegmentsFrom(img, at[..|ps| - 1]), SegmentsFrom(img, at));
    }
  }

  lemma FromNext(img: Image, at: seq<nat>, p: ProgramHeader)
    requires at != [] && ReadAt(img, at[|at| - 1], p)
    ensures Adds(p, SegmentsFrom(img, at[..|at| - 1]), SegmentsFrom(img, at))
  {
  }

  lemma {:induction false} RankPrefix(ps: seq<ProgramHeader>, n: nat, k: nat)
    requires k <= n <= |ps|
    ensures Rank(ps[..n], k) == Rank(ps, k)
  {
    if k > 0 { RankPrefix(ps, n, k - 1); }
  }

  lemma MatchesLonger(ps: seq<ProgramHeader>, segs: seq<Segment>)
    requires ps != [] && Matches(ps[..|ps| - 1], |ps| - 1, segs)
    ensures Matches(ps, |ps| - 1, segs)
  {
    forall k: nat | k <= |ps| - 1
      ensures Rank(ps[..|ps| - 1], k) == Rank(ps, k)
    {
      RankPrefix(ps, |ps| - 1, k);
    }
  }

  /** The segments are those of the PT_LOAD headers, in table order. */
  lemma SegmentsDecoded(img: Image, size: Word, h: FileHeader, ps: seq<ProgramHeader>)
    requires Encoded(img, size, h, ps)
    ensures PhNum(img) == |ps| && Matches(ps, |ps|, Segments(img, PhNum(img)))
  {
    HeaderDecoded(img, h);
    var at := seq(|ps|, i requires 0 <= i < |ps| => PhAt(img, i));
    forall i | 0 <= i < |ps|
      ensures ReadAt(img, at[i], ps[i])
    {
      ReadsEntry(img, size, h, i, ps[i]);
    }
    SegmentsTable(img, |ps|, at);
    SegmentsMatch(img, at, ps);
  }

  /** One more header adds its segment, if it has one. */
  predicate Adds(p: ProgramHeader, segs: seq<Segment>, segs': seq<Segment>) {
    if Loads(p) then |segs'| == |segs| + 1 && segs'[..|segs|] == segs && Describes(p, segs'[|segs|]) else segs' == segs
  }

  lemma MatchesNext(ps: seq<ProgramHeader>, n: nat, segs: seq<Segment>, segs': seq<Segment>)
    requires 0 < n <= |ps| && Matches(ps, n - 1, segs)
    requires Adds(ps[n - 1], segs, segs')
    ensures Matches(ps, n, segs')
  {
    forall k | 0 <= k < n && Loads(ps[k])
      ensures Rank(ps, k) < |segs'| && Describes(ps[k], segs'[Rank(ps, k)])
    {
      if k < n - 1 { assert segs'[Rank(ps, k)] == segs[Rank(ps, k)]; }
    }
  }

  /** Every segment comes from a header. */
  lemma {:induction false} Unrank(ps: seq<ProgramHeader>, n: nat, m: nat) returns (k: nat)
    requires n <= |ps| && m < Rank(ps, n)
    ensures k < n && Loads(ps[k]) && Rank(ps, k) == m
  {
    if Loads(ps[n - 1]) && Rank(ps, n - 1) == m { k := n - 1; } else { k := Unrank(ps, n - 1, m); }
  }

  // ---- The loaded program ----

  /** The page holds an address of the header's memory, or the address it starts at. */
  predicate Touches(p: ProgramHeader, page: nat) {
    Loads(p) && page * 4096 < p.vaddr + p.memsz && p.vaddr < (page + 1) * 4096
  }

  /** File data within the image, no more of it than memory, and memory within the 48-bit address space. */
  predicate Sensible(p: ProgramHeader, size: Word) {
    p.filesz <= p.memsz && p.offset + p.filesz <= size && p.vaddr + p.memsz <= 0x1_0000_0000_0000
  }

  /** A well-formed program. */
  predicate Program(img: Image, size: Word, h: FileHeader, ps: seq<ProgramHeader>) {
    Encoded(img, size, h, ps) && AllSensible(ps, size)
  }

  /** The k-th header is the last whose memory is on the page. */
  predicate LastOn(ps: seq<ProgramHeader>, k: nat, page: nat) {
    k < |ps| && Touches(ps[k], page) && forall j | k < j < |ps| :: !Touches(ps[j], page)
  }

  /** The byte the file gives to an address: data where there is any, zero elsewhere. */
  function FileByte(img: Image, p: ProgramHeader, addr: nat): Byte {
    if p.vaddr <= addr < p.vaddr + p.filesz then img(p.offset + (addr - p.vaddr)) else 0
  }

  lemma DescribedPages(p: ProgramHeader, seg: Segment, size: Word, page: nat)
    requires Loads(p) && Sensible(p, size) && Describes(p, seg)
    ensures FirstPage(seg) <= page < FirstPage(seg) + PageCount(seg) <==> Touches(p, page)
    ensures Touches(p, page) ==> page < PAGES
  {
  }

  lemma DescribedByte(img: Image, p: ProgramHeader, seg: Segment, size: Word, addr: Word)
    requires Loads(p) && Sensible(p, size) && Describes(p, seg)
    ensures ByteAt(img, seg, addr) == FileByte(img, p, addr)
  {
  }

  lemma DescribedCover(p: ProgramHeader, seg: Segment, size: Word, page: nat)
    requires Loads(p) && Sensible(p, size) && Describes(p, seg) && page < PAGES
    ensures Covers(seg, PathOf(page)) <==> Touches(p, page)
  {
    DescribedPages(p, seg, size, page);
    forall q: nat | FirstPage(seg) <= q < FirstPage(seg) + PageCount(seg) && PathOf(q) == PathOf(page)
      ensures q == page
    {
      DescribedPages(p, seg, size, q);
      SamePage(q, page);
    }
  }

  /** Segment m is the last that covers the page of the address, and gives it the header's byte. */
  ghost predicate LastSegment(img: Image, segs: seq<Segment>, m: nat, p: ProgramHeader, addr: Word) {
    && m < |segs| && FirstPage(segs[m]) <= addr / 4096 < FirstPage(segs[m]) + PageCount(segs[m])
    && (forall j | m < j < |segs| :: !Covers(segs[j], PathOf(addr / 4096)))
    && ByteAt(img, segs[m], addr) == FileByte(img, p, addr) && segs[m].flags == p.flags
  }

  /** The last header on a page is the last segment that covers it. */
  lemma LastDecoded(img: Image, size: Word, h: FileHeader, ps: seq<ProgramHeader>, k: nat, addr: Word)
    requires Program(img, size, h, ps) && LastOn(ps, k, addr / 4096)
    ensures LastSegment(img, Segments(img, PhNum(img)), Rank(ps, k), ps[k], addr)
  {
    SegmentsDecoded(img, size, h, ps);
    LastMatches(img, size, ps, Segments(img, |ps|), k, addr);
  }

  predicate AllSensible(ps: seq<ProgramHeader>, size: Word) {
    forall i | 0 <= i < |ps| :: Loads(ps[i]) ==> Sensible(ps[i], size)
  }

  lemma LastMatches(img: Image, size: Word, ps: seq<ProgramHeader>, segs: seq<Segment>, k: nat, addr: Word)
    requires AllSensible(ps, size) && Matches(ps, |ps|, segs) && LastOn(ps, k, addr / 4096)
    ensures LastSegment(img, segs, Rank(ps, k), ps[k], addr)
  {
    var page := addr / 4096;
    DescribedPages(ps[k], segs[Rank(ps, k)], size, page);
    DescribedByte(img, ps[k], segs[Rank(ps, k)], size, addr);
    forall m | Rank(ps, k) < m < |segs|
      ensures !Covers(segs[m], PathOf(page))
    {
      NotLater(size, ps, segs, k, page, m);
    }
  }

  lemma NotLater(size: Word, ps: seq<ProgramHeader>, segs: seq<Segment>, k: nat, page: nat, m: nat)
    requires AllSensible(ps, size) && Matches(ps, |ps|, segs) && LastOn(ps, k, page) && page < PAGES
    requires Rank(ps, k) < m < |segs|
    ensures !Covers(segs[m], PathOf(page))
  {
    var j := Unrank(ps, |ps|, m);
    if j < k { RankGrows(ps, j, k); }
    DescribedCover(ps[j], segs[m], size, page);
  }

  /**
   A loaded program means what its file says: with frames for all of it, user mode reads at every address of a page that
   a PT_LOAD header is on the byte the last such header gives it, and may write there exactly if that header has PF_W.
   */
  lemma ProgramLoaded(s: Space, img: Image, size: Word, h: FileHeader, ps: seq<ProgramHeader>, k: nat, addr: Word)
    requires Program(img, size, h, ps) && LastOn(ps, k, addr / 4096)
    requires Sound(s) && Need(s, ElfLoads(img)) <= |s.free|
    ensures UserByte(PlaceAll(s, ElfLoads(img)), addr) == Some(FileByte(img, ps[k], addr))
    ensures var t := Translate(PlaceAll(s, ElfLoads(img)), PathOf(addr / 4096));
            t.Mapped? && t.user && (t.writable <==> ps[k].flags / 2 % 2 == 1)
  {
    LastDecoded(img, size, h, ps, k, addr);
    SegmentLoaded(s, img, Segments(img, PhNum(img)), Rank(ps, k), ps[k], addr);
  }

  lemma SegmentLoaded(s: Space, img: Image, segs: seq<Segment>, m: nat, p: ProgramHeader, addr: Word)
    requires LastSegment(img, segs, m, p, addr) && Sound(s) && Need(s, ImageLoads(img, segs)) <= |s.free|
    ensures UserByte(PlaceAll(s, ImageLoads(img, segs)), addr) == Some(FileByte(img, p, addr))
    ensures var t := Translate(PlaceAll(s, ImageLoads(img, segs)), PathOf(addr / 4096));
            t.Mapped? && t.user && (t.writable <==> p.flags / 2 % 2 == 1)
  {
    LoadedByte(s, img, segs, m, addr);
    LoadedRights(s, img, segs, m, addr);
  }

  lemma LoadedRights(s: Space, img: Image, segs: seq<Segment>, k: nat, addr: Word)
    requires Sound(s) && Need(s, ImageLoads(img, segs)) <= |s.free| && k < |segs|
    requires FirstPage(segs[k]) <= addr / 4096 < FirstPage(segs[k]) + PageCount(segs[k])
    requires forall j | k < j < |segs| :: !Covers(segs[j], PathOf(addr / 4096))
    ensures var t := Translate(PlaceAll(s, ImageLoads(img, segs)), PathOf(addr / 4096));
            t.Mapped? && t.user && (t.writable <==> segs[k].flags / 2 % 2 == 1)
  {
    var s' := PlaceAll(s, ImageLoads(img, segs));
    var i, l := PageIndex(img, segs[k], addr);
    LoadedPage(s, img, segs, k, i, l);
    TranslateIsLeaf(s', l.path);
    FlagsOpen(PageMap(s')[l.path]);
  }

  /** On every other page user mode reads what it read before, whether or not there are frames for the program. */
  lemma ProgramElsewhere(s: Space, img: Image, size: Word, h: FileHeader, ps: seq<ProgramHeader>, page: nat)
    requires Program(img, size, h, ps) && page < PAGES && Sound(s)
    requires forall k | 0 <= k < |ps| :: !Touches(ps[k], page)
    ensures Translate(PlaceAll(s, ElfLoads(img)), PathOf(page)) == Translate(s, PathOf(page))
  {
    SegmentsDecoded(img, size, h, ps);
    var segs := Segments(img, |ps|);
    forall m | 0 <= m < |segs|
      ensures !Covers(segs[m], PathOf(page))
    {
      var j := Unrank(ps, |ps|, m);
      DescribedCover(ps[j], segs[m], size, page);
    }
    ImageNoneAt(img, segs, PathOf(page));
    LoadKeepsOthers(s, ElfLoads(img), PathOf(page));
    TranslateIsLeaf(s, PathOf(page));
    TranslateIsLeaf(PlaceAll(s, ElfLoads(img)), PathOf(page));
  }

  /** After a cycle user mode reads the shell's file again, byte by byte. */
  lemma CycleRestoresFile(s: Space, child: Image, ran: Space, img: Image, size: Word, h: FileHeader,
                          ps: seq<ProgramHeader>, s': Space, k: nat, addr: Word)
    requires Cycle(s, child, ran, img, s') && Program(img, size, h, ps) && LastOn(ps, k, addr / 4096)
    ensures UserByte(s', addr) == Some(FileByte(img, ps[k], addr))
  {
    LastDecoded(img, size, h, ps, k, addr);
    CycleRestoresShell(s, child, ran, img, s', Rank(ps, k), addr);
  }

  /**
   After a successful exec the child reads its own file: on every page that is not in its stack, the byte the last
   PT_LOAD header there gives it.
   */
  lemma ChildReadsFile(s: Space, img: Image, size: Word, h: FileHeader, ps: seq<ProgramHeader>, k: nat, addr: Word)
    requires Program(img, size, h, ps) && LastOn(ps, k, addr / 4096) && !(0x900000 <= addr < 0x902000)
    requires Sound(s) && Owned(s) && Need(s, ExecLoads(img)) <= |s.free|
    ensures UserByte(PlaceAll(s, ExecLoads(img)), addr) == Some(FileByte(img, ps[k], addr))
  {
    ElfNeeds(s, img);
    ProgramLoaded(s, img, size, h, ps, k, addr);
    DescribesLow(ps[k], size, addr / 4096);
    StackKeeps(s, img, addr);
  }

  lemma DescribesLow(p: ProgramHeader, size: Word, page: nat)
    requires Loads(p) && Sensible(p, size) && Touches(p, page)
    ensures page < PAGES
  {
  }

  lemma ElfThenStack(s: Space, img: Image) returns (s1: Space)
    requires Sound(s) && Owned(s)
    ensures s1 == PlaceAll(s, ElfLoads(img)) && Sound(s1) && Owned(s1)
    ensures PlaceAll(s, ExecLoads(img)) == PlaceAll(s1, [StackLoad(0), StackLoad(1)])
  {
    s1 := PlaceAll(s, ElfLoads(img));
    ImageFlags(img, Segments(img, PhNum(img)));
    PlaceAllOwned(s, ElfLoads(img));
    PlaceAllAppends(s, ElfLoads(img), [StackLoad(0), StackLoad(1)]);
  }

  /** The stack's pages leave the others as the image left them. */
  lemma StackKeeps(s: Space, img: Image, addr: Word)
    requires Sound(s) && Owned(s) && addr / 4096 < PAGES && !(0x900000 <= addr < 0x902000)
    ensures UserByte(PlaceAll(s, ExecLoads(img)), addr) == UserByte(PlaceAll(s, ElfLoads(img)), addr)
  {
    var s1 := ElfThenStack(s, img);
    OffStack(addr);
    LoadKeepsBytes(s1, [StackLoad(0), StackLoad(1)], addr);
  }

  lemma OffStack(addr: Word)
    requires addr / 4096 < PAGES && !(0x900000 <= addr < 0x902000)
    ensures NoneAt([StackLoad(0), StackLoad(1)], PathOf(addr / 4096))
  {
    SamePage(0x900, addr / 4096);
    SamePage(0x901, addr / 4096);
  }
}
