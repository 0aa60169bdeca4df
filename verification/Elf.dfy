/**
 ELF images (kernel/src/elf.c, kernel/src/elf.h): the checks on the header, the loadable
 segments of the program header table, and the bytes each page of a segment is to hold.
 An image is given by what is read at each offset from its start; nothing is assumed about it.
 */
module Elf {
  import opened Bits
  import opened Bytes
  import opened Folding
  import opened PageTables
  import opened Mapping
  import opened Loading

  type Image = Store

  const EHDR_SIZE := 64
  const PT_LOAD := 1
  const ELF_MAGIC: seq<Byte> := [0x7f, 0x45, 0x4c, 0x46]

  function Entry(img: Image): Word { U64(img, 24) }
  function PhOff(img: Image): Word { U64(img, 32) }
  function PhEntSize(img: Image): Half { U16(img, 54) }
  function PhNum(img: Image): Half { U16(img, 56) }

  /** elf_validate: ELF64, little-endian, executable, x86-64. */
  predicate ValidHeader(img: Image, size: Word) {
    && size >= EHDR_SIZE
    && (forall i | 0 <= i < 4 :: img(i) == ELF_MAGIC[i])
    && img(4) == 2 && img(5) == 1
    && U16(img, 16) == 2
    && U16(img, 18) == 62
  }

  /** The header is accepted and the program header table, in 64-bit arithmetic, ends within the image. */
  predicate Loadable(img: Image, size: Word) {
    ValidHeader(img, size) && (PhOff(img) + PhNum(img) * PhEntSize(img)) % WORD <= size
  }

  datatype Segment = Segment(flags: Half, offset: Word, vaddr: Word, filesz: Word, memsz: Word)

  /** Where program header `i` is read. */
  function PhAt(img: Image, i: nat): nat {
    (PhOff(img) + i * PhEntSize(img)) % WORD
  }

  function SegmentAt(img: Image, o: nat): Segment {
    Segment(U32(img, o + 4), U64(img, o + 8), U64(img, o + 16), U64(img, o + 32), U64(img, o + 40))
  }

  /** The loadable segments among the first `n` program headers, in table order. */
  function Segments(img: Image, n: nat): seq<Segment> {
    if n == 0 then []
    else Segments(img, n - 1) +
         if U32(img, PhAt(img, n - 1)) == PT_LOAD then [SegmentAt(img, PhAt(img, n - 1))] else []
  }

  // ---- The pages of one segment ----

  function FirstPage(seg: Segment): nat { seg.vaddr / 4096 }

  function EndPage(seg: Segment): nat {
    (seg.vaddr + seg.memsz + 0xFFF) % WORD / 4096
  }

  function PageCount(seg: Segment): nat {
    if FirstPage(seg) < EndPage(seg) then EndPage(seg) - FirstPage(seg) else 0
  }

  function DataEnd(seg: Segment): Word {
    (seg.vaddr + seg.filesz) % WORD
  }

  /** The byte the segment puts at an address: file data where there is any, zero elsewhere. */
  function ByteAt(img: Image, seg: Segment, addr: nat): Byte {
    if seg.vaddr <= addr < DataEnd(seg) then img((seg.offset + (addr - seg.vaddr)) % WORD) else 0
  }

  function PageBytes(img: Image, seg: Segment, page: nat): (bytes: seq<Byte>)
    ensures |bytes| == 4096
  {
    seq<Byte>(4096, i requires 0 <= i < 4096 => ByteAt(img, seg, page * 4096 + i))
  }

  /** Present, open to user mode, and writable if the segment is. */
  function SegmentFlags(seg: Segment): (flags: Half)
    ensures flags < 4096
  {
    PRESENT + USER + if seg.flags / 2 % 2 == 1 then WRITE else 0
  }

  /** Page `i` of a segment. */
  function SegmentLoad(img: Image, seg: Segment, i: nat): PageLoad {
    var page := FirstPage(seg) + i;
    PageLoad(PathOf(page), Some(PageBytes(img, seg, page)), SegmentFlags(seg))
  }

  function SegmentLoader(img: Image, seg: Segment): Loads {
    (i: nat) => SegmentLoad(img, seg, i)
  }

  /** The pages of a segment, in the order load_segment places them. */
  function SegmentLoads(img: Image, seg: Segment): seq<PageLoad> {
    Rounds(SegmentLoader(img, seg), PageCount(seg))
  }

  function PartOf(img: Image): Segment -> seq<PageLoad> {
    (seg: Segment) => SegmentLoads(img, seg)
  }

  /** The pages of each segment. */
  function Parts(img: Image, segs: seq<Segment>): (parts: seq<seq<PageLoad>>)
    ensures |parts| == |segs| && forall k | 0 <= k < |segs| :: parts[k] == SegmentLoads(img, segs[k])
  {
    MapSeq(PartOf(img), segs)
  }

  function ImageLoads(img: Image, segs: seq<Segment>): seq<PageLoad> {
    Concat(Parts(img, segs))
  }

  /** All pages elf_load places, in order. */
  function ElfLoads(img: Image): seq<PageLoad> {
    ImageLoads(img, Segments(img, PhNum(img)))
  }

  lemma ImageLoadsLast(img: Image, segs: seq<Segment>, seg: Segment)
    ensures ImageLoads(img, segs + [seg]) == ImageLoads(img, segs) + SegmentLoads(img, seg)
  {
    assert Parts(img, segs + [seg]) == Parts(img, segs) + [SegmentLoads(img, seg)];
    Snoc(Parts(img, segs), [SegmentLoads(img, seg)]);
  }

  lemma PlaceSegment(s: Space, img: Image, segs: seq<Segment>, seg: Segment)
    requires Sound(s)
    ensures PlaceAll(PlaceAll(s, ImageLoads(img, segs)), SegmentLoads(img, seg)) ==
            PlaceAll(s, ImageLoads(img, segs + [seg]))
  {
    ImageLoadsLast(img, segs, seg);
    PlaceAllAppends(s, ImageLoads(img, segs), SegmentLoads(img, seg));
  }
}
