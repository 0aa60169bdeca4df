/**
 The block list of the kernel heap (kernel/src/kheap.c) as a sequence: blocks tile the heap,
 no two neighbours are both free, and that makes the list a function of the live blocks.
 */
module HeapLayout {
  import opened Bits

  const START := 0x200000
  const INITIAL_SIZE := 0x10000
  const MAX_SIZE := 0x1000000
  const MIN_BLOCK := 32
  const HEADER := 16

  /** A block: its header address, its size including the header, and whether it is free. */
  datatype Block = Block(addr: nat, size: nat, free: bool)

  /** Blocks follow each other without gaps from `start` to `end`. */
  predicate Chain(bs: seq<Block>, start: nat, end: nat) {
    if bs == [] then start == end
    else bs[0].addr == start && Chain(bs[1..], start + bs[0].size, end)
  }

  predicate Sized(bs: seq<Block>) {
    forall b | b in bs :: b.size % 8 == 0 && b.size >= MIN_BLOCK
  }

  predicate Settled(bs: seq<Block>) {
    forall i | 0 <= i < |bs| - 1 :: bs[i].free ==> !bs[i + 1].free
  }

  /** The heap's invariant. */
  predicate Layout(bs: seq<Block>, end: nat) {
    Chain(bs, START, end) && Sized(bs) && Settled(bs)
  }

  ghost function Live(bs: seq<Block>): set<Block> {
    set b | b in bs && !b.free
  }

  lemma LiveCat(a: seq<Block>, b: seq<Block>)
    ensures Live(a + b) == Live(a) + Live(b)
  {
  }

  // ---- Chains ----

  lemma {:induction false} ChainCat(a: seq<Block>, b: seq<Block>, start: nat, mid: nat, end: nat)
    requires Chain(a, start, mid) && Chain(b, mid, end)
    ensures Chain(a + b, start, end)
  {
    if a == [] {
      assert a + b == b;
    } else {
      ChainCat(a[1..], b, start + a[0].size, mid, end);
      assert (a + b)[1..] == a[1..] + b;
    }
  }

  lemma {:induction false} ChainUncat(a: seq<Block>, b: seq<Block>, start: nat, end: nat) returns (mid: nat)
    requires Chain(a + b, start, end)
    ensures Chain(a, start, mid) && Chain(b, mid, end)
  {
    if a == [] {
      mid := start;
      assert a + b == b;
    } else {
      assert (a + b)[1..] == a[1..] + b;
      mid := ChainUncat(a[1..], b, start + a[0].size, end);
    }
  }

  /** Every block lies within the chain. */
  lemma {:induction false} ChainBounds(bs: seq<Block>, start: nat, end: nat)
    requires Chain(bs, start, end)
    ensures start <= end && forall b | b in bs :: start <= b.addr && b.addr + b.size <= end
  {
    if bs != [] { ChainBounds(bs[1..], start + bs[0].size, end); }
  }

  /** A chain that starts at its end is empty. */
  lemma ChainDone(bs: seq<Block>, start: nat, end: nat)
    requires Chain(bs, start, end) && Sized(bs) && start >= end
    ensures bs == [] && start == end
  {
    ChainBounds(bs, start, end);
  }

  /** Two blocks of a heap never overlap: the earlier one ends before the later one starts. */
  lemma ChainApart(bs: seq<Block>, start: nat, end: nat, i: nat, j: nat)
    requires Chain(bs, start, end) && i < j < |bs|
    ensures bs[i].addr + bs[i].size <= bs[j].addr
  {
    assert bs == bs[..i] + bs[i..];
    var mid := ChainUncat(bs[..i], bs[i..], start, end);
    assert bs[j] == bs[i..][1..][j - i - 1];
    ChainBounds(bs[i..][1..], mid + bs[i].size, end);
  }

  // ---- The canonical form ----

  lemma TailLive(bs: seq<Block>, start: nat, end: nat)
    requires bs != [] && Chain(bs, start, end) && Sized(bs)
    ensures Live(bs[1..]) == Live(bs) - {bs[0]}
  {
    ChainBounds(bs[1..], start + bs[0].size, end);
  }

  /** The first block of one layout is the first block of any other with the same live blocks. */
  lemma HeadLiveAgrees(a: seq<Block>, b: seq<Block>, start: nat, end: nat)
    requires a != [] && b != [] && Chain(a, start, end) && Chain(b, start, end) && Sized(a) && Sized(b)
    requires Live(a) <= Live(b) && !a[0].free
    ensures b[0] == a[0]
  {
    ChainBounds(b[1..], start + b[0].size, end);
    assert a[0] in Live(b);
  }

  lemma HeadFreeFits(a: seq<Block>, b: seq<Block>, start: nat, end: nat)
    requires a != [] && b != [] && Chain(a, start, end) && Chain(b, start, end) && Sized(a) && Sized(b)
    requires Settled(a) && Live(a) <= Live(b) && a[0].free && b[0].free
    ensures a[0].size >= b[0].size
  {
    ChainBounds(b[1..], start + b[0].size, end);
    if |a| > 1 { assert a[1] in Live(a) && a[1].addr == start + a[0].size; }
  }

  /** The block list is determined by where the heap ends and which blocks are live. */
  lemma {:induction false} Canonical(a: seq<Block>, b: seq<Block>, start: nat, end: nat)
    requires Chain(a, start, end) && Sized(a) && Settled(a)
    requires Chain(b, start, end) && Sized(b) && Settled(b)
    requires Live(a) == Live(b)
    ensures a == b
  {
    if a == [] || b == [] {
      ChainBounds(a, start, end);
      ChainBounds(b, start, end);
    } else {
      if !a[0].free {
        HeadLiveAgrees(a, b, start, end);
      } else if !b[0].free {
        HeadLiveAgrees(b, a, start, end);
      } else {
        HeadFreeFits(a, b, start, end);
        HeadFreeFits(b, a, start, end);
      }
      TailLive(a, start, end);
      TailLive(b, start, end);
      Canonical(a[1..], b[1..], start + a[0].size, end);
      assert a == [a[0]] + a[1..] && b == [b[0]] + b[1..];
    }
  }

  // ---- kmalloc ----

  /** `ALIGN_UP(x, 8)` and `ALIGN_UP(x, 4096)` in 64-bit arithmetic. */
  function AlignUp8(x: nat): nat { (x + 7) % WORD / 8 * 8 }
  function AlignUp4096(x: nat): nat { (x + 4095) % WORD / 4096 * 4096 }

  /** The block size for a request, as kmalloc computes it in 64-bit arithmetic. */
  function BlockSize(size: Word): (total: nat)
    ensures total % 8 == 0 && MIN_BLOCK <= total < WORD
  {
    var total := AlignUp8((size + HEADER) % WORD);
    if total < MIN_BLOCK then MIN_BLOCK else total
  }

  /** A block has room for the request exactly when the request does not wrap around 64 bits. */
  lemma BlockSizeFits(size: Word)
    ensures size + HEADER <= BlockSize(size) <==> size + HEADER + 7 < WORD
    ensures size + HEADER + 7 < WORD ==> BlockSize(size) < size + HEADER + 8 || BlockSize(size) == MIN_BLOCK
  {
  }

  /** How far the heap grows for a block: whole pages, in 64-bit arithmetic; one page if that wraps around. */
  function GrowBy(total: nat): (grow: nat)
    ensures 0 < total && total + 4095 < WORD ==> total <= grow < total + 4096
    ensures total < WORD <= total + 4095 ==> grow == 4096
    ensures grow % 4096 == 0 && grow % 8 == 0 && grow >= 4096
  {
    var grow := AlignUp4096(total);
    PageMultiple((total + 4095) % WORD);
    if grow < 4096 then 4096 else grow
  }

  lemma PageMultiple(x: nat)
    ensures x / 4096 * 4096 % 4096 == 0 && x / 4096 * 4096 % 8 == 0 && x / 4096 * 4096 <= x < x / 4096 * 4096 + 4096
  {
    var k := x / 4096;
    assert k * 4096 == 8 * (512 * k);
  }

  predicate Fits(b: Block, total: nat) {
    b.free && b.size >= total
  }

  /** The first free block that is large enough, or |bs|. */
  function FirstFit(bs: seq<Block>, total: nat): (i: nat)
    ensures i <= |bs| && (i < |bs| ==> Fits(bs[i], total)) && forall j | 0 <= j < i :: !Fits(bs[j], total)
  {
    if bs == [] then 0 else if Fits(bs[0], total) then 0 else 1 + FirstFit(bs[1..], total)
  }

  /** A block given out, split if the rest can be a block of its own. */
  function Pieces(b: Block, total: nat): seq<Block>
    requires b.size >= total
  {
    if b.size >= total + MIN_BLOCK
    then [Block(b.addr, total, false), Block(b.addr + total, b.size - total, true)]
    else [b.(free := false)]
  }

  function Allocate(bs: seq<Block>, i: nat, total: nat): seq<Block>
    requires i < |bs| && bs[i].size >= total
  {
    bs[..i] + Pieces(bs[i], total) + bs[i + 1..]
  }

  /** kheap_expand: a new free block at the end, merged into the last block if that is free. */
  function Expand(bs: seq<Block>, end: nat, grow: nat): seq<Block> {
    if bs != [] && bs[|bs| - 1].free
    then bs[..|bs| - 1] + [bs[|bs| - 1].(size := bs[|bs| - 1].size + grow)]
    else bs + [Block(end, grow, true)]
  }

  lemma SplitAt(bs: seq<Block>, i: nat, start: nat, end: nat)
    requires i < |bs| && Chain(bs, start, end)
    ensures Chain(bs[..i], start, bs[i].addr) && Chain([bs[i]], bs[i].addr, bs[i].addr + bs[i].size)
    ensures Chain(bs[i + 1..], bs[i].addr + bs[i].size, end)
  {
    assert bs == bs[..i] + bs[i..];
    var mid := ChainUncat(bs[..i], bs[i..], start, end);
    assert bs[i..][1..] == bs[i + 1..];
  }

  /** Replacing one block by a chain of the same extent keeps the chain. */
  lemma ReplaceChain(bs: seq<Block>, i: nat, mid: seq<Block>, start: nat, end: nat)
    requires i < |bs| && Chain(bs, start, end) && Chain(mid, bs[i].addr, bs[i].addr + bs[i].size)
    ensures Chain(bs[..i] + mid + bs[i + 1..], start, end)
  {
    SplitAt(bs, i, start, end);
    ChainCat(bs[..i], mid, start, bs[i].addr, bs[i].addr + bs[i].size);
    ChainCat(bs[..i] + mid, bs[i + 1..], start, bs[i].addr + bs[i].size, end);
  }

  /** Giving out a fitting block keeps the layout and makes exactly that block live. */
  lemma AllocateKeeps(bs: seq<Block>, end: nat, i: nat, total: nat)
    requires Layout(bs, end) && i < |bs| && Fits(bs[i], total) && total % 8 == 0 && total >= MIN_BLOCK
    ensures Layout(Allocate(bs, i, total), end)
    ensures Pieces(bs[i], total)[0] !in Live(bs)
    ensures Live(Allocate(bs, i, total)) == Live(bs) + {Pieces(bs[i], total)[0]}
  {
    var ps := Pieces(bs[i], total);
    assert Chain(ps, bs[i].addr, bs[i].addr + bs[i].size) by {
      if |ps| == 2 { assert Chain(ps[1..], ps[1].addr, ps[1].addr + ps[1].size); }
    }
    ReplaceChain(bs, i, ps, START, end);
    AllocateSettled(bs, i, total);
    NotLiveYet(bs, end, i);
  }

  lemma AllocateSettled(bs: seq<Block>, i: nat, total: nat)
    requires Settled(bs) && i < |bs| && Fits(bs[i], total)
    ensures Settled(Allocate(bs, i, total))
  {
  }

  /** No live block starts where a free one does. */
  lemma NotLiveYet(bs: seq<Block>, end: nat, i: nat)
    requires Layout(bs, end) && i < |bs| && bs[i].free
    ensures forall b | b in Live(bs) :: b.addr != bs[i].addr
  {
    forall b | b in Live(bs)
      ensures b.addr != bs[i].addr
    {
      var j :| 0 <= j < |bs| && bs[j] == b;
      if j < i { ChainApart(bs, START, end, j, i); } else { ChainApart(bs, START, end, i, j); }
    }
  }

  /** Growing keeps the layout and the live blocks, and leaves a free block at the end with room for the request. */
  lemma ExpandKeeps(bs: seq<Block>, end: nat, grow: nat)
    requires Layout(bs, end) && grow % 8 == 0 && grow >= MIN_BLOCK
    ensures Layout(Expand(bs, end, grow), end + grow)
    ensures Live(Expand(bs, end, grow)) == Live(bs)
    ensures var bs' := Expand(bs, end, grow); bs' != [] && Fits(bs'[|bs'| - 1], grow)
  {
    if bs != [] && bs[|bs| - 1].free { ExpandLast(bs, end, grow); } else { ExpandNew(bs, end, grow); }
  }

  lemma ExpandLast(bs: seq<Block>, end: nat, grow: nat)
    requires Layout(bs, end) && grow % 8 == 0 && bs != [] && bs[|bs| - 1].free
    ensures Layout(Expand(bs, end, grow), end + grow) && Live(Expand(bs, end, grow)) == Live(bs)
  {
    var init, last := bs[..|bs| - 1], bs[|bs| - 1];
    SplitAt(bs, |bs| - 1, START, end);
    var grown := last.(size := last.size + grow);
    ChainCat(init, [grown], START, last.addr, end + grow);
    assert bs == init + [last];
    LiveCat(init, [last]);
    LiveCat(init, [grown]);
    Mod8(last.size, grow);
    SettledLast(init, last, grown);
  }

  lemma SettledMore(bs: seq<Block>, b: Block)
    requires Settled(bs) && (bs == [] || !bs[|bs| - 1].free)
    ensures Settled(bs + [b])
  {
  }

  lemma SettledLast(init: seq<Block>, last: Block, grown: Block)
    requires Settled(init + [last]) && grown.free == last.free
    ensures Settled(init + [grown])
  {
    var a, b := init + [last], init + [grown];
    forall i | 0 <= i < |b| - 1
      ensures b[i].free ==> !b[i + 1].free
    {
      assert a[i].free ==> !a[i + 1].free;
    }
  }

  lemma Mod8(a: nat, b: nat)
    requires a % 8 == 0 && b % 8 == 0
    ensures (a + b) % 8 == 0
  {
  }

  lemma ExpandNew(bs: seq<Block>, end: nat, grow: nat)
    requires Layout(bs, end) && grow % 8 == 0 && grow >= MIN_BLOCK && (bs == [] || !bs[|bs| - 1].free)
    ensures Layout(Expand(bs, end, grow), end + grow) && Live(Expand(bs, end, grow)) == Live(bs)
  {
    var b := Block(end, grow, true);
    ChainCat(bs, [b], START, end, end + grow);
    LiveCat(bs, [b]);
    SettledMore(bs, b);
  }

  /** Where nothing fitted before, growing makes the last block the first fit. */
  lemma FirstFitAfterExpand(bs: seq<Block>, end: nat, grow: nat, total: nat)
    requires FirstFit(bs, total) == |bs| && grow >= total
    ensures FirstFit(Expand(bs, end, grow), total) == |Expand(bs, end, grow)| - 1
  {
    var bs' := Expand(bs, end, grow);
    var n := |bs'| - 1;
    assert forall j | 0 <= j < n :: bs'[j] == bs[j];
    assert Fits(bs'[n], total);
  }

  datatype Heap = Heap(blocks: seq<Block>, end: nat)

  predicate Valid(h: Heap) {
    Layout(h.blocks, h.end) && START < h.end <= START + MAX_SIZE
  }

  /** A request that wraps around 64 bits nowhere in kmalloc, whatever the heap. */
  predicate NoWrap(size: Word) {
    size + HEADER + 7 + 4095 + START + MAX_SIZE < WORD
  }

  /** The heap's new end, if it has to grow, does not wrap around 64 bits. */
  predicate EndFits(h: Heap, total: nat) {
    FirstFit(h.blocks, total) < |h.blocks| || h.end + GrowBy(total) < WORD
  }

  /** Every request but those for which kmalloc would move the end of the heap around 64 bits. */
  predicate InReach(h: Heap, size: Word) {
    NoWrap(size) || size == 0 || EndFits(h, BlockSize(size))
  }

  lemma ReachFits(h: Heap, size: Word)
    requires Valid(h) && InReach(h, size) && size != 0
    ensures EndFits(h, BlockSize(size))
  {
    BlockSizeFits(size);
  }

  /** The heap after it has grown for a block. */
  function Larger(h: Heap, total: nat): Heap {
    Heap(Expand(h.blocks, h.end, GrowBy(total)), h.end + GrowBy(total))
  }

  /** The heap a request is served from: grown if nothing fits. */
  function Serve(h: Heap, total: nat): Heap {
    if FirstFit(h.blocks, total) < |h.blocks| then h else Larger(h, total)
  }

  /** Something fits, or the heap may grow far enough, by enough. */
  predicate CanServe(h: Heap, total: nat) {
    FirstFit(h.blocks, total) < |h.blocks| || (GrowBy(total) >= total && h.end + GrowBy(total) <= START + MAX_SIZE)
  }

  /** The search and its retries: the heap grows until something fits or it may grow no more. */
  function Provided(h: Heap, total: nat): Heap
    decreases START + MAX_SIZE - h.end
  {
    if FirstFit(h.blocks, total) < |h.blocks| || h.end + GrowBy(total) > START + MAX_SIZE then h
    else Provided(Larger(h, total), total)
  }

  /** Hands out a block of the given size from the first fit: the heap afterwards and the pointer, 0 for failure. */
  function MallocBlock(h: Heap, total: nat): (Heap, nat) {
    var h1 := Provided(h, total);
    var i := FirstFit(h1.blocks, total);
    if i == |h1.blocks| then (h1, 0)
    else (Heap(Allocate(h1.blocks, i, total), h1.end), h1.blocks[i].addr + HEADER)
  }

  /** kmalloc: the heap afterwards and the pointer, 0 for failure. */
  function Malloc(h: Heap, size: Word): (Heap, nat)
    requires Valid(h) && InReach(h, size)
  {
    if size == 0 then (h, 0) else MallocBlock(h, BlockSize(size))
  }

  /**
   kmalloc fails for size zero, or when nothing fits and whole pages for the block would pass the 16 MiB limit
   (or wrap around 64 bits).
   */
  predicate Refused(h: Heap, size: Word) {
    size == 0 || !CanServe(h, BlockSize(size))
  }

  lemma ServeFits(h: Heap, total: nat)
    requires Valid(h) && CanServe(h, total) && 0 < total
    ensures var h1 := Serve(h, total);
            Valid(h1) && Live(h1.blocks) == Live(h.blocks) && FirstFit(h1.blocks, total) < |h1.blocks|
  {
    if FirstFit(h.blocks, total) == |h.blocks| { GrownFits(h.blocks, h.end, GrowBy(total), total); }
  }

  lemma GrownFits(bs: seq<Block>, end: nat, grow: nat, total: nat)
    requires Layout(bs, end) && grow % 8 == 0 && grow >= MIN_BLOCK && grow >= total && FirstFit(bs, total) == |bs|
    ensures var bs' := Expand(bs, end, grow);
            Layout(bs', end + grow) && Live(bs') == Live(bs) && FirstFit(bs', total) < |bs'|
  {
    ExpandKeeps(bs, end, grow);
    FirstFitAfterExpand(bs, end, grow, total);
  }

  /** Nothing larger than the heap fits. */
  lemma TooLarge(h: Heap, total: nat)
    requires Valid(h) && total > MAX_SIZE
    ensures FirstFit(h.blocks, total) == |h.blocks|
  {
    ChainBounds(h.blocks, START, h.end);
    forall i | 0 <= i < |h.blocks|
      ensures !Fits(h.blocks[i], total)
    {
      assert h.blocks[i] in h.blocks;
    }
  }

  /** A request that can be served is served after growing at most once. */
  lemma ProvidedServes(h: Heap, total: nat)
    requires Valid(h) && 0 < total && CanServe(h, total)
    ensures Provided(h, total) == Serve(h, total)
  {
    ServeFits(h, total);
  }

  /** One that cannot leaves the live blocks as they were, and the whole heap unless the page rounding wraps around. */
  lemma {:induction false} ProvidedRefuses(h: Heap, total: nat)
    requires Valid(h) && 0 < total < WORD && !CanServe(h, total)
    ensures var h1 := Provided(h, total);
            && Valid(h1) && Live(h1.blocks) == Live(h.blocks) && FirstFit(h1.blocks, total) == |h1.blocks|
            && (total + 4095 < WORD ==> h1 == h)
    decreases START + MAX_SIZE - h.end
  {
    if h.end + GrowBy(total) <= START + MAX_SIZE {
      ExpandKeeps(h.blocks, h.end, GrowBy(total));
      TooLarge(Larger(h, total), total);
      ProvidedRefuses(Larger(h, total), total);
    }
  }

  /** A new live block at the pointer, with room for the request unless it wraps around, and all others as they were. */
  ghost predicate Granted(h: Heap, size: Word, h': Heap, b: Block) {
    && b !in Live(h.blocks) && Live(h'.blocks) == Live(h.blocks) + {b}
    && !b.free && BlockSize(size) <= b.size < BlockSize(size) + MIN_BLOCK && b.size <= MAX_SIZE
    && (size + HEADER + 7 < WORD ==> b.size >= size + HEADER)
  }

  /** The block a request gets. */
  function NewBlock(h: Heap, size: Word): Block
    requires Valid(h) && InReach(h, size) && !Refused(h, size)
  {
    var h1 := Serve(h, BlockSize(size));
    ServeFits(h, BlockSize(size));
    Pieces(h1.blocks[FirstFit(h1.blocks, BlockSize(size))], BlockSize(size))[0]
  }

  /** kmalloc keeps the heap valid; when it succeeds, it adds one live block and nothing else. */
  lemma MallocGrants(h: Heap, size: Word)
    requires Valid(h) && InReach(h, size)
    ensures var (h', p) := Malloc(h, size);
            && Valid(h')
            && (p == 0 <==> Refused(h, size))
            && (p == 0 ==> Live(h'.blocks) == Live(h.blocks) && (BlockSize(size) + 4095 < WORD ==> h' == h))
            && (p != 0 ==> Granted(h, size, h', NewBlock(h, size)) && p == NewBlock(h, size).addr + HEADER)
  {
    if size != 0 {
      if CanServe(h, BlockSize(size)) {
        ProvidedServes(h, BlockSize(size));
        GrantServed(h, size);
      } else {
        ProvidedRefuses(h, BlockSize(size));
      }
    }
  }

  lemma GrantServed(h: Heap, size: Word)
    requires Valid(h) && InReach(h, size) && !Refused(h, size)
    ensures var h1, total := Serve(h, BlockSize(size)), BlockSize(size);
            && FirstFit(h1.blocks, total) < |h1.blocks|
            && var h' := Heap(Allocate(h1.blocks, FirstFit(h1.blocks, total), total), h1.end);
               && Valid(h') && Granted(h, size, h', NewBlock(h, size))
               && NewBlock(h, size).addr == h1.blocks[FirstFit(h1.blocks, total)].addr
  {
    var total := BlockSize(size);
    var h1 := Serve(h, total);
    ServeFits(h, total);
    BlockSizeFits(size);
    var i := FirstFit(h1.blocks, total);
    AllocateKeeps(h1.blocks, h1.end, i, total);
    ChainBounds(h1.blocks, START, h1.end);
    assert h1.blocks[i] in h1.blocks;
  }

  /** The block handed out has room for the request exactly when the request does not wrap around. */
  lemma RoomIff(h: Heap, size: Word)
    requires Valid(h) && InReach(h, size) && !Refused(h, size)
    ensures NewBlock(h, size).size >= size + HEADER <==> size + HEADER + 7 < WORD
  {
    MallocGrants(h, size);
  }

  /** kmalloc is first fit: no free block below the one it hands out was large enough. */
  lemma MallocFirstFit(h: Heap, size: Word, b: Block)
    requires Valid(h) && InReach(h, size) && Malloc(h, size).1 != 0
    requires b in h.blocks && Fits(b, BlockSize(size))
    ensures Malloc(h, size).0.end == h.end && Malloc(h, size).1 <= b.addr + HEADER
  {
    var i := FirstFit(h.blocks, BlockSize(size));
    var j :| 0 <= j < |h.blocks| && h.blocks[j] == b;
    assert i <= j;
    if i < j { ChainApart(h.blocks, START, h.end, i, j); }
  }

  /**
   The heap's blocks are the old ones, except that in place of `b` there are a live block of `total` bytes and a free
   one with the rest, if the rest can be a block; otherwise all of `b` is live.
   */
  ghost predicate Split(bs: seq<Block>, b: Block, total: nat, bs': seq<Block>) {
    && b in bs && b.free && b.size >= total
    && forall x :: x in bs' <==>
         || (x in bs && x != b)
         || (b.size < total + 32 && x == Block(b.addr, b.size, false))
         || (b.size >= total + 32 && x == Block(b.addr, total, false))
         || (b.size >= total + 32 && x == Block(b.addr + total, b.size - total, true))
  }

  /** Two places of a chain never hold the same block. */
  lemma BlocksDiffer(bs: seq<Block>, start: nat, end: nat, i: nat, j: nat)
    requires Chain(bs, start, end) && Sized(bs) && i < |bs| && j < |bs| && i != j
    ensures bs[i] != bs[j]
  {
    assert bs[i] in bs && bs[j] in bs;
    if i < j { ChainApart(bs, start, end, i, j); } else { ChainApart(bs, start, end, j, i); }
  }

  lemma AllocateSplits(bs: seq<Block>, end: nat, i: nat, total: nat)
    requires Layout(bs, end) && i < |bs| && Fits(bs[i], total)
    ensures Split(bs, bs[i], total, Allocate(bs, i, total))
  {
    forall j | 0 <= j < |bs| && j != i
      ensures bs[j] != bs[i]
    {
      BlocksDiffer(bs, START, end, j, i);
    }
    forall x
      ensures x in bs && x != bs[i] <==> x in bs[..i] || x in bs[i + 1..]
    {
    }
  }

  /**
   What a successful kmalloc does to the blocks: in the heap that serves the request it splits the lowest-addressed
   free block that is large enough, and the pointer is the address of that block's payload.
   */
  lemma MallocSplits(h: Heap, size: Word) returns (b: Block)
    requires Valid(h) && InReach(h, size) && Malloc(h, size).1 != 0
    ensures var h1, (h', p), total := Serve(h, BlockSize(size)), Malloc(h, size), BlockSize(size);
            && Split(h1.blocks, b, total, h'.blocks) && p == b.addr + 16 && h'.end == h1.end
            && forall x | x in h1.blocks && x.free && x.size >= total :: b.addr <= x.addr
  {
    var total := BlockSize(size);
    MallocGrants(h, size);
    ProvidedServes(h, total);
    ServeFits(h, total);
    b := ServedSplits(Serve(h, total), total);
  }

  lemma ServedSplits(h: Heap, total: nat) returns (b: Block)
    requires Layout(h.blocks, h.end) && FirstFit(h.blocks, total) < |h.blocks|
    ensures var bs' := Allocate(h.blocks, FirstFit(h.blocks, total), total);
            Split(h.blocks, b, total, bs') && b == h.blocks[FirstFit(h.blocks, total)]
    ensures forall x | x in h.blocks && x.free && x.size >= total :: b.addr <= x.addr
  {
    var i := FirstFit(h.blocks, total);
    b := h.blocks[i];
    AllocateSplits(h.blocks, h.end, i, total);
    forall x | x in h.blocks && Fits(x, total)
      ensures b.addr <= x.addr
    {
      var j :| 0 <= j < |h.blocks| && h.blocks[j] == x;
      if i < j { ChainApart(h.blocks, START, h.end, i, j); }
    }
  }

  // ---- What kmalloc decides, and what it should ----

  /** Refuse, use a block, or grow the heap by so many bytes and look again. */
  datatype Decision = Refuse | Use(index: nat) | GrowHeap(bytes: nat)

  /** What kmalloc does first, in 64-bit arithmetic throughout. */
  function Decides(h: Heap, size: Word): Decision {
    var total := BlockSize(size);
    if size == 0 then Refuse
    else if FirstFit(h.blocks, total) < |h.blocks| then Use(FirstFit(h.blocks, total))
    else if (h.end + GrowBy(total)) % WORD > START + MAX_SIZE then Refuse
    else GrowHeap(GrowBy(total))
  }

  /** What it is meant to do: the same without wrap-around. */
  function Intends(h: Heap, size: nat): Decision {
    var total := if size + 16 < 32 then 32 else (size + 16 + 7) / 8 * 8;
    var grow := (total + 4095) / 4096 * 4096;
    if size == 0 then Refuse
    else if FirstFit(h.blocks, total) < |h.blocks| then Use(FirstFit(h.blocks, total))
    else if h.end + grow > 0x120_0000 then Refuse
    else GrowHeap(grow)
  }

  /**
   Neither sum wraps around, except where the result is a refusal all the same: a size that wraps to the smallest
   block, or a page rounding that wraps to one page, on a heap without room for that.
   */
  predicate Unwrapped(h: Heap, size: Word) {
    || size == 0
    || (if size + HEADER + 7 >= WORD then !CanServe(h, MIN_BLOCK)
        else
          var total := BlockSize(size);
          || FirstFit(h.blocks, total) < |h.blocks|
          || (if total + 4095 >= WORD then h.end + 4096 > START + MAX_SIZE else h.end + GrowBy(total) < WORD))
  }

  /** kmalloc decides as it is meant to exactly then. */
  lemma DecidesRight(h: Heap, size: Word)
    requires Valid(h)
    ensures Decides(h, size) == Intends(h, size) <==> Unwrapped(h, size)
  {
    if size != 0 {
      if size + HEADER + 7 >= WORD { DecidesWrapped(h, size); } else { DecidesPlain(h, size); }
    }
  }

  lemma DecidesWrapped(h: Heap, size: Word)
    requires Valid(h) && size + HEADER + 7 >= WORD
    ensures BlockSize(size) == MIN_BLOCK && Intends(h, size) == Refuse
    ensures Decides(h, size) == Refuse <==> !CanServe(h, MIN_BLOCK)
  {
    TooLarge(h, (size + HEADER + 7) / 8 * 8);
  }

  lemma DecidesPlain(h: Heap, size: Word)
    requires Valid(h) && size + HEADER + 7 < WORD && size != 0
    ensures Decides(h, size) == Intends(h, size) <==> Unwrapped(h, size)
  {
    var total := BlockSize(size);
    assert total == if size + HEADER < MIN_BLOCK then MIN_BLOCK else (size + HEADER + 7) / 8 * 8;
    if FirstFit(h.blocks, total) == |h.blocks| { GrowsRight(h, total); }
  }

  lemma GrowsRight(h: Heap, total: nat)
    requires Valid(h) && MIN_BLOCK <= total < WORD && total % 8 == 0
    ensures var grow := (total + 4095) / 4096 * 4096;
            var meant := if h.end + grow > START + MAX_SIZE then Refuse else GrowHeap(grow);
            var done := if (h.end + GrowBy(total)) % WORD > START + MAX_SIZE then Refuse else GrowHeap(GrowBy(total));
            done == meant <==>
              (if total + 4095 >= WORD then h.end + 4096 > START + MAX_SIZE else h.end + GrowBy(total) < WORD)
  {
    if total + 4095 < WORD {
      assert GrowBy(total) == (total + 4095) / 4096 * 4096;
      if h.end + GrowBy(total) >= WORD { assert (h.end + GrowBy(total)) % WORD == h.end + GrowBy(total) - WORD; }
    }
  }

  /**
   kmalloc acts on its decision: a refusal returns 0 and changes nothing; a block that fits is handed out without
   growth; and growth is by so many bytes, after which kmalloc looks again.
   */
  lemma DecisionTaken(h: Heap, size: Word)
    requires Valid(h) && InReach(h, size)
    ensures Follows(h, size, Decides(h, size), Malloc(h, size))
  {
    if size != 0 {
      ReachFits(h, size);
      FollowsBlock(h, size);
    }
  }

  predicate Follows(h: Heap, size: Word, d: Decision, done: (Heap, nat)) {
    match d
    case Refuse => done == (h, 0)
    case Use(i) => Uses(h, i, done)
    case GrowHeap(bytes) => GrownBy(h, bytes, size, done)
  }

  lemma FollowsBlock(h: Heap, size: Word)
    requires Valid(h) && size != 0 && EndFits(h, BlockSize(size))
    ensures Follows(h, size, Decides(h, size), MallocBlock(h, BlockSize(size)))
  {
    if FirstFit(h.blocks, BlockSize(size)) < |h.blocks| {
      UsesFit(h, BlockSize(size));
    } else {
      FollowsGrowth(h, size, GrowBy(BlockSize(size)), MallocBlock(h, BlockSize(size)));
    }
  }

  lemma FollowsGrowth(h: Heap, size: Word, grow: nat, done: (Heap, nat))
    requires Valid(h) && size != 0 && FirstFit(h.blocks, BlockSize(size)) == |h.blocks|
    requires grow == GrowBy(BlockSize(size)) && h.end + grow < WORD && done == MallocBlock(h, BlockSize(size))
    ensures Follows(h, size, Decides(h, size), done)
  {
    DecidesGrowth(h, size, grow);
    if h.end + grow > START + MAX_SIZE { StaysPut(h, BlockSize(size)); } else { GrewTo(h, size, grow, done); }
  }

  lemma GrewTo(h: Heap, size: Word, grow: nat, done: (Heap, nat))
    requires Valid(h) && size != 0 && FirstFit(h.blocks, BlockSize(size)) == |h.blocks|
    requires grow == GrowBy(BlockSize(size)) && h.end + grow <= START + MAX_SIZE
    requires done == MallocBlock(h, BlockSize(size))
    ensures GrownBy(h, grow, size, done)
  {
    var h1 := GrowsOnce(h, BlockSize(size), grow);
    assert InReach(h1, size) && done == Malloc(h1, size);
  }

  lemma DecidesGrowth(h: Heap, size: Word, grow: nat)
    requires size != 0 && FirstFit(h.blocks, BlockSize(size)) == |h.blocks|
    requires grow == GrowBy(BlockSize(size)) && h.end + grow < WORD
    ensures Decides(h, size) == if h.end + grow > START + MAX_SIZE then Refuse else GrowHeap(grow)
  {
    assert (h.end + grow) % WORD == h.end + grow;
  }

  /** The i-th block is handed out, and the heap has not grown. */
  predicate Uses(h: Heap, i: nat, done: (Heap, nat)) {
    i < |h.blocks| && done.1 == h.blocks[i].addr + HEADER && done.0.end == h.end
  }

  /** The heap has grown by so many bytes, and the request goes on from there. */
  predicate GrownBy(h: Heap, bytes: nat, size: Word, done: (Heap, nat)) {
    var h1 := Heap(Expand(h.blocks, h.end, bytes), h.end + bytes);
    Valid(h1) && InReach(h1, size) && done == Malloc(h1, size)
  }

  lemma UsesFit(h: Heap, total: nat)
    requires FirstFit(h.blocks, total) < |h.blocks|
    ensures Uses(h, FirstFit(h.blocks, total), MallocBlock(h, total))
  {
  }

  lemma StaysPut(h: Heap, total: nat)
    requires FirstFit(h.blocks, total) == |h.blocks| && h.end + GrowBy(total) > START + MAX_SIZE
    ensures MallocBlock(h, total) == (h, 0)
  {
  }

  lemma GrowsOnce(h: Heap, total: nat, grow: nat) returns (h1: Heap)
    requires Valid(h) && FirstFit(h.blocks, total) == |h.blocks|
    requires grow == GrowBy(total) && h.end + grow <= START + MAX_SIZE
    ensures h1 == Heap(Expand(h.blocks, h.end, grow), h.end + grow)
    ensures Valid(h1) && EndFits(h1, total) && MallocBlock(h, total) == MallocBlock(h1, total)
  {
    h1 := Larger(h, total);
    ExpandKeeps(h.blocks, h.end, grow);
    assert Provided(h, total) == Provided(h1, total);
  }

  /**
   A size for which the new end of the heap wraps to address 0: the block size is right and nothing fits, yet the
   limit test passes and the heap is told to grow.
   */
  lemma EndWraps()
    ensures var size: Word := WORD - 0x210010;
            && size + HEADER <= BlockSize(size)
            && !CanServe(InitialHeap(), BlockSize(size)) && !InReach(InitialHeap(), size)
            && Intends(InitialHeap(), size) == Refuse && Decides(InitialHeap(), size) == GrowHeap(WORD - 0x210000)
  {
    var h, size: Word := InitialHeap(), WORD - 0x210010;
    var total := BlockSize(size);
    assert total == WORD - 0x210000;
    TooLarge(h, total);
    GrowsRight(h, total);
    assert GrowBy(total) == total;
  }

  // ---- kfree ----

  /** The coalescing walk: every run of free neighbours becomes one block. */
  function Coalesce(bs: seq<Block>): seq<Block>
    decreases |bs|
  {
    if |bs| <= 1 then bs
    else if bs[0].free && bs[1].free then Coalesce([Merged(bs[0], bs[1])] + bs[2..])
    else [bs[0]] + Coalesce(bs[1..])
  }

  function Merged(a: Block, b: Block): Block {
    Block(a.addr, a.size + b.size, true)
  }

  lemma MergeStep(bs: seq<Block>, start: nat, end: nat)
    requires |bs| >= 2 && bs[0].free && bs[1].free && Chain(bs, start, end) && Sized(bs)
    ensures var m := [Merged(bs[0], bs[1])] + bs[2..]; Chain(m, start, end) && Sized(m) && Live(m) == Live(bs)
  {
    var m := [Merged(bs[0], bs[1])] + bs[2..];
    assert bs[1..][1..] == bs[2..] && m[1..] == bs[2..];
    assert bs == [bs[0], bs[1]] + bs[2..];
  }

  /** Coalescing settles any chain and changes neither its extent nor its live blocks. */
  lemma {:induction false} CoalesceKeeps(bs: seq<Block>, start: nat, end: nat)
    requires Chain(bs, start, end) && Sized(bs)
    ensures Chain(Coalesce(bs), start, end) && Sized(Coalesce(bs)) && Settled(Coalesce(bs))
    ensures Live(Coalesce(bs)) == Live(bs)
    ensures bs != [] ==> Coalesce(bs) != [] && Coalesce(bs)[0].free == bs[0].free
    decreases |bs|
  {
    if |bs| > 1 {
      if bs[0].free && bs[1].free {
        MergeStep(bs, start, end);
        CoalesceKeeps([Merged(bs[0], bs[1])] + bs[2..], start, end);
      } else {
        CoalesceKeeps(bs[1..], start + bs[0].size, end);
        assert Coalesce(bs)[1..] == Coalesce(bs[1..]);
        LiveCat([bs[0]], Coalesce(bs[1..]));
        LiveCat([bs[0]], bs[1..]);
        assert bs == [bs[0]] + bs[1..];
      }
    }
  }

  function IndexOf(bs: seq<Block>, b: Block): (i: nat)
    requires b in bs
    ensures i < |bs| && bs[i] == b
  {
    if bs[0] == b then 0 else 1 + IndexOf(bs[1..], b)
  }

  /** kfree of a live block. */
  function Free(h: Heap, b: Block): Heap
    requires b in h.blocks
  {
    Heap(Coalesce(h.blocks[IndexOf(h.blocks, b) := b.(free := true)]), h.end)
  }

  lemma MarkFree(bs: seq<Block>, end: nat, i: nat)
    requires Layout(bs, end) && i < |bs| && !bs[i].free
    ensures var m := bs[i := bs[i].(free := true)]; Chain(m, START, end) && Sized(m) && Live(m) == Live(bs) - {bs[i]}
  {
    var m := bs[i := bs[i].(free := true)];
    ReplaceChain(bs, i, [m[i]], START, end);
    assert m == bs[..i] + [m[i]] + bs[i + 1..];
    forall j | 0 <= j < |bs| && j != i
      ensures bs[j] != bs[i]
    {
      if j < i { ChainApart(bs, START, end, j, i); } else { ChainApart(bs, START, end, i, j); }
    }
    forall b
      ensures b in Live(m) <==> b in Live(bs) - {bs[i]}
    {
      if b in Live(m) { var j :| 0 <= j < |m| && m[j] == b; assert bs[j] == b; }
      if b in Live(bs) - {bs[i]} { var j :| 0 <= j < |bs| && bs[j] == b; assert m[j] == b; }
    }
  }

  /** kfree keeps the heap valid and takes away exactly the one live block. */
  lemma FreeKeeps(h: Heap, b: Block)
    requires Valid(h) && b in Live(h.blocks)
    ensures Valid(Free(h, b)) && Live(Free(h, b).blocks) == Live(h.blocks) - {b} && Free(h, b).end == h.end
  {
    var i := IndexOf(h.blocks, b);
    MarkFree(h.blocks, h.end, i);
    CoalesceKeeps(h.blocks[i := b.(free := true)], START, h.end);
  }

  /** A block freed right after it was handed out leaves the heap as it was, except that the heap may have grown. */
  lemma MallocThenFree(h: Heap, size: Word)
    requires Valid(h) && InReach(h, size) && !Refused(h, size) && Malloc(h, size).0.end == h.end
    ensures NewBlock(h, size) in Malloc(h, size).0.blocks && Free(Malloc(h, size).0, NewBlock(h, size)) == h
  {
    var h', b := Malloc(h, size).0, NewBlock(h, size);
    MallocGrants(h, size);
    assert b in Live(h'.blocks);
    FreeKeeps(h', b);
    Canonical(Free(h', b).blocks, h.blocks, START, h.end);
  }

  // ---- Many frees ----

  ghost function FreeAll(h: Heap, bs: seq<Block>): (h': Heap)
    requires Valid(h) && (forall b | b in bs :: b in Live(h.blocks)) && Distinct(bs)
    ensures Valid(h') && h'.end == h.end && Live(h'.blocks) == Live(h.blocks) - Elems(bs)
    decreases |bs|
  {
    if bs == [] then h
    else
      FreeKeeps(h, bs[0]);
      FreeAll(Free(h, bs[0]), bs[1..])
  }

  ghost function Elems<T>(xs: seq<T>): set<T> {
    set x | x in xs
  }

  predicate Distinct<T(==)>(xs: seq<T>) {
    forall i, j | 0 <= i < j < |xs| :: xs[i] != xs[j]
  }

  /** The order in which blocks are freed does not matter. */
  lemma FreeOrderIrrelevant(h: Heap, a: seq<Block>, b: seq<Block>)
    requires Valid(h) && (forall x | x in a :: x in Live(h.blocks)) && Distinct(a) && Distinct(b)
    requires Elems(a) == Elems(b)
    ensures forall x | x in b :: x in Live(h.blocks)
    ensures FreeAll(h, a) == FreeAll(h, b)
  {
    forall x | x in b
      ensures x in a
    {
      assert x in Elems(b);
    }
    Canonical(FreeAll(h, a).blocks, FreeAll(h, b).blocks, START, h.end);
  }

  lemma {:induction false} ChainAligned(bs: seq<Block>, start: nat, end: nat)
    requires Chain(bs, start, end) && Sized(bs) && start % 8 == 0
    ensures end % 8 == 0 && (bs != [] ==> end >= start + MIN_BLOCK)
  {
    if bs != [] {
      ChainAligned(bs[1..], start + bs[0].size, end);
      ChainBounds(bs[1..], start + bs[0].size, end);
    }
  }

  /** A heap with no live block is one free block. */
  lemma FreeEverything(h: Heap)
    requires Valid(h) && Live(h.blocks) == {}
    ensures h.blocks == [Block(START, h.end - START, true)]
  {
    var one := [Block(START, h.end - START, true)];
    ChainAligned(h.blocks, START, h.end);
    assert one[1..] == [];
    Canonical(h.blocks, one, START, h.end);
  }

  // ---- All runs ----

  datatype Op = Alloc(size: Word) | Release(b: Block)

  /** One call: kmalloc of a size in reach, or kfree of a live block. */
  ghost predicate Can(h: Heap, op: Op) {
    match op
    case Alloc(size) => InReach(h, size)
    case Release(b) => b in Live(h.blocks)
  }

  ghost function Do(h: Heap, op: Op): (h': Heap)
    requires Valid(h) && Can(h, op)
    ensures Valid(h')
  {
    match op
    case Alloc(size) =>
      MallocGrants(h, size);
      Malloc(h, size).0
    case Release(b) =>
      FreeKeeps(h, b);
      Free(h, b)
  }

  ghost predicate LegalRun(h: Heap, ops: seq<Op>)
    requires Valid(h)
    decreases |ops|
  {
    ops == [] || (Can(h, ops[0]) && LegalRun(Do(h, ops[0]), ops[1..]))
  }

  ghost function Run(h: Heap, ops: seq<Op>): (h': Heap)
    requires Valid(h) && LegalRun(h, ops)
    ensures Valid(h')
    decreases |ops|
  {
    if ops == [] then h else Run(Do(h, ops[0]), ops[1..])
  }

  /** The heap kheap_init makes. */
  function InitialHeap(): (h: Heap)
    ensures Valid(h)
  {
    OneBlock();
    Heap([Block(START, INITIAL_SIZE, true)], START + INITIAL_SIZE)
  }

  lemma OneBlock()
    ensures Chain([Block(START, INITIAL_SIZE, true)], START, START + INITIAL_SIZE)
  {
    assert [Block(START, INITIAL_SIZE, true)][1..] == [];
  }

  /** After any two runs, heaps of the same size with the same live blocks are the same heap, block for block. */
  lemma RunsCanonical(a: seq<Op>, b: seq<Op>)
    requires LegalRun(InitialHeap(), a) && LegalRun(InitialHeap(), b)
    requires Run(InitialHeap(), a).end == Run(InitialHeap(), b).end
    requires Live(Run(InitialHeap(), a).blocks) == Live(Run(InitialHeap(), b).blocks)
    ensures Run(InitialHeap(), a) == Run(InitialHeap(), b)
  {
    Canonical(Run(InitialHeap(), a).blocks, Run(InitialHeap(), b).blocks, START, Run(InitialHeap(), a).end);
  }

  /** In every heap, the payload of a live block meets no header and no other block's payload. */
  lemma PayloadApart(h: Heap, b: Block, c: Block)
    requires Valid(h) && b in Live(h.blocks) && c in h.blocks && b != c
    ensures b.addr + HEADER <= b.addr + b.size
    ensures c.addr + c.size <= b.addr || b.addr + b.size <= c.addr
  {
    var i, j := IndexOf(h.blocks, b), IndexOf(h.blocks, c);
    if i < j { ChainApart(h.blocks, START, h.end, i, j); } else { ChainApart(h.blocks, START, h.end, j, i); }
  }
}
