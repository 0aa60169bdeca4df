/**
 The kernel heap (kernel/src/kheap.c) in memory: block headers live inside the memory being
 managed, and every operation walks them from the start of the heap.
 */
module Kheap {
  import opened Bits
  import opened HeapLayout

  /** struct block_header, without its padding. */
  datatype Header = Header(size: nat, free: Half)

  function HeaderOf(b: Block): Header {
    Header(b.size, if b.free then 1 else 0)
  }

  /** The headers of the blocks are in memory where the blocks start. */
  predicate InMemory(headers: map<nat, Header>, bs: seq<Block>) {
    forall b | b in bs :: b.addr in headers && headers[b.addr] == HeaderOf(b)
  }

  /** `cur` is where the first fitting block is, or the end of the heap if there is none. */
  predicate FoundAt(h: Heap, total: nat, cur: nat) {
    var i := FirstFit(h.blocks, total);
    if i < |h.blocks| then cur == h.blocks[i].addr && cur < h.end else cur == h.end
  }

  /** A header at `a` lies in the heap and off the payloads of these blocks. */
  ghost predicate Off(a: nat, live: set<Block>, end: nat) {
    START <= a && a + HEADER <= end && forall b | b in live :: a <= b.addr || b.addr + b.size <= a
  }

  /** Every header written lies in the heap and off the payloads of these blocks. */
  ghost predicate OffPayloads(before: map<nat, Header>, after: map<nat, Header>, live: set<Block>, end: nat) {
    && before.Keys <= after.Keys
    && forall a | a in after && (a in before ==> after[a] != before[a]) :: Off(a, live, end)
  }

  /** The byte at x belongs to a header that was written. */
  predicate Written(before: map<nat, Header>, after: map<nat, Header>, x: nat) {
    exists a | a in after && (a in before ==> after[a] != before[a]) :: a <= x < a + HEADER
  }

  /** No byte of a live payload belongs to a header that was written. */
  lemma NotWritten(before: map<nat, Header>, after: map<nat, Header>, live: set<Block>, end: nat, b: Block, x: nat)
    requires OffPayloads(before, after, live, end) && b in live && b.addr + HEADER <= x < b.addr + b.size
    ensures !Written(before, after, x)
  {
    forall a | a in after && (a in before ==> after[a] != before[a])
      ensures !(a <= x < a + HEADER)
    {
      assert Off(a, live, end);
    }
  }

  class KernelHeap {
    /** What is read as a header at each address of the heap's memory, block or not. */
    var headers: map<nat, Header>
    var heapEnd: nat
    ghost var blocks: seq<Block>

    ghost function State(): Heap
      reads this
    {
      Heap(blocks, heapEnd)
    }

    ghost predicate Good()
      reads this
    {
      Valid(State()) && InMemory(headers, blocks)
    }

    /** kheap_init: one free block. */
    constructor ()
      ensures Good() && State() == InitialHeap()
    {
      heapEnd := START + INITIAL_SIZE;
      headers := map[START := Header(INITIAL_SIZE, 1)];
      blocks := InitialHeap().blocks;
    }

    /** The walk of kmalloc: the address of the first free block that is large enough, or the end of the heap. */
    method FindFit(total: nat) returns (cur: nat)
      requires Good()
      ensures FoundAt(State(), total, cur)
    {
      ChainBounds(blocks, START, heapEnd);
      cur := START;
      ghost var k := 0;
      while cur < heapEnd
        invariant 0 <= k <= |blocks|
        invariant Chain(blocks[k..], cur, heapEnd)
        invariant forall j | 0 <= j < k :: !Fits(blocks[j], total)
        decreases heapEnd - cur
      {
        assert blocks[k] in blocks;
        if headers[cur].free != 0 && headers[cur].size >= total {
          assert FirstFit(blocks, total) == k;
          return;
        }
        assert blocks[k..][1..] == blocks[k + 1..];
        cur := cur + headers[cur].size;
        k := k + 1;
      }
      ChainDone(blocks[k..], cur, heapEnd);
    }

    /** kheap_expand: false when the heap may not grow that far. */
    method Grow(total: nat) returns (ok: bool)
      requires Good() && total < WORD && heapEnd + GrowBy(total) < WORD
      modifies this
      ensures Good()
      ensures ok <==> old(heapEnd) + GrowBy(total) <= START + MAX_SIZE
      ensures State() == if ok then Larger(old(State()), total) else old(State())
      ensures Live(blocks) == old(Live(blocks)) && OffPayloads(old(headers), headers, Live(blocks), heapEnd)
    {
      var grow := GrowBy(total);
      if (heapEnd + grow) % WORD > START + MAX_SIZE { return false; }
      ExtendBy(grow);
      ok := true;
    }

    /** The new memory becomes a free block, merged into the last one if that is free. */
    method ExtendBy(grow: nat)
      requires Good() && grow % 8 == 0 && grow >= MIN_BLOCK && heapEnd + grow <= START + MAX_SIZE
      modifies this
      ensures Good()
      ensures State() == Heap(Expand(old(blocks), old(heapEnd), grow), old(heapEnd) + grow)
      ensures Live(blocks) == old(Live(blocks)) && OffPayloads(old(headers), headers, Live(blocks), heapEnd)
    {
      ExpandKeeps(blocks, heapEnd, grow);
      var last := FindLast();
      ExpandInMemory(headers, blocks, heapEnd, grow);
      ExpandOff(headers, blocks, heapEnd, grow);
      WriteExpansion(last, grow);
      blocks := Expand(blocks, heapEnd, grow);
      heapEnd := heapEnd + grow;
    }

    /** The header writes of an expansion. */
    method WriteExpansion(last: nat, grow: nat)
      requires InMemory(headers, blocks) && Chain(blocks, START, heapEnd) && Sized(blocks)
      requires blocks != [] && last == blocks[|blocks| - 1].addr
      modifies this`headers
      ensures headers == ExpandedHeaders(old(headers), blocks, heapEnd, grow)
    {
      ChainEnd(blocks, START, heapEnd);
      assert blocks[|blocks| - 1] in blocks;
      headers := headers[heapEnd := Header(grow, 1)];
      if headers[last].free != 0 {
        headers := headers[last := headers[last].(size := headers[last].size + headers[heapEnd].size)];
      }
    }

    /** The walk of kheap_expand to the last block. */
    method FindLast() returns (last: nat)
      requires Good()
      ensures blocks != [] && last == blocks[|blocks| - 1].addr
    {
      var cur := START;
      last := START;
      ghost var k := 0;
      while cur < heapEnd
        invariant 0 <= k <= |blocks|
        invariant Chain(blocks[k..], cur, heapEnd)
        invariant k > 0 ==> last == blocks[k - 1].addr
        decreases heapEnd - cur
      {
        assert blocks[k] in blocks;
        assert blocks[k..][1..] == blocks[k + 1..];
        last := cur;
        cur := cur + headers[cur].size;
        k := k + 1;
      }
      ChainDone(blocks[k..], cur, heapEnd);
    }

    /** The block found is split if the rest can be a block of its own, and marked as in use. */
    method TakeBlock(cur: nat, total: nat, ghost i: nat)
      requires Good() && i < |blocks| && blocks[i].addr == cur && Fits(blocks[i], total)
      requires total % 8 == 0 && total >= MIN_BLOCK
      modifies this`headers, this`blocks
      ensures Good() && blocks == Allocate(old(blocks), i, total)
      ensures OffPayloads(old(headers), headers, old(Live(blocks)), heapEnd)
    {
      AllocateKeeps(blocks, heapEnd, i, total);
      AllocateInMemory(headers, blocks, heapEnd, i, total);
      TakeOff(headers, blocks, heapEnd, i, total);
      SplitBlock(cur, total, i);
      blocks := Allocate(blocks, i, total);
    }

    /** The header writes of a split and of marking the block as in use. */
    method SplitBlock(cur: nat, total: nat, ghost i: nat)
      requires InMemory(headers, blocks) && i < |blocks| && blocks[i].addr == cur && blocks[i].size >= total
      requires total > 0
      modifies this`headers
      ensures headers == TakenHeaders(old(headers), blocks[i], total)
    {
      assert blocks[i] in blocks;
      if headers[cur].size >= total + MIN_BLOCK {
        headers := headers[cur + total := Header(headers[cur].size - total, 1)];
        headers := headers[cur := headers[cur].(size := total)];
      }
      headers := headers[cur := headers[cur].(free := 0)];
    }

    /** The search of kmalloc with its retries: the heap grows until the block fits or the heap may grow no more. */
    method Provide(total: nat) returns (cur: nat)
      requires Good() && total % 8 == 0 && MIN_BLOCK <= total < WORD && EndFits(State(), total)
      modifies this
      ensures Good() && FoundAt(State(), total, cur) && State() == Provided(old(State()), total)
      ensures old(heapEnd) <= heapEnd
      ensures Live(blocks) == old(Live(blocks)) && OffPayloads(old(headers), headers, Live(blocks), heapEnd)
    {
      cur := FindFit(total);
      var more := cur >= heapEnd;
      ghost var goal := Provided(State(), total);
      while more
        invariant Good() && FoundAt(State(), total, cur) && EndFits(State(), total) && Provided(State(), total) == goal
        invariant more ==> cur >= heapEnd
        invariant (!more ==> State() == goal) && old(heapEnd) <= heapEnd
        invariant Live(blocks) == old(Live(blocks)) && OffPayloads(old(headers), headers, Live(blocks), heapEnd)
        decreases START + MAX_SIZE - heapEnd, more
      {
        ghost var before, end := headers, heapEnd;
        more, cur := Retry(total);
        OffTrans(old(headers), before, headers, Live(blocks), end, heapEnd);
      }
    }

    /** One round: the heap grows if it may, and the search starts again. */
    method Retry(total: nat) returns (more: bool, cur: nat)
      requires Good() && total % 8 == 0 && MIN_BLOCK <= total < WORD && EndFits(State(), total)
      requires FirstFit(blocks, total) == |blocks|
      modifies this
      ensures Good() && FoundAt(State(), total, cur) && EndFits(State(), total)
      ensures Provided(State(), total) == Provided(old(State()), total)
      ensures !more ==> State() == Provided(State(), total)
      ensures heapEnd >= old(heapEnd) && (more ==> cur >= heapEnd > old(heapEnd))
      ensures Live(blocks) == old(Live(blocks)) && OffPayloads(old(headers), headers, Live(blocks), heapEnd)
    {
      ghost var h := State();
      GrowsOn(h, total);
      more := Grow(total);
      assert Provided(State(), total) == Provided(h, total);
      cur := FindFit(total);
      if more { more := cur >= heapEnd; }
    }

    /** kmalloc. The headers it writes are off the payloads of all blocks that were live before. */
    method Kmalloc(size: Word) returns (ptr: nat)
      requires Good() && InReach(State(), size)
      modifies this
      ensures Good()
      ensures (State(), ptr) == Malloc(old(State()), size) && old(heapEnd) <= heapEnd
      ensures OffPayloads(old(headers), headers, old(Live(blocks)), heapEnd)
    {
      if size == 0 { return 0; }
      ReachFits(State(), size);
      ptr := GiveBlock(BlockSize(size));
    }

    method GiveBlock(total: nat) returns (ptr: nat)
      requires Good() && total % 8 == 0 && MIN_BLOCK <= total < WORD && EndFits(State(), total)
      modifies this
      ensures Good()
      ensures (State(), ptr) == MallocBlock(old(State()), total) && old(heapEnd) <= heapEnd
      ensures OffPayloads(old(headers), headers, old(Live(blocks)), heapEnd)
    {
      var cur := Provide(total);
      if cur >= heapEnd { return 0; }
      ghost var before, live := headers, Live(blocks);
      ptr := TakeFirst(cur, total);
      OffTrans(old(headers), before, headers, live, heapEnd, heapEnd);
    }

    /** The block the search found is handed out. */
    method TakeFirst(cur: nat, total: nat) returns (ptr: nat)
      requires Good() && total % 8 == 0 && total >= MIN_BLOCK && FoundAt(State(), total, cur) && cur < heapEnd
      modifies this`headers, this`blocks
      ensures Good() && FirstFit(old(blocks), total) < |old(blocks)| && ptr != 0
      ensures var i := FirstFit(old(blocks), total);
              blocks == Allocate(old(blocks), i, total) && ptr == old(blocks)[i].addr + HEADER
      ensures OffPayloads(old(headers), headers, old(Live(blocks)), heapEnd)
    {
      TakeBlock(cur, total, FirstFit(blocks, total));
      ptr := cur + HEADER;
    }

    /**
     kfree: marks the block free and coalesces. `b` is the live block at the pointer. The headers it writes are off
     the payloads of all blocks that stay live.
     */
    method Kfree(ptr: nat, ghost b: Block)
      requires Good() && (ptr != 0 ==> b in Live(blocks) && ptr == b.addr + HEADER)
      modifies this`headers, this`blocks
      ensures Good()
      ensures State() == if ptr == 0 then old(State()) else Free(old(State()), b)
      ensures OffPayloads(old(headers), headers, Live(blocks), heapEnd)
    {
      if ptr == 0 { return; }
      FreeKeeps(State(), b);
      ghost var i := IndexOf(blocks, b);
      MarkFree(blocks, heapEnd, i);
      MarkInMemory(headers, blocks, heapEnd, i);
      ghost var live := Live(blocks) - {b};
      WriteIn(headers, Header(b.size, 1), blocks, heapEnd, i, b.addr, live);
      headers := headers[ptr - HEADER := headers[ptr - HEADER].(free := 1)];
      blocks := blocks[i := b.(free := true)];
      ghost var before := headers;
      CoalesceWalk(live);
      OffTrans(old(headers), before, headers, live, heapEnd, heapEnd);
    }

    /**
     A client stores into the payload of its block. What reads as a header at any address that overlaps
     the payload may be anything afterwards; the blocks are as before.
     */
    method ClientStore(ghost b: Block, stored: map<nat, Header>)
      requires Good() && b in Live(blocks)
      requires forall a | a in stored :: b.addr + HEADER < a + HEADER && a < b.addr + b.size
      modifies this`headers
      ensures Good() && State() == old(State())
    {
      forall c | c in blocks
        ensures c.addr !in stored
      {
        if c != b { PayloadApart(State(), b, c); }
      }
      headers := headers + stored;
    }

    /** The coalescing walk of kfree. */
    method CoalesceWalk(ghost live: set<Block>)
      requires Chain(blocks, START, heapEnd) && Sized(blocks) && InMemory(headers, blocks) && live <= Live(blocks)
      modifies this`headers, this`blocks
      ensures blocks == Coalesce(old(blocks)) && InMemory(headers, blocks)
      ensures OffPayloads(old(headers), headers, live, heapEnd)
    {
      var cur := START;
      ghost var goal := Coalesce(blocks);
      ghost var before, rest := [], blocks;
      while cur < heapEnd
        invariant blocks == before + rest && Sized(blocks) && InMemory(headers, blocks)
        invariant Chain(before, START, cur) && Chain(rest, cur, heapEnd)
        invariant goal == before + Coalesce(rest)
        invariant live <= Live(blocks) && OffPayloads(old(headers), headers, live, heapEnd)
        decreases heapEnd - cur
      {
        ghost var was := headers;
        cur, before, rest := WalkStep(cur, before, rest, live);
        OffTrans(old(headers), was, headers, live, heapEnd, heapEnd);
      }
      ChainDone(rest, cur, heapEnd);
    }

    /** One round of the walk: the block at hand takes in the free blocks after it, and the walk moves past it. */
    method WalkStep(cur: nat, ghost before: seq<Block>, ghost rest: seq<Block>, ghost live: set<Block>)
      returns (next: nat, ghost done: seq<Block>, ghost ahead: seq<Block>)
      requires blocks == before + rest && Sized(blocks) && InMemory(headers, blocks)
      requires Chain(before, START, cur) && Chain(rest, cur, heapEnd) && cur < heapEnd && live <= Live(blocks)
      modifies this`headers, this`blocks
      ensures blocks == done + ahead && Sized(blocks) && InMemory(headers, blocks)
      ensures Chain(done, START, next) && Chain(ahead, next, heapEnd) && next > cur
      ensures done + Coalesce(ahead) == before + Coalesce(rest)
      ensures live <= Live(blocks) && OffPayloads(old(headers), headers, live, heapEnd)
    {
      ghost var merged := rest;
      ReadHead(headers, before, rest, cur, heapEnd);
      if headers[cur].free != 0 { merged := MergeRun(cur, before, rest, live); }
      ReadHead(headers, before, merged, cur, heapEnd);
      done, ahead := StepOver(before, merged, cur, heapEnd);
      next := cur + headers[cur].size;
    }

    /** The inner loop of the walk: a free block takes in the free blocks that follow it. */
    method MergeRun(cur: nat, ghost before: seq<Block>, ghost after: seq<Block>, ghost live: set<Block>)
      returns (ghost rest: seq<Block>)
      requires blocks == before + after && Sized(blocks) && InMemory(headers, blocks)
      requires Chain(before, START, cur) && Chain(after, cur, heapEnd) && after != [] && after[0].free
      requires live <= Live(blocks)
      modifies this`headers, this`blocks
      ensures blocks == before + rest && Sized(blocks) && InMemory(headers, blocks)
      ensures Chain(rest, cur, heapEnd) && Coalesce(rest) == Coalesce(after)
      ensures rest != [] && (|rest| > 1 ==> !rest[1].free)
      ensures live <= Live(blocks) && OffPayloads(old(headers), headers, live, heapEnd)
    {
      rest := after;
      SecondBlock(headers, before, rest, cur, heapEnd);
      var next: nat := cur + headers[cur].size;
      while next < heapEnd && headers[next].free != 0
        invariant blocks == before + rest && Sized(blocks) && InMemory(headers, blocks)
        invariant Chain(rest, cur, heapEnd) && rest != [] && rest[0].free && Coalesce(rest) == Coalesce(after)
        invariant FollowedBy(headers, rest, cur, next, heapEnd)
        invariant live <= Live(blocks) && OffPayloads(old(headers), headers, live, heapEnd)
        decreases |rest|
      {
        MergeInMemory(headers, before, rest, cur, heapEnd);
        MergeOff(old(headers), headers, Header(headers[cur].size + headers[next].size, headers[cur].free), before, rest,
                 cur, heapEnd, live);
        headers := headers[cur := Header(headers[cur].size + headers[next].size, headers[cur].free)];
        rest := [Merged(rest[0], rest[1])] + rest[2..];
        blocks := before + rest;
        SecondBlock(headers, before, rest, cur, heapEnd);
        next := cur + headers[cur].size;
      }
    }
  }

  /**
   One round of the retry: growing leads to the same heap in the end, and the next end does not wrap around either.
   */
  lemma GrowsOn(h: Heap, total: nat)
    requires Valid(h) && 0 < total < WORD && EndFits(h, total) && FirstFit(h.blocks, total) == |h.blocks|
    ensures h.end + GrowBy(total) < WORD
    ensures h.end + GrowBy(total) > START + MAX_SIZE ==> Provided(h, total) == h
    ensures h.end + GrowBy(total) <= START + MAX_SIZE ==>
              Provided(Larger(h, total), total) == Provided(h, total) && EndFits(Larger(h, total), total)
  {
    if h.end + GrowBy(total) <= START + MAX_SIZE && total + 4095 < WORD {
      GrownFits(h.blocks, h.end, GrowBy(total), total);
    }
  }

  lemma OffTrans(a: map<nat, Header>, b: map<nat, Header>, c: map<nat, Header>, live: set<Block>, end: nat, end': nat)
    requires OffPayloads(a, b, live, end) && OffPayloads(b, c, live, end') && end <= end'
    ensures OffPayloads(a, c, live, end')
  {
    forall x | x in c && (x in a ==> c[x] != a[x])
      ensures Off(x, live, end')
    {
      if x in b && c[x] == b[x] { assert Off(x, live, end); }
    }
  }

  /** Two calls in a row spare what both spare. */
  lemma OffThen(a: map<nat, Header>, b: map<nat, Header>, c: map<nat, Header>, live: set<Block>, live1: set<Block>,
                live2: set<Block>, end: nat, end': nat)
    requires OffPayloads(a, b, live1, end) && OffPayloads(b, c, live2, end') && end <= end'
    requires live <= live1 && live <= live2
    ensures OffPayloads(a, c, live, end')
  {
    forall x | x in c && (x in a ==> c[x] != a[x])
      ensures Off(x, live, end')
    {
      if x in b && c[x] == b[x] { assert Off(x, live1, end); } else { assert Off(x, live2, end'); }
    }
  }

  /** A header written at a block's start, or anywhere inside a free block, is off all live payloads. */
  lemma WriteIn(m: map<nat, Header>, x: Header, bs: seq<Block>, end: nat, i: nat, a: nat, live: set<Block>)
    requires Chain(bs, START, end) && i < |bs| && bs[i].addr <= a && a + HEADER <= bs[i].addr + bs[i].size
    requires bs[i].free || a == bs[i].addr
    requires live <= Live(bs)
    ensures Off(a, live, end) && OffPayloads(m, m[a := x], live, end)
  {
    ChainBounds(bs, START, end);
    assert bs[i] in bs;
    forall b | b in live
      ensures a <= b.addr || b.addr + b.size <= a
    {
      var j :| 0 <= j < |bs| && bs[j] == b;
      if j < i { ChainApart(bs, START, end, j, i); }
      if i < j { ChainApart(bs, START, end, i, j); }
    }
  }

  /**
   The headers after an expansion: a new one at the old end, whose size is added to the last block if that is free.
   */
  function ExpandedHeaders(headers: map<nat, Header>, bs: seq<Block>, end: nat, grow: nat): map<nat, Header>
    requires bs != []
  {
    var last, more := bs[|bs| - 1], headers[end := Header(grow, 1)];
    if last.free then more[last.addr := Header(last.size + grow, 1)] else more
  }

  /** The writes of an expansion fall into the free block at the new end. */
  lemma ExpandOff(headers: map<nat, Header>, bs: seq<Block>, end: nat, grow: nat)
    requires Layout(bs, end) && bs != [] && grow % 8 == 0 && grow >= MIN_BLOCK
    ensures OffPayloads(headers, ExpandedHeaders(headers, bs, end, grow), Live(bs), end + grow)
  {
    ExpandKeeps(bs, end, grow);
    LastPlace(bs, end, grow);
    ExpandOffIn(headers, bs[|bs| - 1], Expand(bs, end, grow), end, grow, Live(bs));
  }

  lemma ExpandOffIn(headers: map<nat, Header>, last: Block, bs: seq<Block>, end: nat, grow: nat, live: set<Block>)
    requires Chain(bs, START, end + grow) && bs != [] && live <= Live(bs) && grow >= MIN_BLOCK
    requires var b := bs[|bs| - 1]; b.free && b.addr + b.size == end + grow && b.addr <= end
    requires last.free ==> bs[|bs| - 1].addr == last.addr
    ensures var more := headers[end := Header(grow, 1)];
            OffPayloads(headers, if last.free then more[last.addr := Header(last.size + grow, 1)] else more,
                        live, end + grow)
  {
    var k := |bs| - 1;
    if last.free {
      WriteTwo(headers, end, Header(grow, 1), last.addr, Header(last.size + grow, 1), bs, end + grow, k, live);
    } else {
      WriteIn(headers, Header(grow, 1), bs, end + grow, k, end, live);
    }
  }

  lemma WriteTwo(m: map<nat, Header>, a: nat, x: Header, a': nat, x': Header, bs: seq<Block>, end: nat, i: nat,
                 live: set<Block>)
    requires Chain(bs, START, end) && i < |bs| && bs[i].free && live <= Live(bs)
    requires bs[i].addr <= a && a + HEADER <= bs[i].addr + bs[i].size
    requires bs[i].addr <= a' && a' + HEADER <= bs[i].addr + bs[i].size
    ensures OffPayloads(m, m[a := x][a' := x'], live, end)
  {
    WriteIn(m, x, bs, end, i, a, live);
    WriteIn(m[a := x], x', bs, end, i, a', live);
    OffTrans(m, m[a := x], m[a := x][a' := x'], live, end, end);
  }

  /** Where the last block of a grown heap is. */
  lemma LastPlace(bs: seq<Block>, end: nat, grow: nat)
    requires Layout(bs, end) && bs != []
    ensures var last, bs' := bs[|bs| - 1], Expand(bs, end, grow);
            var b := bs'[|bs'| - 1];
            && b.free && b.addr + b.size == end + grow && b.addr <= end
            && (last.free ==> b.addr == last.addr && last.size >= MIN_BLOCK)
  {
    assert bs[|bs| - 1] in bs;
    ChainEnd(bs, START, end);
  }

  lemma ChainEnd(bs: seq<Block>, start: nat, end: nat)
    requires Chain(bs, start, end) && bs != []
    ensures bs[|bs| - 1].addr + bs[|bs| - 1].size == end
  {
    SplitAt(bs, |bs| - 1, start, end);
    assert bs[|bs|..] == [];
  }

  /** The writes of handing out a block fall into that block, which was free. */
  lemma TakeOff(headers: map<nat, Header>, bs: seq<Block>, end: nat, i: nat, total: nat)
    requires Layout(bs, end) && i < |bs| && Fits(bs[i], total) && total >= MIN_BLOCK
    ensures OffPayloads(headers, TakenHeaders(headers, bs[i], total), Live(bs), end)
  {
    var b := bs[i];
    assert b in bs;
    if b.size >= total + MIN_BLOCK {
      WriteTwo(headers, b.addr + total, Header(b.size - total, 1), b.addr, Header(total, 0), bs, end, i, Live(bs));
    } else {
      WriteIn(headers, Header(b.size, 0), bs, end, i, b.addr, Live(bs));
    }
  }

  /** The write of a merge falls on the start of the block that takes in the other. */
  lemma MergeOff(first: map<nat, Header>, headers: map<nat, Header>, x: Header, before: seq<Block>, rest: seq<Block>,
                 cur: nat, end: nat, live: set<Block>)
    requires |rest| >= 2 && rest[0].free && rest[1].free && Sized(before + rest)
    requires Chain(before, START, cur) && Chain(rest, cur, end)
    requires live <= Live(before + rest) && OffPayloads(first, headers, live, end)
    ensures OffPayloads(first, headers[cur := x], live, end)
    ensures live <= Live(before + ([Merged(rest[0], rest[1])] + rest[2..]))
  {
    ChainCat(before, rest, START, cur, end);
    assert (before + rest)[|before|] == rest[0] && rest[0] in before + rest;
    WriteIn(headers, x, before + rest, end, |before|, cur, live);
    OffTrans(first, headers, headers[cur := x], live, end, end);
    MergeLive(before, rest);
  }

  lemma MergeLive(before: seq<Block>, rest: seq<Block>)
    requires |rest| >= 2 && rest[0].free && rest[1].free
    ensures Live(before + ([Merged(rest[0], rest[1])] + rest[2..])) == Live(before + rest)
  {
    LiveCat(before, [Merged(rest[0], rest[1])] + rest[2..]);
    LiveCat(before, rest);
    assert rest == [rest[0], rest[1]] + rest[2..];
    LiveCat([rest[0], rest[1]], rest[2..]);
    LiveCat([Merged(rest[0], rest[1])], rest[2..]);
  }

  /** `next` is where the block after the first one is, or the end. */
  predicate FollowedBy(headers: map<nat, Header>, rest: seq<Block>, cur: nat, next: nat, end: nat) {
    && rest != [] && cur in headers && next == cur + headers[cur].size
    && (if |rest| > 1 then rest[1].addr == next < end && next in headers && headers[next] == HeaderOf(rest[1])
        else next >= end)
  }

  lemma SecondBlock(headers: map<nat, Header>, before: seq<Block>, rest: seq<Block>, cur: nat, end: nat)
    requires Chain(rest, cur, end) && rest != [] && Sized(before + rest) && InMemory(headers, before + rest)
    ensures cur in headers && FollowedBy(headers, rest, cur, cur + headers[cur].size, end)
  {
    assert rest[0] in before + rest;
    if |rest| == 1 {
      assert rest[1..] == [];
    } else {
      assert rest[1] in before + rest;
      ChainBounds(rest[1..], cur + rest[0].size, end);
    }
  }

  lemma SizedCat(a: seq<Block>, b: seq<Block>)
    ensures Sized(a + b) <==> Sized(a) && Sized(b)
  {
    if Sized(a + b) {
      assert forall x | x in a :: x in a + b;
      assert forall x | x in b :: x in a + b;
    }
  }

  /** The header where the walk stands is that of the first block ahead. */
  lemma ReadHead(headers: map<nat, Header>, before: seq<Block>, rest: seq<Block>, cur: nat, end: nat)
    requires Chain(rest, cur, end) && cur < end && InMemory(headers, before + rest) && Sized(before + rest)
    ensures rest != [] && cur in headers && headers[cur] == HeaderOf(rest[0]) && headers[cur].size >= MIN_BLOCK
  {
    assert rest[0] in before + rest;
  }

  /** A block that will not merge with its successor is done. */
  lemma StepOver(before: seq<Block>, rest: seq<Block>, cur: nat, end: nat) returns (done: seq<Block>, ahead: seq<Block>)
    requires Chain(before, START, cur) && Chain(rest, cur, end) && rest != []
    requires rest[0].free && |rest| > 1 ==> !rest[1].free
    ensures Chain(done, START, cur + rest[0].size) && Chain(ahead, cur + rest[0].size, end)
    ensures before + rest == done + ahead && before + Coalesce(rest) == done + Coalesce(ahead)
  {
    done, ahead := before + [rest[0]], rest[1..];
    NextBlock(before, rest, cur, end);
    CoalesceHead(rest);
    Assoc(before, rest[0], rest[1..]);
    Assoc(before, rest[0], Coalesce(rest[1..]));
  }

  lemma NextBlock(before: seq<Block>, rest: seq<Block>, cur: nat, end: nat)
    requires Chain(before, START, cur) && Chain(rest, cur, end) && rest != []
    ensures Chain(before + [rest[0]], START, cur + rest[0].size) && rest == [rest[0]] + rest[1..]
  {
    assert [rest[0]][1..] == [];
    ChainCat(before, [rest[0]], START, cur, cur + rest[0].size);
  }

  lemma CoalesceHead(rest: seq<Block>)
    requires rest != [] && (rest[0].free && |rest| > 1 ==> !rest[1].free)
    ensures Coalesce(rest) == [rest[0]] + Coalesce(rest[1..])
  {
    if |rest| == 1 { assert rest[1..] == []; }
  }

  lemma Assoc<T>(a: seq<T>, x: T, c: seq<T>)
    ensures a + ([x] + c) == a + [x] + c
  {
  }

  lemma MarkInMemory(headers: map<nat, Header>, bs: seq<Block>, end: nat, i: nat)
    requires Layout(bs, end) && InMemory(headers, bs) && i < |bs|
    ensures bs[i].addr in headers
    ensures InMemory(headers[bs[i].addr := headers[bs[i].addr].(free := 1)], bs[i := bs[i].(free := true)])
  {
    assert bs[i] in bs;
    var m := bs[i := bs[i].(free := true)];
    forall j | 0 <= j < |bs| && j != i
      ensures bs[j].addr != bs[i].addr && bs[j] in bs
    {
      if j < i { ChainApart(bs, START, end, j, i); } else { ChainApart(bs, START, end, i, j); }
    }
  }

  /** The memory after the heap has grown: a new header at the old end, or its size added to the last one. */
  lemma ExpandInMemory(headers: map<nat, Header>, bs: seq<Block>, end: nat, grow: nat)
    requires Layout(bs, end) && InMemory(headers, bs) && bs != []
    ensures InMemory(ExpandedHeaders(headers, bs, end, grow), Expand(bs, end, grow))
  {
    var init, last := bs[..|bs| - 1], bs[|bs| - 1];
    ChainBounds(bs, START, end);
    assert forall b | b in bs :: b.addr < end;
    if last.free {
      InitInMemory(headers, bs, end);
      InMemoryOther(headers, init, end, Header(grow, 1));
      InMemoryMore(headers[end := Header(grow, 1)], init, last.(size := last.size + grow));
    } else {
      InMemoryMore(headers, bs, Block(end, grow, true));
    }
  }

  lemma InitInMemory(headers: map<nat, Header>, bs: seq<Block>, end: nat)
    requires Layout(bs, end) && InMemory(headers, bs) && bs != []
    ensures var init, last := bs[..|bs| - 1], bs[|bs| - 1];
            InMemory(headers, init) && forall b | b in init :: b.addr < last.addr && b.addr < end
  {
    var init, last := bs[..|bs| - 1], bs[|bs| - 1];
    SplitAt(bs, |bs| - 1, START, end);
    ChainBounds(init, START, last.addr);
    ChainBounds(bs, START, end);
    assert last in bs && forall b | b in init :: b in bs;
  }

  lemma InMemoryOther(headers: map<nat, Header>, bs: seq<Block>, a: nat, x: Header)
    requires InMemory(headers, bs) && forall b | b in bs :: b.addr != a
    ensures InMemory(headers[a := x], bs)
  {
  }

  lemma InMemoryMore(headers: map<nat, Header>, bs: seq<Block>, b: Block)
    requires InMemory(headers, bs) && forall c | c in bs :: c.addr != b.addr
    ensures InMemory(headers[b.addr := HeaderOf(b)], bs + [b])
  {
  }

  /** One merge of the coalescing walk in memory: the first header takes in the size of the second. */
  lemma MergeInMemory(headers: map<nat, Header>, before: seq<Block>, rest: seq<Block>, cur: nat, end: nat)
    requires |rest| >= 2 && rest[0].free && rest[1].free && Sized(before + rest)
    requires Chain(before, START, cur) && Chain(rest, cur, end) && InMemory(headers, before + rest)
    ensures cur in headers && rest[1].addr in headers
    ensures var merged := headers[cur := Header(headers[cur].size + headers[rest[1].addr].size, headers[cur].free)];
            var rest' := [Merged(rest[0], rest[1])] + rest[2..];
            && InMemory(merged, before + rest') && Sized(before + rest')
            && Chain(rest', cur, end) && Coalesce(rest') == Coalesce(rest)
  {
    SizedCat(before, rest);
    MergeStep(rest, cur, end);
    SizedCat(before, [Merged(rest[0], rest[1])] + rest[2..]);
    assert rest[0] in before + rest && rest[1] in before + rest;
    ChainBounds(before, START, cur);
    assert rest[1..][1..] == rest[2..];
    ChainBounds(rest[2..], rest[1].addr + rest[1].size, end);
    forall b | b in before || b in rest[2..]
      ensures b.addr != cur && b in before + rest
    {
    }
  }

  /** The memory after a block has been given out: only its own header and the one of the rest were written. */
  function TakenHeaders(headers: map<nat, Header>, b: Block, total: nat): map<nat, Header> {
    if b.size >= total + MIN_BLOCK
    then headers[b.addr + total := Header(b.size - total, 1)][b.addr := Header(total, 0)]
    else headers[b.addr := Header(b.size, 0)]
  }

  lemma AllocateInMemory(headers: map<nat, Header>, bs: seq<Block>, end: nat, i: nat, total: nat)
    requires Layout(bs, end) && InMemory(headers, bs) && i < |bs| && Fits(bs[i], total) && total >= MIN_BLOCK
    ensures InMemory(TakenHeaders(headers, bs[i], total), Allocate(bs, i, total))
  {
    forall j | 0 <= j < |bs| && j != i
      ensures bs[j].addr + bs[j].size <= bs[i].addr || bs[i].addr + bs[i].size <= bs[j].addr
    {
      if j < i { ChainApart(bs, START, end, j, i); } else { ChainApart(bs, START, end, i, j); }
    }
    forall b | b in bs[..i] + bs[i + 1..]
      ensures b.addr + b.size <= bs[i].addr || bs[i].addr + bs[i].size <= b.addr
      ensures b in bs
    {
    }
  }
}
