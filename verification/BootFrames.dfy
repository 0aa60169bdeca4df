/**
 What pmm_init (kernel/src/pmm.c) makes of the memory map: which frames are free and what the
 counters say, with the truncations to 32 bits that the code makes.
 */
module BootFrames {
  import opened Bits
  import opened Frames

  const AVAILABLE: Half := 1
  const LOW_FRAMES := 256

  /** struct mmap_region. */
  datatype Region = Region(base: Word, length: Word, kind: Half)

  /** The first frame of a region and the frame after its last one, as pmm_init computes them. */
  function FirstFrame(r: Region): nat {
    (r.base + 4095) % WORD / 4096 % HALF
  }

  function EndFrame(r: Region): nat {
    var e := (r.base + r.length) % WORD / 4096 % HALF;
    if e > MAX_FRAMES then MAX_FRAMES else e
  }

  predicate Between(f: nat, lo: nat, hi: nat) {
    lo <= f < hi
  }

  /** The frames between two numbers. */
  function Range(lo: nat, hi: nat): set<nat> {
    set f: nat | f < hi && Between(f, lo, hi)
  }

  lemma {:induction false} RangeSize(lo: nat, hi: nat)
    ensures |Range(lo, hi)| == if lo <= hi then hi - lo else 0
  {
    if lo < hi {
      RangeSize(lo, hi - 1);
      assert Range(lo, hi) == Range(lo, hi - 1) + {hi - 1};
    } else {
      assert Range(lo, hi) == {};
    }
  }

  /** The frames pmm_init takes from a region. */
  function Taken(r: Region): set<nat> {
    if r.kind == AVAILABLE then Range(FirstFrame(r), EndFrame(r)) else {}
  }

  // ---- Unions and counts ----

  function Union(ss: seq<set<nat>>): set<nat> {
    if ss == [] then {} else ss[0] + Union(ss[1..])
  }

  function Total(ss: seq<set<nat>>): nat {
    if ss == [] then 0 else |ss[0]| + Total(ss[1..])
  }

  predicate Apart(ss: seq<set<nat>>) {
    forall i, j | 0 <= i < j < |ss| :: ss[i] !! ss[j]
  }

  lemma {:induction false} InUnion(ss: seq<set<nat>>, f: nat)
    ensures f in Union(ss) <==> exists s | s in ss :: f in s
  {
    if ss != [] {
      InUnion(ss[1..], f);
      assert ss == [ss[0]] + ss[1..];
    }
  }

  lemma {:induction false} UnionCat(a: seq<set<nat>>, s: set<nat>)
    ensures Union(a + [s]) == Union(a) + s && Total(a + [s]) == Total(a) + |s|
  {
    if a == [] {
      assert [s][1..] == [];
    } else {
      UnionCat(a[1..], s);
      assert (a + [s])[1..] == a[1..] + [s];
    }
  }

  lemma UnionSize<T>(a: set<T>, b: set<T>)
    ensures |a + b| <= |a| + |b|
    ensures |a + b| == |a| + |b| <==> a !! b
  {
    assert a + b == a + (b - a);
    if a !! b {
      assert b - a == b;
    } else {
      var x :| x in a && x in b;
      assert b - a <= b - {x};
      SubsetSize(b - a, b - {x});
    }
  }

  lemma ApartHead(ss: seq<set<nat>>)
    requires ss != []
    ensures Apart(ss) <==> Apart(ss[1..]) && ss[0] !! Union(ss[1..])
  {
    var rest := ss[1..];
    forall f | f in ss[0]
      ensures f in Union(rest) <==> exists s | s in rest :: f in s
    {
      InUnion(rest, f);
    }
    if Apart(ss) {
      assert forall i | 0 <= i < |rest| :: rest[i] == ss[i + 1];
    }
    if Apart(rest) && ss[0] !! Union(rest) {
      forall i, j | 0 <= i < j < |ss|
        ensures ss[i] !! ss[j]
      {
        if i == 0 { HeadApart(ss, j); } else { assert ss[i] == rest[i - 1] && ss[j] == rest[j - 1]; }
      }
    }
  }

  lemma HeadApart(ss: seq<set<nat>>, j: nat)
    requires 0 < j < |ss| && ss[0] !! Union(ss[1..])
    ensures ss[0] !! ss[j]
  {
    forall f | f in ss[j]
      ensures f in Union(ss[1..])
    {
      assert ss[j] == ss[1..][j - 1];
      InUnion(ss[1..], f);
    }
  }

  /** The sizes add up to the size of the union exactly when the sets are disjoint. */
  lemma {:induction false} TotalIsSize(ss: seq<set<nat>>)
    ensures |Union(ss)| <= Total(ss)
    ensures Total(ss) == |Union(ss)| <==> Apart(ss)
  {
    if ss != [] {
      TotalIsSize(ss[1..]);
      UnionSize(ss[0], Union(ss[1..]));
      ApartHead(ss);
    }
  }

  /** What pmm_init takes from each region. */
  function AllTaken(rs: seq<Region>): seq<set<nat>> {
    if rs == [] then [] else AllTaken(rs[..|rs| - 1]) + [Taken(rs[|rs| - 1])]
  }

  lemma {:induction false} TakenAt(rs: seq<Region>)
    ensures |AllTaken(rs)| == |rs| && forall i | 0 <= i < |rs| :: AllTaken(rs)[i] == Taken(rs[i])
  {
    if rs != [] { TakenAt(rs[..|rs| - 1]); }
  }

  lemma {:induction false} TotalBound(ss: seq<set<nat>>)
    requires forall s | s in ss :: |s| <= MAX_FRAMES
    ensures Total(ss) <= MAX_FRAMES * |ss|
  {
    if ss != [] { TotalBound(ss[1..]); }
  }

  // ---- pmm_init ----

  lemma {:induction false} AllFull(bitmap: Bitmap, n: nat)
    requires n <= BITMAP_BYTES && forall j | 0 <= j < n :: bitmap[j] == 0xFF
    ensures UsedBelow(bitmap, 8 * n)
  {
    if n > 0 {
      AllFull(bitmap, n - 1);
      FullByte(bitmap, n - 1);
    }
  }

  /** A 32-bit counter that stands for x, after going around k times. */
  predicate Counts(h: Half, k: int, x: int) {
    x == h + k * 0x1_0000_0000
  }

  lemma CountsUp(h: Half, k: int, x: int) returns (k': int)
    requires Counts(h, k, x)
    ensures Counts((h + 1) % HALF, k', x + 1)
  {
    k' := if h + 1 == HALF then k + 1 else k;
  }

  lemma CountsDown(h: Half, k: int, x: int) returns (k': int)
    requires Counts(h, k, x)
    ensures Counts((h - 1) % HALF, k', x - 1)
  {
    k' := if h == 0 then k - 1 else k;
  }

  /** What a 32-bit counter reads. */
  predicate Reads(h: Half, x: int) {
    h == x % HALF
  }

  lemma CountsMod(h: Half, k: int, x: int, y: int)
    requires Counts(h, k, x) && x == y
    ensures Reads(h, y)
  {
  }

  /** Where the two counters stand: how often they have gone around, and what they count. */
  datatype Tally = Tally(k: int, total: int, l: int, used: int)

  ghost predicate Tallied(frames: FrameAllocator, t: Tally)
    reads frames
  {
    Counts(frames.totalFrames, t.k, t.total) && Counts(frames.usedFrames, t.l, t.used)
  }

  /** The first loop: every frame is marked as used, and nothing is counted yet. */
  method MarkAllUsed(frames: FrameAllocator) returns (ghost t: Tally)
    requires frames.Valid()
    modifies frames, frames.bitmap
    ensures frames.Free() == {} && Tallied(frames, t) && t.total == 0 && t.used == MAX_FRAMES
  {
    for i := 0 to BITMAP_BYTES
      invariant forall j | 0 <= j < i :: frames.bitmap[j] == 0xFF
    {
      frames.bitmap[i] := 0xFF;
    }
    AllFull(frames.bitmap[..], BITMAP_BYTES);
    frames.totalFrames, frames.usedFrames := 0, MAX_FRAMES;
    t := Tally(0, 0, 0, MAX_FRAMES);
  }

  /** The loop over one available region. */
  method Release(frames: FrameAllocator, lo: nat, hi: nat, ghost t: Tally) returns (ghost t': Tally)
    requires frames.Valid() && hi <= MAX_FRAMES && Tallied(frames, t)
    modifies frames, frames.bitmap
    ensures frames.Free() == old(frames.Free()) + Range(lo, hi) && Tallied(frames, t')
    ensures t'.total == t.total + |Range(lo, hi)| && t'.used == t.used - |Range(lo, hi)|
  {
    t' := t;
    ghost var free := frames.Free();
    RangeSize(lo, hi);
    EmptyRange(lo, if hi <= lo then hi else lo);
    if hi <= lo { return; }
    for f := lo to hi
      invariant frames.Free() == free + Range(lo, f) && Tallied(frames, t')
      invariant t'.total == t.total + (f - lo) && t'.used == t.used - (f - lo)
    {
      t' := ReleaseOne(frames, f, t');
      RangeUp(lo, f);
    }
  }

  lemma EmptyRange(lo: nat, hi: nat)
    requires hi <= lo
    ensures Range(lo, hi) == {}
  {
  }

  lemma RangeUp(lo: nat, f: nat)
    requires lo <= f
    ensures Range(lo, f + 1) == Range(lo, f) + {f}
  {
  }

  method ReleaseOne(frames: FrameAllocator, f: nat, ghost t: Tally) returns (ghost t': Tally)
    requires frames.Valid() && f < MAX_FRAMES && Tallied(frames, t)
    modifies frames, frames.bitmap
    ensures frames.Free() == old(frames.Free()) + {f}
    ensures Tallied(frames, t') && t'.total == t.total + 1 && t'.used == t.used - 1
  {
    frames.MarkFree(f);
    ghost var k := CountsUp(frames.totalFrames, t.k, t.total);
    frames.totalFrames := (frames.totalFrames + 1) % HALF;
    ghost var l := CountsDown(frames.usedFrames, t.l, t.used);
    frames.usedFrames := (frames.usedFrames - 1) % HALF;
    t' := Tally(k, t.total + 1, l, t.used - 1);
  }

  /** The loops that mark low memory and the kernel as used again. */
  method Reserve(frames: FrameAllocator, lo: nat, hi: nat, ghost t: Tally) returns (ghost t': Tally)
    requires frames.Valid() && hi <= MAX_FRAMES && Tallied(frames, t)
    modifies frames`usedFrames, frames.bitmap
    ensures frames.Free() == old(frames.Free()) - Range(lo, hi) && Tallied(frames, t')
    ensures t'.total == t.total && t'.used + |frames.Free()| == t.used + |old(frames.Free())|
  {
    t' := t;
    ghost var free := frames.Free();
    EmptyRange(lo, if hi <= lo then hi else lo);
    if hi <= lo { return; }
    for f := lo to hi
      invariant AllBut(frames.Free(), free, lo, f) && Tallied(frames, t')
      invariant Balanced(t', frames.Free(), t, free)
    {
      t' := ReserveOne(frames, f, t');
    }
    AllButRange(frames.Free(), free, lo, hi);
  }

  /** What is left without the frames from lo to hi. */
  ghost predicate AllBut(left: set<nat>, free: set<nat>, lo: nat, hi: nat) {
    forall f: nat :: f in left <==> f in free && !Between(f, lo, hi)
  }

  lemma AllButRange(left: set<nat>, free: set<nat>, lo: nat, hi: nat)
    requires AllBut(left, free, lo, hi)
    ensures left == free - Range(lo, hi)
  {
  }

  /** What is no longer free is counted as used. */
  ghost predicate Balanced(t': Tally, free': set<nat>, t: Tally, free: set<nat>) {
    t'.total == t.total && t'.used + |free'| == t.used + |free|
  }

  method ReserveOne(frames: FrameAllocator, f: nat, ghost t: Tally) returns (ghost t': Tally)
    requires frames.Valid() && f < MAX_FRAMES && Tallied(frames, t)
    modifies frames`usedFrames, frames.bitmap
    ensures frames.Free() == old(frames.Free()) - {f} && Tallied(frames, t')
    ensures t'.total == t.total && t'.used + |frames.Free()| == t.used + |old(frames.Free())|
  {
    t' := t;
    ghost var free := frames.Free();
    assert f in free <==> !TestBit(frames.bitmap[..], f);
    if !TestBit(frames.bitmap[..], f) {
      frames.MarkUsed(f);
      ghost var l := CountsUp(frames.usedFrames, t.l, t.used);
      frames.usedFrames := (frames.usedFrames + 1) % HALF;
      t' := t.(l := l, used := t.used + 1);
    } else {
      assert free - {f} == free;
    }
  }

  /** The frames of the kernel image. */
  function KernelFirst(start: Word): nat {
    start / 4096 % HALF
  }

  function KernelEnd(end: Word): nat {
    var e := (end + 4095) % WORD / 4096 % HALF;
    if e > MAX_FRAMES then MAX_FRAMES else e
  }

  /** What pmm_init leaves free: the frames of the available regions, without low memory and the kernel. */
  function InitialFree(rs: seq<Region>, start: Word, end: Word): set<nat> {
    Union(AllTaken(rs)) - Range(0, LOW_FRAMES) - Range(KernelFirst(start), KernelEnd(end))
  }

  /** What pmm_init counts as used: a frame taken twice is counted twice, but used again only once. */
  function UsedAfter(taken: seq<set<nat>>, free: set<nat>): int {
    MAX_FRAMES - Total(taken) + |Union(taken)| - |free|
  }

  /** pmm_init. */
  method Init(frames: FrameAllocator, rs: seq<Region>, start: Word, end: Word)
    requires frames.Valid()
    modifies frames, frames.bitmap
    ensures frames.Free() == InitialFree(rs, start, end)
    ensures Reads(frames.totalFrames, Total(AllTaken(rs)))
    ensures Reads(frames.usedFrames, UsedAfter(AllTaken(rs), frames.Free()))
  {
    ghost var t := Divide(frames, rs, KernelFirst(start), KernelEnd(end));
    CountsMod(frames.totalFrames, t.k, t.total, Total(AllTaken(rs)));
    CountsMod(frames.usedFrames, t.l, t.used, UsedAfter(AllTaken(rs), frames.Free()));
  }

  /** The loops of pmm_init. */
  method Divide(frames: FrameAllocator, rs: seq<Region>, lo: nat, hi: nat) returns (ghost t: Tally)
    requires frames.Valid() && hi <= MAX_FRAMES
    modifies frames, frames.bitmap
    ensures frames.Free() == Union(AllTaken(rs)) - Range(0, LOW_FRAMES) - Range(lo, hi) && Tallied(frames, t)
    ensures t.total == Total(AllTaken(rs))
    ensures t.used == UsedAfter(AllTaken(rs), frames.Free())
  {
    t := TakeAvailable(frames, rs);
    t := Reserve(frames, 0, LOW_FRAMES, t);
    t := Reserve(frames, lo, hi, t);
  }

  /** The loops that start with no frame free and go over the memory map. */
  method TakeAvailable(frames: FrameAllocator, rs: seq<Region>) returns (ghost t: Tally)
    requires frames.Valid()
    modifies frames, frames.bitmap
    ensures frames.Free() == Union(AllTaken(rs)) && Tallied(frames, t)
    ensures t.total == Total(AllTaken(rs)) && t.used == MAX_FRAMES - Total(AllTaken(rs))
  {
    t := MarkAllUsed(frames);
    for i := 0 to |rs|
      invariant frames.Free() == Union(AllTaken(rs[..i])) && Tallied(frames, t)
      invariant t.total == Total(AllTaken(rs[..i])) && t.used == MAX_FRAMES - Total(AllTaken(rs[..i]))
    {
      TakenNext(rs, i);
      t := TakeRegion(frames, rs[i], t);
    }
    assert rs[..|rs|] == rs;
  }

  /** One round of the loop over the memory map. */
  method TakeRegion(frames: FrameAllocator, r: Region, ghost t: Tally) returns (ghost t': Tally)
    requires frames.Valid() && Tallied(frames, t)
    modifies frames, frames.bitmap
    ensures frames.Free() == old(frames.Free()) + Taken(r) && Tallied(frames, t')
    ensures t'.total == t.total + |Taken(r)| && t'.used == t.used - |Taken(r)|
  {
    t' := t;
    if r.kind != AVAILABLE { return; }
    t' := Release(frames, FirstFrame(r), EndFrame(r), t);
  }

  lemma TakenNext(rs: seq<Region>, i: nat)
    requires i < |rs|
    ensures Union(AllTaken(rs[..i + 1])) == Union(AllTaken(rs[..i])) + Taken(rs[i])
    ensures Total(AllTaken(rs[..i + 1])) == Total(AllTaken(rs[..i])) + |Taken(rs[i])|
  {
    var next := rs[..i + 1];
    assert next[..|next| - 1] == rs[..i];
    assert AllTaken(next) == AllTaken(rs[..i]) + [Taken(rs[i])];
    UnionCat(AllTaken(rs[..i]), Taken(rs[i]));
  }

  // ---- What the free set means ----

  /** The whole frame lies in the region. */
  predicate Within(r: Region, f: nat) {
    r.base <= f * 4096 && (f + 1) * 4096 <= r.base + r.length
  }

  /** The region's first whole frame and the end of its last one, without truncation. */
  function TrueFirst(r: Region): nat {
    (r.base + 4095) / 4096
  }

  function TrueEnd(r: Region): nat {
    (r.base + r.length) / 4096
  }

  lemma WithinFrames(r: Region, f: nat)
    ensures Within(r, f) <==> TrueFirst(r) <= f < TrueEnd(r)
  {
  }

  /** The truncation to 32 bits hides the wrap-around at 64 bits. */
  lemma FramesTruncated(r: Region)
    ensures FirstFrame(r) == TrueFirst(r) % HALF
    ensures EndFrame(r) == if TrueEnd(r) % HALF > MAX_FRAMES then MAX_FRAMES else TrueEnd(r) % HALF
  {
    Truncated(r.base + 4095);
    Truncated(r.base + r.length);
  }

  lemma Truncated(x: nat)
    ensures x % WORD / 4096 % HALF == x / 4096 % HALF
  {
    var q, r := x / WORD, x % WORD;
    assert x == q * 0x10_0000_0000_0000 * 4096 + r;
    assert x / 4096 == q * 0x10_0000_0000_0000 + r / 4096;
    assert x / 4096 == q * 0x10_0000 * HALF + r / 4096;
    ModAdds(q * 0x10_0000, r / 4096);
  }

  lemma ModAdds(k: nat, x: nat)
    ensures (k * HALF + x) % HALF == x % HALF
  {
  }

  /**
   When pmm_init takes exactly the region's whole frames from lo to hi: the region has such frames, and its end is not
   truncated below hi; or it has none, and its truncated start is not below its truncated end there.
   */
  predicate Exact(r: Region, lo: nat, hi: nat) {
    if Max(TrueFirst(r), lo) < Min(TrueEnd(r), hi) then TrueEnd(r) < HALF || TrueEnd(r) % HALF >= hi
    else Max(TrueFirst(r) % HALF, lo) >= Min(TrueEnd(r) % HALF, hi)
  }

  /** Two intervals agree from lo to hi when they are the same there, or both are empty. */
  predicate Agree(a: nat, b: nat, s: nat, e: nat, lo: nat, hi: nat) {
    if Max(a, lo) < Min(b, hi) then Max(s, lo) == Max(a, lo) && Min(e, hi) == Min(b, hi) else Max(s, lo) >= Min(e, hi)
  }

  lemma IntervalsAgree(a: nat, b: nat, s: nat, e: nat, lo: nat, hi: nat)
    ensures (forall f: nat | lo <= f < hi :: Between(f, s, e) <==> Between(f, a, b)) <==> Agree(a, b, s, e, lo, hi)
  {
    if !Agree(a, b, s, e, lo, hi) {
      var a1, b1, s1, e1 := Max(a, lo), Min(b, hi), Max(s, lo), Min(e, hi);
      var f := if a1 >= b1 then s1
               else if s1 < a1 && s1 < e1 then s1
               else if s1 > a1 || e1 <= s1 then a1
               else if e1 < b1 then e1 else b1;
      assert lo <= f < hi && Between(f, s, e) != Between(f, a, b);
    }
  }

  lemma ExactAgrees(r: Region, lo: nat, hi: nat)
    requires hi <= MAX_FRAMES
    ensures Exact(r, lo, hi) <==> Agree(TrueFirst(r), TrueEnd(r), FirstFrame(r), EndFrame(r), lo, hi)
  {
    FramesTruncated(r);
  }

  /** The condition is exact for every region and every stretch of frames. */
  lemma TakenExactly(r: Region, lo: nat, hi: nat)
    requires r.kind == AVAILABLE && hi <= MAX_FRAMES
    ensures (forall f: nat | lo <= f < hi :: f in Taken(r) <==> Within(r, f)) <==> Exact(r, lo, hi)
  {
    forall f: nat | lo <= f < hi
      ensures f in Taken(r) <==> Between(f, FirstFrame(r), EndFrame(r))
      ensures Within(r, f) <==> Between(f, TrueFirst(r), TrueEnd(r))
    {
      WithinFrames(r, f);
    }
    ExactAgrees(r, lo, hi);
    IntervalsAgree(TrueFirst(r), TrueEnd(r), FirstFrame(r), EndFrame(r), lo, hi);
  }

  /** A region that ends below 16 TiB is taken exactly. */
  lemma LowRegionsExact(r: Region, lo: nat, hi: nat)
    requires r.base + r.length + 4095 < HALF * 4096 && hi <= MAX_FRAMES
    ensures Exact(r, lo, hi)
  {
    assert TrueFirst(r) < HALF && TrueEnd(r) < HALF;
    assert TrueFirst(r) % HALF == TrueFirst(r) && TrueEnd(r) % HALF == TrueEnd(r);
  }

  /** One page above 16 TiB makes a frame below 128 MiB free that is in no region at all. */
  lemma HighRegionTruncated(f: nat, start: Word, end: Word)
    requires LOW_FRAMES <= f < MAX_FRAMES && !Between(f, KernelFirst(start), KernelEnd(end))
    ensures var r := Region((HALF + f) * 4096, 4096, AVAILABLE);
            f in InitialFree([r], start, end) && !Within(r, f)
  {
    var r := Region((HALF + f) * 4096, 4096, AVAILABLE);
    FramesTruncated(r);
    assert TrueFirst(r) == HALF + f && TrueEnd(r) == HALF + f + 1;
    InUnion(AllTaken([r]), f);
    TakenMembers([r], f);
    assert r in [r] && f in Taken(r);
  }

  /** Some byte of the frame belongs to the kernel image. */
  predicate InKernel(start: Word, end: Word, f: nat) {
    f * 4096 < end && start < (f + 1) * 4096
  }

  lemma KernelFrames(start: Word, end: Word, f: nat)
    requires start < end && end + 4095 < HALF * 4096 && f < MAX_FRAMES
    ensures KernelFirst(start) <= f < KernelEnd(end) <==> InKernel(start, end, f)
  {
    assert start / 4096 < HALF && (end + 4095) / 4096 < HALF && end + 4095 < WORD;
    assert KernelFirst(start) == start / 4096 && (end + 4095) % WORD == end + 4095;
  }

  /** The region is taken exactly between 1 MiB and 128 MiB, below and above the kernel. */
  predicate ExactOutside(r: Region, start: Word, end: Word) {
    && Exact(r, LOW_FRAMES, Min(KernelFirst(start), MAX_FRAMES))
    && Exact(r, Max(KernelEnd(end), LOW_FRAMES), MAX_FRAMES)
  }

  /** The frame is at or above 1 MiB, below 128 MiB, and outside the kernel. */
  predicate Usable(f: nat, start: Word, end: Word) {
    0x10_0000 <= f * 4096 && (f + 1) * 4096 <= 0x800_0000 && !InKernel(start, end, f)
  }

  lemma UsableFrames(f: nat, start: Word, end: Word)
    requires start < end && end + 4095 < HALF * 4096
    ensures Usable(f, start, end) <==>
            || LOW_FRAMES <= f < Min(KernelFirst(start), MAX_FRAMES)
            || Max(KernelEnd(end), LOW_FRAMES) <= f < MAX_FRAMES
  {
    if f < MAX_FRAMES { KernelFrames(start, end, f); }
    assert KernelFirst(start) <= KernelEnd(end) || KernelEnd(end) == MAX_FRAMES by {
      assert start / 4096 < HALF && (end + 4095) / 4096 < HALF && end + 4095 < WORD;
    }
  }

  /** A region is taken exactly outside the kernel if and only if it is taken right on every usable frame. */
  lemma TakenOutside(r: Region, start: Word, end: Word)
    requires start < end && end + 4095 < HALF * 4096 && r.kind == AVAILABLE
    ensures (forall f | Usable(f, start, end) :: f in Taken(r) <==> Within(r, f)) <==> ExactOutside(r, start, end)
  {
    TakenExactly(r, LOW_FRAMES, Min(KernelFirst(start), MAX_FRAMES));
    TakenExactly(r, Max(KernelEnd(end), LOW_FRAMES), MAX_FRAMES);
    forall f: nat
      ensures Usable(f, start, end) <==>
              || LOW_FRAMES <= f < Min(KernelFirst(start), MAX_FRAMES)
              || Max(KernelEnd(end), LOW_FRAMES) <= f < MAX_FRAMES
    {
      UsableFrames(f, start, end);
    }
  }

  /** The frame is free after pmm_init exactly when it is usable and taken from some region. */
  lemma FreeTaken(rs: seq<Region>, start: Word, end: Word, f: nat)
    requires start < end && end + 4095 < HALF * 4096
    ensures f in InitialFree(rs, start, end) <==> Usable(f, start, end) && exists r | r in rs :: f in Taken(r)
  {
    InUnion(AllTaken(rs), f);
    TakenMembers(rs, f);
    if f < MAX_FRAMES { KernelFrames(start, end, f); }
  }

  /** After pmm_init a frame is free exactly when it is usable and lies wholly in a region marked available. */
  predicate Right(rs: seq<Region>, start: Word, end: Word, f: nat) {
    f in InitialFree(rs, start, end) <==>
      Usable(f, start, end) && exists r | r in rs :: r.kind == 1 && Within(r, f)
  }

  /** The free frames are right whenever every available region is taken exactly outside the kernel. */
  lemma InitialFreeMeans(rs: seq<Region>, start: Word, end: Word, f: nat)
    requires start < end && end + 4095 < HALF * 4096
    requires forall r | r in rs && r.kind == AVAILABLE :: ExactOutside(r, start, end)
    ensures Right(rs, start, end, f)
  {
    FreeTaken(rs, start, end, f);
    if Usable(f, start, end) {
      forall r | r in rs
        ensures f in Taken(r) <==> r.kind == AVAILABLE && Within(r, f)
      {
        if r.kind == AVAILABLE { TakenOutside(r, start, end); }
      }
    }
  }

  /** For a region by itself that condition is necessary too. */
  lemma InitialFreeExactly(r: Region, start: Word, end: Word)
    requires start < end && end + 4095 < HALF * 4096 && r.kind == AVAILABLE
    ensures (forall f: nat :: Right([r], start, end, f)) <==> ExactOutside(r, start, end)
  {
    assert r in [r];
    forall f: nat
      ensures Right([r], start, end, f) <==> (Usable(f, start, end) ==> (f in Taken(r) <==> Within(r, f)))
    {
      FreeTaken([r], start, end, f);
    }
    TakenOutside(r, start, end);
  }

  lemma TakenMembers(rs: seq<Region>, f: nat)
    ensures (exists s | s in AllTaken(rs) :: f in s) <==> exists r | r in rs :: f in Taken(r)
    ensures (exists r | r in rs :: f in Taken(r)) ==> f < MAX_FRAMES
  {
    var ss := AllTaken(rs);
    TakenAt(rs);
    if s :| s in ss && f in s {
      var i :| 0 <= i < |ss| && ss[i] == s;
      assert rs[i] in rs && f in Taken(rs[i]);
    }
    if r :| r in rs && f in Taken(r) {
      var i :| 0 <= i < |rs| && rs[i] == r;
      assert ss[i] in ss && f in ss[i];
    }
  }

  /** The used counter is the number of set bits exactly when no two available regions share a frame. */
  lemma UsedIsCounted(rs: seq<Region>, free: set<nat>, used: Half)
    requires |rs| <= 32 && |free| <= MAX_FRAMES && Reads(used, UsedAfter(AllTaken(rs), free))
    ensures used == MAX_FRAMES - |free| <==> Apart(AllTaken(rs))
  {
    TakenSmall(rs);
    CountedOnce(AllTaken(rs), free, UsedAfter(AllTaken(rs), free), used);
  }

  lemma CountedOnce(ss: seq<set<nat>>, free: set<nat>, y: int, used: Half)
    requires |ss| <= 32 && |free| <= MAX_FRAMES && (forall s | s in ss :: |s| <= MAX_FRAMES)
    requires y == UsedAfter(ss, free) && Reads(used, y)
    ensures used == MAX_FRAMES - |free| <==> Apart(ss)
  {
    TotalIsSize(ss);
    TotalBound(ss);
    OffBy(MAX_FRAMES - |free|, Total(ss) - |Union(ss)|, y, used);
  }

  lemma TakenSmall(rs: seq<Region>)
    ensures |AllTaken(rs)| == |rs| && forall s | s in AllTaken(rs) :: |s| <= MAX_FRAMES
  {
    var ss := AllTaken(rs);
    TakenAt(rs);
    forall s | s in ss
      ensures |s| <= MAX_FRAMES
    {
      var i :| 0 <= i < |ss| && ss[i] == s;
      RangeSize(FirstFrame(rs[i]), EndFrame(rs[i]));
      assert s == Taken(rs[i]);
    }
  }

  lemma OffBy(x: nat, d: nat, y: int, h: Half)
    requires x <= MAX_FRAMES && d <= 0x10_0000 && y == x - d && Reads(h, y)
    ensures h == x <==> d == 0
  {
  }

  /** A region that is listed twice: its frames are counted twice, so that the used counter is short by their number. */
  lemma OverlapMiscounts(r: Region, start: Word, end: Word, used: Half)
    requires Reads(used, UsedAfter(AllTaken([r, r]), InitialFree([r, r], start, end)))
    ensures Reads(used, MAX_FRAMES - |InitialFree([r, r], start, end)| - |Taken(r)|)
    ensures Taken(r) != {} ==> used != MAX_FRAMES - |InitialFree([r, r], start, end)|
  {
    TakenTwice(r);
    RangeSize(FirstFrame(r), EndFrame(r));
    CountedTwice(AllTaken([r, r]), Taken(r), InitialFree([r, r], start, end), used);
  }

  lemma CountedTwice(ss: seq<set<nat>>, s: set<nat>, free: set<nat>, used: Half)
    requires Union(ss) == s && Total(ss) == 2 * |s| && |s| <= MAX_FRAMES && free <= s
    requires Reads(used, UsedAfter(ss, free))
    ensures Reads(used, MAX_FRAMES - |free| - |s|)
    ensures s != {} ==> used != MAX_FRAMES - |free|
  {
    SubsetSize(free, s);
    OffBy(MAX_FRAMES - |free|, |s|, MAX_FRAMES - |free| - |s|, used);
  }

  lemma TakenTwice(r: Region)
    ensures Union(AllTaken([r, r])) == Taken(r) && Total(AllTaken([r, r])) == 2 * |Taken(r)|
  {
    var s := Taken(r);
    TakenAt([r, r]);
    assert AllTaken([r, r]) == [s] + [s];
    UnionCat([s], s);
    UnionCat([], s);
    assert [] + [s] == [s];
  }
}
