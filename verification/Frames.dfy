/** The physical frame allocator (kernel/src/pmm.c): one bit per 4 KiB frame, set when the frame is in use. */
module Frames {
  import opened Bits

  const MAX_FRAMES := 32768
  const BITMAP_BYTES := 4096

  type Bitmap = s: seq<bv8> | |s| == 4096 witness seq(4096, _ => 0)

  /** Is bit k of a bitmap byte set, `b & (1 << k)`? */
  predicate Has(b: bv8, k: nat)
    requires k < 8
  {
    match k
    case 0 => b & 1 != 0 case 1 => b & 2 != 0 case 2 => b & 4 != 0 case 3 => b & 8 != 0
    case 4 => b & 16 != 0 case 5 => b & 32 != 0 case 6 => b & 64 != 0 case _ => b & 128 != 0
  }

  /** `b | (1 << k)`. */
  function SetIn(b: bv8, k: nat): bv8
    requires k < 8
  {
    match k
    case 0 => b | 1 case 1 => b | 2 case 2 => b | 4 case 3 => b | 8
    case 4 => b | 16 case 5 => b | 32 case 6 => b | 64 case _ => b | 128
  }

  /** `b & ~(1 << k)`. */
  function ClearIn(b: bv8, k: nat): bv8
    requires k < 8
  {
    match k
    case 0 => b & !1 case 1 => b & !2 case 2 => b & !4 case 3 => b & !8
    case 4 => b & !16 case 5 => b & !32 case 6 => b & !64 case _ => b & !128
  }

  predicate TestBit(bitmap: Bitmap, f: nat)
    requires f < MAX_FRAMES
  {
    Has(bitmap[f / 8], f % 8)
  }

  function SetBit(bitmap: Bitmap, f: nat): Bitmap
    requires f < MAX_FRAMES
  {
    bitmap[f / 8 := SetIn(bitmap[f / 8], f % 8)]
  }

  function ClearBit(bitmap: Bitmap, f: nat): Bitmap
    requires f < MAX_FRAMES
  {
    bitmap[f / 8 := ClearIn(bitmap[f / 8], f % 8)]
  }

  /** The set of frames the bitmap leaves free. */
  ghost function FreeIn(bitmap: Bitmap): set<nat> {
    set f: nat | f < MAX_FRAMES && !TestBit(bitmap, f)
  }

  lemma SetInHas(b: bv8, j: nat, k: nat)
    requires j < 8 && k < 8
    ensures Has(SetIn(b, j), k) <==> j == k || Has(b, k)
  {
  }

  lemma ClearInHas(b: bv8, j: nat, k: nat)
    requires j < 8 && k < 8
    ensures Has(ClearIn(b, j), k) <==> j != k && Has(b, k)
  {
  }

  lemma SamePlace(f: nat, g: nat)
    ensures f == g <==> f / 8 == g / 8 && f % 8 == g % 8
  {
    assert f == f / 8 * 8 + f % 8 && g == g / 8 * 8 + g % 8;
  }

  lemma SetBitTests(bitmap: Bitmap, f: nat, g: nat)
    requires f < MAX_FRAMES && g < MAX_FRAMES
    ensures TestBit(SetBit(bitmap, f), g) <==> g == f || TestBit(bitmap, g)
  {
    SamePlace(f, g);
    SetInHas(bitmap[f / 8], f % 8, g % 8);
  }

  lemma ClearBitTests(bitmap: Bitmap, f: nat, g: nat)
    requires f < MAX_FRAMES && g < MAX_FRAMES
    ensures TestBit(ClearBit(bitmap, f), g) <==> g != f && TestBit(bitmap, g)
  {
    SamePlace(f, g);
    ClearInHas(bitmap[f / 8], f % 8, g % 8);
  }

  lemma SetBitUses(bitmap: Bitmap, f: nat)
    requires f < MAX_FRAMES
    ensures FreeIn(SetBit(bitmap, f)) == FreeIn(bitmap) - {f}
  {
    forall g: nat | g < MAX_FRAMES
      ensures TestBit(SetBit(bitmap, f), g) <==> g == f || TestBit(bitmap, g)
    {
      SetBitTests(bitmap, f, g);
    }
  }

  lemma ClearBitFrees(bitmap: Bitmap, f: nat)
    requires f < MAX_FRAMES
    ensures FreeIn(ClearBit(bitmap, f)) == FreeIn(bitmap) + {f}
  {
    forall g: nat | g < MAX_FRAMES
      ensures TestBit(ClearBit(bitmap, f), g) <==> g != f && TestBit(bitmap, g)
    {
      ClearBitTests(bitmap, f, g);
    }
  }

  /** Are all frames below `n` in use? */
  predicate UsedBelow(bitmap: Bitmap, n: nat) {
    forall f: nat | f < n && f < MAX_FRAMES :: TestBit(bitmap, f)
  }

  /** A byte of 0xFF records eight used frames. */
  lemma FullByte(bitmap: Bitmap, i: nat)
    requires i < BITMAP_BYTES && bitmap[i] == 0xFF && UsedBelow(bitmap, 8 * i)
    ensures UsedBelow(bitmap, 8 * (i + 1))
  {
    forall f: nat | 8 * i <= f < 8 * (i + 1)
      ensures TestBit(bitmap, f)
    {
      assert f / 8 == i;
    }
  }

  function Below(n: nat): (s: set<nat>)
    ensures |s| == n && forall f: nat :: f in s <==> f < n
  {
    if n == 0 then {} else Below(n - 1) + {n - 1}
  }

  lemma SubsetSize<T>(a: set<T>, b: set<T>)
    requires a <= b
    ensures |a| <= |b| && |b - a| == |b| - |a|
  {
    assert b == a + (b - a);
  }

  lemma FewerThanAll(bitmap: Bitmap)
    ensures |FreeIn(bitmap)| <= MAX_FRAMES
  {
    SubsetSize(FreeIn(bitmap), Below(MAX_FRAMES));
  }

  class FrameAllocator {
    const bitmap: array<bv8>
    var totalFrames: Half
    var usedFrames: Half

    ghost predicate Valid() {
      bitmap.Length == BITMAP_BYTES
    }

    /** The frames that may still be handed out. */
    ghost function Free(): set<nat>
      requires Valid()
      reads bitmap
    {
      FreeIn(bitmap[..])
    }

    /** Does `used_frames` count the set bits of the bitmap? */
    ghost predicate Counted()
      requires Valid()
      reads this, bitmap
    {
      usedFrames == MAX_FRAMES - |Free()|
    }

    constructor ()
      ensures Valid() && fresh(bitmap) && totalFrames == usedFrames == 0
    {
      bitmap := new bv8[BITMAP_BYTES];
      totalFrames, usedFrames := 0, 0;
    }

    method MarkUsed(frame: nat)
      requires Valid() && frame < MAX_FRAMES
      modifies bitmap
      ensures Free() == old(Free()) - {frame}
    {
      ghost var before := bitmap[..];
      bitmap[frame / 8] := SetIn(bitmap[frame / 8], frame % 8);
      assert bitmap[..] == SetBit(before, frame);
      SetBitUses(before, frame);
    }

    method MarkFree(frame: nat)
      requires Valid() && frame < MAX_FRAMES
      modifies bitmap
      ensures Free() == old(Free()) + {frame}
    {
      ghost var before := bitmap[..];
      bitmap[frame / 8] := ClearIn(bitmap[frame / 8], frame % 8);
      assert bitmap[..] == ClearBit(before, frame);
      ClearBitFrees(before, frame);
    }

    /** The scan of pmm_alloc_frame: full bytes are skipped, then bits are tried in order. */
    method FindFree() returns (frame: nat)
      requires Valid()
      ensures frame <= MAX_FRAMES && UsedBelow(bitmap[..], frame)
      ensures frame < MAX_FRAMES ==> !TestBit(bitmap[..], frame)
    {
      for i := 0 to BITMAP_BYTES
        invariant UsedBelow(bitmap[..], 8 * i)
      {
        if bitmap[i] == 0xFF {
          FullByte(bitmap[..], i);
        } else {
          for bit := 0 to 8
            invariant UsedBelow(bitmap[..], 8 * i + bit)
          {
            frame := i * 8 + bit;
            if !TestBit(bitmap[..], frame) { return; }
          }
        }
      }
      frame := MAX_FRAMES;
    }

    /** Hands out the lowest free frame; 0 means there is none (or that frame 0 itself was free). */
    method AllocFrame() returns (addr: nat)
      requires Valid()
      modifies this`usedFrames, bitmap
      ensures old(Free()) == {} ==> addr == 0 && Free() == {} && usedFrames == old(usedFrames)
      ensures old(Free()) != {} ==>
                && addr % 4096 == 0
                && addr / 4096 in old(Free())
                && (forall g | g in old(Free()) :: addr / 4096 <= g)
                && Free() == old(Free()) - {addr / 4096}
                && usedFrames == (old(usedFrames) + 1) % HALF
      ensures old(Counted()) ==> Counted()
    {
      var frame := FindFree();
      if frame == MAX_FRAMES { return 0; }
      assert frame in Free();
      MarkUsed(frame);
      usedFrames := (usedFrames + 1) % HALF;
      addr := frame * 4096;
    }

    /** Gives one frame back. Addresses beyond the bitmap are ignored, and so is a frame that is not in use. */
    method FreeFrame(addr: Word)
      requires Valid()
      modifies this`usedFrames, bitmap
      ensures var frame := addr / 4096 % HALF;
              Free() == old(Free()) + if frame < MAX_FRAMES then {frame} else {}
      ensures old(Counted()) ==> Counted()
    {
      var frame := addr / 4096 % HALF;
      if frame >= MAX_FRAMES { return; }
      if TestBit(bitmap[..], frame) {
        MarkFree(frame);
        FewerThanAll(bitmap[..]);
        usedFrames := (usedFrames - 1) % HALF;
      }
    }

    /**
     pmm_get_free_count. Where the used counter is right, the result is off by what the bitmap has more than
     there are usable frames: used_frames counts all of 128 MiB, total_frames only the available regions. So it is the
     number of free frames exactly when the available regions have as many frames as the bitmap.
     */
    method FreeCount() returns (n: Half)
      requires Valid()
      ensures Counted() ==> n == (|Free()| + totalFrames - MAX_FRAMES) % HALF
      ensures Counted() ==> (n == |Free()| <==> totalFrames == MAX_FRAMES)
    {
      FewerThanAll(bitmap[..]);
      n := (totalFrames - usedFrames) % HALF;
    }
  }
}
