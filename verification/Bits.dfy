/** Machine-word arithmetic: C's unsigned wrap-around, `|` and the power-of-two masks, on naturals. */
module Bits {
  const WORD := 0x1_0000_0000_0000_0000
  const HALF := 0x1_0000_0000

  /** A 64-bit machine word (`uint64_t`). */
  type Word = w: nat | w < 0x1_0000_0000_0000_0000

  /** A 32-bit machine word (`uint32_t`). */
  type Half = h: nat | h < 0x1_0000_0000

  type Byte = b: nat | b < 256

  function Min(a: nat, b: nat): nat {
    if a < b then a else b
  }

  function Max(a: nat, b: nat): nat {
    if a < b then b else a
  }

  /** The bitwise `|` of two naturals. */
  function BitOr(a: nat, b: nat): nat
  {
    if a == 0 && b == 0 then 0
    else 2 * BitOr(a / 2, b / 2) + if a % 2 == 1 || b % 2 == 1 then 1 else 0
  }

  /** `x >> k` and the `k` low bits of `x`, one bit at a time. */
  function Shr(x: nat, k: nat): nat {
    if k == 0 then x else Shr(x / 2, k - 1)
  }

  function Low(x: nat, k: nat): nat {
    if k == 0 then 0 else x % 2 + 2 * Low(x / 2, k - 1)
  }

  /** `|` works on the high and the low bits separately. */
  lemma {:induction false} OrParts(a: nat, b: nat, k: nat)
    ensures Shr(BitOr(a, b), k) == BitOr(Shr(a, k), Shr(b, k))
    ensures Low(BitOr(a, b), k) == BitOr(Low(a, k), Low(b, k))
  {
    if k > 0 {
      OrHalf(a, b);
      OrParts(a / 2, b / 2, k - 1);
      OrHalf(Low(a, k), Low(b, k));
    }
  }

  lemma Page12(x: nat)
    ensures Shr(x, 12) == x / 4096 && Low(x, 12) == x % 4096
  {
    Digit(x, 8); Digit(x / 16, 4); Digit(x / 256, 0);
    assert x / 16 / 16 == x / 256 && x / 256 / 16 == x / 4096;
    assert x % 4096 == x % 16 + 16 * (x / 16 % 16) + 256 * (x / 256 % 16);
  }

  lemma Digit(x: nat, k: nat)
    ensures Shr(x, k + 4) == Shr(x / 16, k) && Low(x, k + 4) == x % 16 + 16 * Low(x / 16, k)
  {
    assert Shr(x, k + 4) == Shr(x / 2, k + 3) == Shr(x / 4, k + 2) == Shr(x / 8, k + 1) == Shr(x / 16, k);
    assert Low(x / 4, k + 2) == x / 4 % 2 + 2 * Low(x / 8, k + 1);
    assert Low(x / 8, k + 1) == x / 8 % 2 + 2 * Low(x / 16, k);
  }

  /** The page number and the flag bits of two words are ORed separately. */
  lemma OrSplits(a: nat, b: nat)
    ensures BitOr(a, b) / 4096 == BitOr(a / 4096, b / 4096)
    ensures BitOr(a, b) % 4096 == BitOr(a % 4096, b % 4096)
  {
    OrParts(a, b, 12);
    Page12(a); Page12(b); Page12(BitOr(a, b));
  }

  lemma OrHalf(a: nat, b: nat)
    ensures BitOr(a, b) / 2 == BitOr(a / 2, b / 2)
    ensures BitOr(a, b) % 2 == if a % 2 == 1 || b % 2 == 1 then 1 else 0
  {
  }

  lemma OrBit2(a: nat, b: nat)
    ensures BitOr(a, b) / 4 % 2 == if a / 4 % 2 == 1 || b / 4 % 2 == 1 then 1 else 0
  {
    OrHalf(a, b);
    OrHalf(a / 2, b / 2);
    OrHalf(a / 4, b / 4);
    assert a / 2 / 2 == a / 4 && b / 2 / 2 == b / 4 && BitOr(a, b) / 2 / 2 == BitOr(a, b) / 4;
  }

  lemma {:induction false} OrZero(a: nat)
    ensures BitOr(a, 0) == a == BitOr(0, a)
  {
    if a != 0 { OrZero(a / 2); }
  }

  /** ORing flags below bit 12 into a page-aligned address keeps both parts. */
  lemma OrFlags(a: nat, flags: nat)
    requires flags < 4096
    ensures BitOr(a / 4096 * 4096, flags) == a / 4096 * 4096 + flags
  {
    OrSplits(a / 4096 * 4096, flags);
    OrZero(a / 4096);
    OrZero(flags);
  }

  /** `|` never leaves the word size of its operands. */
  lemma {:induction false} OrBound(a: nat, b: nat, k: nat)
    requires a < Pow2(k) && b < Pow2(k)
    ensures BitOr(a, b) < Pow2(k)
  {
    if k > 0 { OrBound(a / 2, b / 2, k - 1); }
  }

  function Pow2(k: nat): nat {
    if k == 0 then 1 else 2 * Pow2(k - 1)
  }

  lemma {:induction false} Pow2Adds(j: nat, k: nat)
    ensures Pow2(j + k) == Pow2(j) * Pow2(k)
  {
    if j > 0 {
      Pow2Adds(j - 1, k);
      assert Pow2(j + k) == 2 * Pow2(j - 1 + k);
    }
  }

  lemma Pow2Word()
    ensures Pow2(64) == WORD
  {
    assert Pow2(8) == 256;
    Pow2Adds(8, 8);
    Pow2Adds(16, 16);
    Pow2Adds(32, 32);
  }

  lemma OrWord(a: Word, b: Word)
    ensures BitOr(a, b) < WORD
  {
    Pow2Word();
    OrBound(a, b, 64);
  }
}
