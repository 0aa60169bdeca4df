/**
 Records in memory, byte by byte: how the processor reads little-endian words, and what it reads where the encoding of
 a number was put.
 */
module Bytes {
  import opened Bits

  /** What is read at each address, or at each offset from the start of an image. */
  type Store = nat -> Byte

  function U16(mem: Store, a: nat): Half { mem(a) + 256 * mem(a + 1) }
  function U32(mem: Store, a: nat): Half { U16(mem, a) + 0x1_0000 * U16(mem, a + 2) }
  function U64(mem: Store, a: nat): Word { U32(mem, a) + 0x1_0000_0000 * U32(mem, a + 4) }

  /** A number in n bytes, the least significant first. */
  function LittleEndian(x: nat, n: nat): (bs: seq<Byte>)
    ensures |bs| == n
  {
    if n == 0 then [] else [x % 256] + LittleEndian(x / 256, n - 1)
  }

  /** These bytes are at the address. */
  predicate HoldsAt(mem: Store, a: nat, bs: seq<Byte>) {
    forall i | 0 <= i < |bs| :: mem(a + i) == bs[i]
  }

  lemma HoldsCat(mem: Store, a: nat, x: seq<Byte>, y: seq<Byte>)
    requires HoldsAt(mem, a, x + y)
    ensures HoldsAt(mem, a, x) && HoldsAt(mem, a + |x|, y)
  {
    forall i | 0 <= i < |x|
      ensures mem(a + i) == x[i]
    {
      assert (x + y)[i] == x[i];
    }
    forall i | 0 <= i < |y|
      ensures mem(a + |x| + i) == y[i]
    {
      assert (x + y)[|x| + i] == y[i];
    }
  }

  lemma Halves(x: nat)
    ensures x % 0x1_0000 % 256 == x % 256 && x % 0x1_0000 / 256 == x / 256 % 256 && x / 256 / 256 == x / 0x1_0000
  {
  }

  lemma Quarters(x: nat)
    ensures x % 0x1_0000_0000 % 0x1_0000 == x % 0x1_0000
    ensures x % 0x1_0000_0000 / 0x1_0000 == x / 0x1_0000 % 0x1_0000
    ensures x / 0x1_0000 / 0x1_0000 == x / 0x1_0000_0000
  {
  }

  lemma TwoBytes(x: nat)
    requires x < 0x1_0000
    ensures LittleEndian(x, 2) == [x % 256, x / 256]
  {
    assert LittleEndian(x / 256, 1) == [x / 256 % 256];
  }

  /** A number is its lower half and its upper half. */
  lemma SplitsAt16(x: nat, n: nat)
    ensures LittleEndian(x, n + 2) == LittleEndian(x % 0x1_0000, 2) + LittleEndian(x / 0x1_0000, n)
  {
    Halves(x);
    TwoBytes(x % 0x1_0000);
    assert LittleEndian(x, n + 2) == [x % 256] + LittleEndian(x / 256, n + 1);
    assert LittleEndian(x / 256, n + 1) == [x / 256 % 256] + LittleEndian(x / 256 / 256, n);
  }

  lemma SplitsAt32(x: nat)
    ensures LittleEndian(x, 8) == LittleEndian(x % 0x1_0000_0000, 4) + LittleEndian(x / 0x1_0000_0000, 4)
  {
    Quarters(x);
    SplitsAt16(x, 6);
    SplitsAt16(x / 0x1_0000, 4);
    SplitsAt16(x % 0x1_0000_0000, 2);
  }

  lemma Read16(mem: Store, a: nat, x: nat)
    requires x < 0x1_0000 && HoldsAt(mem, a, LittleEndian(x, 2))
    ensures U16(mem, a) == x
  {
    var bs := LittleEndian(x, 2);
    TwoBytes(x);
    assert mem(a + 0) == bs[0] && mem(a + 1) == bs[1];
  }

  lemma Read32(mem: Store, a: nat, x: Half)
    requires HoldsAt(mem, a, LittleEndian(x, 4))
    ensures U32(mem, a) == x
  {
    var low, high := x % 0x1_0000, x / 0x1_0000;
    SplitsAt16(x, 2);
    HoldsCat(mem, a, LittleEndian(low, 2), LittleEndian(high, 2));
    Read16(mem, a, low);
    Read16(mem, a + 2, high);
  }

  lemma Read64(mem: Store, a: nat, x: Word)
    requires HoldsAt(mem, a, LittleEndian(x, 8))
    ensures U64(mem, a) == x
  {
    var low: Half, high: Half := x % 0x1_0000_0000, x / 0x1_0000_0000;
    SplitsAt32(x);
    HoldsCat(mem, a, LittleEndian(low, 4), LittleEndian(high, 4));
    Read32(mem, a, low);
    Read32(mem, a + 4, high);
  }
}
