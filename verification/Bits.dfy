// The bits of a byte, and the number they spell.
module Bits {
  import opened Bytes

  // The table of Utility.cpp: entry 7 - i selects bit i, counted from the low end.
  const MASK: seq<byte> := [0x80, 0x40, 0x20, 0x10, 0x08, 0x04, 0x02, 0x01]

  predicate Bit(b: byte, i: nat)
    requires i < 8
  {
    b & MASK[7 - i] != 0
  }

  /** A byte is determined by its bits. */
  lemma SameBits(a: byte, b: byte)
    requires forall i :: 0 <= i < 8 ==> Bit(a, i) == Bit(b, i)
    ensures a == b
  {
    assert Bit(a, 0) == Bit(b, 0) && Bit(a, 1) == Bit(b, 1) && Bit(a, 2) == Bit(b, 2) && Bit(a, 3) == Bit(b, 3);
    assert Bit(a, 4) == Bit(b, 4) && Bit(a, 5) == Bit(b, 5) && Bit(a, 6) == Bit(b, 6) && Bit(a, 7) == Bit(b, 7);
    MaskedBits(a, b);
  }

  lemma MaskedBits(a: byte, b: byte)
    requires (a & 1 != 0) == (b & 1 != 0) && (a & 2 != 0) == (b & 2 != 0)
    requires (a & 4 != 0) == (b & 4 != 0) && (a & 8 != 0) == (b & 8 != 0)
    requires (a & 16 != 0) == (b & 16 != 0) && (a & 32 != 0) == (b & 32 != 0)
    requires (a & 64 != 0) == (b & 64 != 0) && (a & 128 != 0) == (b & 128 != 0)
    ensures a == b
  {
  }

  lemma OrBit(b: byte, i: nat, j: nat)
    requires i < 8 && j < 8
    ensures Bit(b | MASK[7 - i], j) == (j == i || Bit(b, j))
  {
  }

  lemma AndBit(b: byte, i: nat, j: nat)
    requires i < 8 && j < 8
    ensures Bit(b & !MASK[7 - i], j) == (j != i && Bit(b, j))
  {
  }

  /** b with bit i set or cleared. */
  function WithBit(b: byte, i: nat, v: bool): (c: byte)
    requires i < 8
    ensures forall j :: 0 <= j < 8 ==> Bit(c, j) == if j == i then v else Bit(b, j)
  {
    var c := if v then b | MASK[7 - i] else b & !MASK[7 - i];
    assert forall j :: 0 <= j < 8 ==> Bit(c, j) == if j == i then v else Bit(b, j) by {
      forall j | 0 <= j < 8 ensures Bit(c, j) == if j == i then v else Bit(b, j) {
        OrBit(b, i, j);
        AndBit(b, i, j);
      }
    }
    c
  }

  lemma ZeroBits(j: nat)
    requires j < 8
    ensures !Bit(0, j)
  {
  }

  function Digit(b: bool): nat {
    if b then 1 else 0
  }

  /** The number whose binary digits, low end first, are the bits of b from bit i on. */
  function ValueFrom(b: byte, i: nat): nat
    requires i <= 8
    decreases 8 - i
  {
    if i == 8 then 0 else Digit(Bit(b, i)) + 2 * ValueFrom(b, i + 1)
  }

  /** The unsigned value of a byte. */
  function Value(b: byte): nat {
    ValueFrom(b, 0)
  }

  lemma {:induction false} ValueBound(b: byte, i: nat)
    requires i <= 8
    ensures ValueFrom(b, i) < Pow2(8 - i)
    decreases 8 - i
  {
    hide Bit;
    if i < 8 {
      ValueBound(b, i + 1);
    }
  }

  function Pow2(k: nat): (r: nat)
    ensures r > 0
  {
    if k == 0 then 1 else 2 * Pow2(k - 1)
  }

  function Halved(n: nat, k: nat): nat {
    if k == 0 then n else Halved(n, k - 1) / 2
  }

  function LowBits(n: nat, k: nat): (b: byte)
    requires k <= 8
    ensures forall i :: 0 <= i < 8 ==> Bit(b, i) == (i < k && Halved(n, i) % 2 == 1)
  {
    if k == 0 then
      assert forall i :: 0 <= i < 8 ==> !Bit(0, i) by {
        forall i | 0 <= i < 8 ensures !Bit(0, i) { ZeroBits(i); }
      }
      0
    else
      hide Bit, WithBit;
      WithBit(LowBits(n, k - 1), k - 1, Halved(n, k - 1) % 2 == 1)
  }

  /** The byte whose bits are the low eight binary digits of n. */
  function ToByte(n: nat): (b: byte)
    ensures forall i :: 0 <= i < 8 ==> Bit(b, i) == (Halved(n, i) % 2 == 1)
  {
    LowBits(n, 8)
  }

  lemma {:induction false} HalvedBound(n: nat, k: nat)
    requires k <= 8 && n < 256
    ensures Halved(n, k) < Pow2(8 - k)
  {
    if k > 0 {
      HalvedBound(n, k - 1);
      assert Pow2(8 - (k - 1)) == 2 * Pow2(8 - k);
    } else {
      assert Pow2(8) == 256 by { assert Pow2(4) == 16; }
    }
  }

  lemma {:induction false} ToByteFrom(n: nat, i: nat)
    requires i <= 8 && n < 256
    ensures ValueFrom(ToByte(n), i) == Halved(n, i)
    decreases 8 - i
  {
    hide ToByte, Bit;
    if i < 8 {
      ToByteFrom(n, i + 1);
      assert Halved(n, i + 1) == Halved(n, i) / 2;
    } else {
      HalvedBound(n, 8);
    }
  }

  /** Bytes and the numbers below 256 correspond one to one. */
  lemma ToByteValue(n: nat)
    requires n < 256
    ensures Value(ToByte(n)) == n
  {
    ToByteFrom(n, 0);
  }

  lemma {:induction false} ValueHalved(b: byte, i: nat)
    requires i <= 8
    ensures Halved(Value(b), i) == ValueFrom(b, i)
  {
    hide Bit;
    if i > 0 {
      ValueHalved(b, i - 1);
    }
  }

  /** The number spelled by `count` bits from `pos` on. */
  function Number(b: byte, pos: nat, count: nat): (n: nat)
    requires pos + count <= 8
    ensures n < Pow2(count)
    decreases count
  {
    if count == 0 then 0 else Digit(Bit(b, pos)) + 2 * Number(b, pos + 1, count - 1)
  }

  lemma SmallPowers()
    ensures Pow2(1) == 2 && Pow2(3) == 8 && Pow2(4) == 16 && Pow2(7) == 128
  {
    assert Pow2(3) == 8;
    assert Pow2(5) == 32;
  }

  /** A byte split into fields: one bit, then three and four, or then seven. */
  lemma ValueOfFields(b: byte)
    ensures Value(b) == Digit(Bit(b, 0)) + 2 * Number(b, 1, 3) + 16 * Number(b, 4, 4)
    ensures Value(b) == Digit(Bit(b, 0)) + 2 * Number(b, 1, 7)
  {
    hide Bit;
    assert ValueFrom(b, 6) == Number(b, 6, 2);
    assert ValueFrom(b, 4) == Number(b, 4, 4);
    assert ValueFrom(b, 2) == Number(b, 2, 6);
    assert ValueFrom(b, 1) == Number(b, 1, 7);
    assert Number(b, 2, 2) == Digit(Bit(b, 2)) + 2 * Digit(Bit(b, 3));
    assert ValueFrom(b, 2) == Number(b, 2, 2) + 4 * ValueFrom(b, 4);
  }

  lemma BitOfValue(b: byte, i: nat)
    requires i < 8
    ensures Bit(b, i) == (Halved(Value(b), i) % 2 == 1)
  {
    ValueHalved(b, i);
    hide Bit;
    assert ValueFrom(b, i) == Digit(Bit(b, i)) + 2 * ValueFrom(b, i + 1);
  }

  lemma ValueBelow256(b: byte)
    ensures Value(b) < 256
  {
    ValueBound(b, 0);
    hide Bit, ValueFrom;
    assert Pow2(4) == 16;
  }

  lemma ValueToByte(b: byte)
    ensures ToByte(Value(b)) == b
  {
    var c := ToByte(Value(b));
    forall i | 0 <= i < 8 ensures Bit(c, i) == Bit(b, i) {
      BitOfValue(b, i);
      hide *;
    }
    hide *;
    SameBits(c, b);
  }

  lemma ValueTwo()
    ensures Value(0x02) == 2
  {
    assert ValueFrom(0x02, 8) == 0;
    assert ValueFrom(0x02, 6) == 0;
    assert ValueFrom(0x02, 4) == 0;
    assert ValueFrom(0x02, 2) == 0;
  }
}
