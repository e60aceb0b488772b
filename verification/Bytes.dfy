/** Machine bytes and 16-bit words. */
module Bytes {
  type Byte = b: int | 0 <= b < 256
  type Word = w: int | 0 <= w < 0x1_0000

  function MakeWord(lo: Byte, hi: Byte): (w: Word) {
    (lo as int) + 256 * (hi as int)
  }

  /** Bit `i` of `x`, the lowest being bit 0. */
  function Bit(x: nat, i: nat): (b: int)
    ensures b == 0 || b == 1
    decreases i
  {
    if i == 0 then x % 2 else Bit(x / 2, i - 1)
  }

  lemma {:induction false} ZeroBits(i: nat)
    ensures Bit(0, i) == 0
  {
    if i > 0 {
      ZeroBits(i - 1);
    }
  }

  lemma Quotients(b: Byte)
    ensures var b2 := b / 2 / 2;
            && b2 == b / 4 && b2 / 2 == b / 8 && b2 / 2 / 2 == b / 16
            && b2 / 2 / 2 / 2 == b / 32 && b2 / 2 / 2 / 2 / 2 == b / 64 && b2 / 2 / 2 / 2 / 2 / 2 == b / 128
  {
  }

  /** The weights of the bits of a byte. */
  lemma EachBit(b: Byte)
    ensures Bit(b, 0) == b % 2 && Bit(b, 1) == b / 2 % 2 && Bit(b, 2) == b / 4 % 2 && Bit(b, 3) == b / 8 % 2
    ensures Bit(b, 4) == b / 16 % 2 && Bit(b, 5) == b / 32 % 2 && Bit(b, 6) == b / 64 % 2 && Bit(b, 7) == b / 128 % 2
  {
    Quotients(b);
  }
}
