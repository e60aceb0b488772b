/** Fixed-width little-endian numbers. */
module LittleEndian {
  import opened Bytes

  const MAX64: nat := 0xFFFF_FFFF_FFFF_FFFF

  function Pow256(width: nat): (p: nat)
    ensures p > 0
  {
    if width == 0 then 1 else 256 * Pow256(width - 1)
  }

  function EncodeLE(n: nat, width: nat): (s: seq<Byte>)
    ensures |s| == width
  {
    if width == 0 then [] else [n % 256] + EncodeLE(n / 256, width - 1)
  }

  function DecodeLE(s: seq<Byte>): (n: nat) {
    if s == [] then 0 else s[0] + 256 * DecodeLE(s[1..])
  }

  lemma {:induction false} FieldRoundTrip(n: nat, width: nat)
    requires n < Pow256(width)
    ensures DecodeLE(EncodeLE(n, width)) == n
  {
    if width > 0 {
      FieldRoundTrip(n / 256, width - 1);
      assert EncodeLE(n, width)[1..] == EncodeLE(n / 256, width - 1);
    }
  }

  lemma LowestByte(b: Byte, m: nat)
    ensures (b + 256 * m) % 256 == b && (b + 256 * m) / 256 == m
  {
  }

  lemma {:induction false} FieldSound(s: seq<Byte>)
    ensures DecodeLE(s) < Pow256(|s|) && EncodeLE(DecodeLE(s), |s|) == s
  {
    if s != [] {
      FieldSound(s[1..]);
      LowestByte(s[0], DecodeLE(s[1..]));
      assert s == [s[0]] + s[1..];
    }
  }

  const FIELD_WIDTH: nat := 8
  const HALF_WIDTH: nat := 2

  /** A `uint16_t` as it is written. */
  function Half(n: nat): (s: seq<Byte>)
    ensures |s| == 2
  {
    EncodeLE(n, HALF_WIDTH)
  }

  /** A `uint64_t` as it is written. */
  function Field(n: nat): (s: seq<Byte>)
    ensures |s| == 8
  {
    EncodeLE(n, FIELD_WIDTH)
  }

  lemma FieldExact(n: nat)
    requires n <= MAX64
    ensures DecodeLE(Field(n)) == n
  {
    assert Pow256(8) == MAX64 + 1;
    FieldRoundTrip(n, FIELD_WIDTH);
  }

  lemma FieldOnto(s: seq<Byte>)
    requires |s| == 8
    ensures DecodeLE(s) <= MAX64 && Field(DecodeLE(s)) == s
  {
    assert Pow256(8) == MAX64 + 1;
    FieldSound(s);
  }

  /** Byte `k` as a number. */
  function At(s: seq<Byte>, k: nat): (n: nat)
    requires k < |s|
  {
    s[k]
  }

  /** The numbers at a place of a byte string, written out. */
  function Le16(s: seq<Byte>, k: nat): (n: nat)
    requires k + 2 <= |s|
  {
    At(s, k) + 0x100 * At(s, k + 1)
  }

  function Le32(s: seq<Byte>, k: nat): (n: nat)
    requires k + 4 <= |s|
  {
    Le16(s, k) + 0x1_0000 * Le16(s, k + 2)
  }

  function Le64(s: seq<Byte>, k: nat): (n: nat)
    requires k + 8 <= |s|
  {
    Le32(s, k) + 0x1_0000_0000 * Le32(s, k + 4)
  }

  lemma DecodeTwo(s: seq<Byte>)
    requires |s| >= 2
    ensures DecodeLE(s) == Le16(s, 0) + 0x1_0000 * DecodeLE(s[2..])
  {
    assert s[1..][1..] == s[2..];
  }

  lemma DecodeFour(s: seq<Byte>)
    requires |s| >= 4
    ensures DecodeLE(s) == Le32(s, 0) + 0x1_0000_0000 * DecodeLE(s[4..])
  {
    DecodeTwo(s);
    DecodeTwo(s[2..]);
    assert s[2..][2..] == s[4..];
  }

  lemma DecodeIsLe64(s: seq<Byte>)
    requires |s| == 8
    ensures DecodeLE(s) == Le64(s, 0)
  {
    DecodeFour(s);
    DecodeFour(s[4..]);
    assert s[4..][4..] == [];
  }

  /** A field that lies at `k` of a byte string reads there as the number it was written for. */
  lemma FieldReads(s: seq<Byte>, k: nat, n: nat)
    requires k + 8 <= |s| && s[k..k + 8] == Field(n) && n <= MAX64
    ensures Le64(s, k) == n
  {
    FieldExact(n);
    DecodeIsLe64(s[k..k + 8]);
    assert Le64(s[k..k + 8], 0) == Le64(s, k);
  }

  lemma HalfReads(s: seq<Byte>, k: nat, n: nat)
    requires k + 2 <= |s| && s[k..k + 2] == Half(n) && n < 0x1_0000
    ensures Le16(s, k) == n
  {
    assert Pow256(2) == 0x1_0000;
    FieldRoundTrip(n, HALF_WIDTH);
    DecodeTwo(s[k..k + 2]);
    assert s[k..k + 2][2..] == [];
    assert Le16(s[k..k + 2], 0) == Le16(s, k);
  }
}
