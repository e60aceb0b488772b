/** ADC and SBC of the 6502 in AppleCpu.c and the carry chains that multi-byte programs build on them. */
module CpuArithmetic {

  import opened Bytes

  // ----- Bitwise operations on numbers, bit by bit

  function Xor(x: nat, y: nat): (r: nat)
    decreases x + y
  {
    if x == 0 && y == 0 then 0 else 2 * Xor(x / 2, y / 2) + (x % 2 + y % 2) % 2
  }

  function And(x: nat, y: nat): (r: nat)
    decreases x + y
  {
    if x == 0 && y == 0 then 0 else 2 * And(x / 2, y / 2) + (x % 2) * (y % 2)
  }

  lemma XorParts(x: nat, y: nat)
    ensures Xor(x, y) / 2 == Xor(x / 2, y / 2) && Xor(x, y) % 2 == (x % 2 + y % 2) % 2
  {
    LowestBit(Xor(x / 2, y / 2), (x % 2 + y % 2) % 2);
  }

  lemma LowestBit(q: nat, b: nat)
    requires b < 2
    ensures (2 * q + b) / 2 == q && (2 * q + b) % 2 == b
  {
  }

  lemma {:induction false} XorBit(x: nat, y: nat, i: nat)
    ensures Bit(Xor(x, y), i) == (Bit(x, i) + Bit(y, i)) % 2
    decreases i
  {
    XorParts(x, y);
    if i > 0 {
      XorBit(x / 2, y / 2, i - 1);
    }
  }

  lemma {:induction false} AndZero(x: nat)
    ensures And(x, 0) == 0
  {
    if x > 0 {
      AndZero(x / 2);
    }
  }

  lemma And22(w: nat)
    ensures And(w, 0x22) == 2 * (w / 2 % 2) + 32 * (w / 32 % 2)
  {
    var w1 := w / 2;
    var w2 := w1 / 2;
    var w3 := w2 / 2;
    var w4 := w3 / 2;
    var w5 := w4 / 2;
    AndZero(w5 / 2);
    assert And(w5, 1) == w5 % 2;
    assert And(w4, 2) == 2 * And(w5, 1);
    assert And(w3, 4) == 2 * And(w4, 2);
    assert And(w2, 8) == 2 * And(w3, 4);
    assert And(w1, 17) == 2 * And(w2, 8) + w1 % 2;
    assert And(w, 34) == 2 * And(w1, 17);
    assert w5 == w / 32;
  }

  lemma BitIsQuotient(x: nat)
    ensures Bit(x, 4) == x / 16 % 2 && Bit(x, 8) == x / 256 % 2
  {
    var y := x / 2 / 2 / 2 / 2;
    assert y == x / 16 && y / 2 / 2 / 2 / 2 == x / 256;
    assert Bit(x, 4) == Bit(x / 2, 3) == Bit(x / 2 / 2, 2) == Bit(x / 2 / 2 / 2, 1) == Bit(y, 0);
    assert Bit(x, 8) == Bit(x / 2, 7) == Bit(x / 2 / 2, 6) == Bit(x / 2 / 2 / 2, 5) == Bit(y, 4);
    assert Bit(y, 4) == Bit(y / 2, 3) == Bit(y / 2 / 2, 2) == Bit(y / 2 / 2 / 2, 1);
  }

  lemma XorQuotient(x: nat, y: nat)
    ensures Xor(x, y) / 16 % 2 == (x / 16 % 2 + y / 16 % 2) % 2
    ensures Xor(x, y) / 256 % 2 == (x / 256 % 2 + y / 256 % 2) % 2
  {
    XorBit(x, y, 4);
    XorBit(x, y, 8);
    BitIsQuotient(x);
    BitIsQuotient(y);
    BitIsQuotient(Xor(x, y));
  }

  // ----- The sum that ADC forms

  function Num(b: bool): (n: int) {
    if b then 1 else 0
  }

  /** `Result` of `ac_Execute_ADC`, a 16-bit word before it is cut to the accumulator. */
  function AdcResult(a: Byte, v: Byte, c: bool, d: bool): (r: nat) {
    var r := a + v + Num(c);
    if d then r + And(Xor(Xor(r + 0x66, a), v) / 8, 0x22) * 3 else r
  }

  predicate IsBcd(b: Byte) {
    b / 16 < 10 && b % 16 < 10
  }

  function BcdValue(b: Byte): (n: nat) {
    10 * (b / 16) + b % 16
  }

  lemma Parity(p: int, q: int, s: int)
    ensures ((p % 2 + q % 2) % 2 + s % 2) % 2 == (p + q + s) % 2
  {
  }

  lemma TapBits(w: nat)
    ensures And(w / 8, 0x22) == 2 * (w / 16 % 2) + 32 * (w / 256 % 2)
  {
    And22(w / 8);
    assert w / 8 / 2 == w / 16 && w / 8 / 32 == w / 256;
  }

  lemma ThreeParities(x: nat, a: Byte, v: Byte, y: nat, w: nat)
    requires y / 16 % 2 == (x / 16 % 2 + a / 16 % 2) % 2 && w / 16 % 2 == (y / 16 % 2 + v / 16 % 2) % 2
    requires y / 256 % 2 == (x / 256 % 2 + a / 256 % 2) % 2 && w / 256 % 2 == (y / 256 % 2 + v / 256 % 2) % 2
    ensures w / 16 % 2 == (x / 16 + a / 16 + v / 16) % 2 && w / 256 % 2 == x / 256 % 2
  {
    Parity(x / 16, a / 16, v / 16);
    assert a / 256 == 0 && v / 256 == 0;
  }

  lemma Xor3(x: nat, a: Byte, v: Byte)
    ensures Xor(Xor(x, a), v) / 16 % 2 == (x / 16 + a / 16 + v / 16) % 2
    ensures Xor(Xor(x, a), v) / 256 % 2 == x / 256 % 2
  {
    XorQuotient(x, a);
    XorQuotient(Xor(x, a), v);
    ThreeParities(x, a, v, Xor(x, a), Xor(Xor(x, a), v));
  }

  /** The two bits that the decimal adjustment looks at are the carries out of both digits. */
  lemma Adjustment(x: nat, a: Byte, v: Byte)
    ensures And(Xor(Xor(x, a), v) / 8, 0x22) == 2 * ((x / 16 + a / 16 + v / 16) % 2) + 32 * (x / 256 % 2)
  {
    TapBits(Xor(Xor(x, a), v));
    Xor3(x, a, v);
  }

  lemma Digits(al: int, ah: int, vl: int, vh: int, c: int, k: int, m: int)
    requires 0 <= al < 10 && 0 <= ah < 10 && 0 <= vl < 10 && 0 <= vh < 10 && 0 <= c <= 1
    requires k == (if al + vl + c >= 10 then 1 else 0) && m == (if ah + vh + k >= 10 then 1 else 0)
    ensures var x := 16 * (ah + vh) + al + vl + c + 0x66; x / 16 == ah + vh + 6 + k && x / 256 % 2 == m
    ensures var s := 16 * (ah + vh) + al + vl + c + 6 * k + 0x60 * m;
            && s % 256 == 16 * (ah + vh + k - 10 * m) + (al + vl + c - 10 * k)
            && (s >= 256 <==> m == 1) && 0 <= ah + vh + k - 10 * m < 10 && 0 <= al + vl + c - 10 * k < 10
  {
  }

  lemma FromDigits(h: int, l: int)
    requires 0 <= h < 10 && 0 <= l < 10
    ensures IsBcd(16 * h + l) && BcdValue(16 * h + l) == 10 * h + l
  {
  }

  lemma DigitCarries(a: Byte, v: Byte, c: bool, k: int, m: int, x: int)
    requires IsBcd(a) && IsBcd(v) && x == a + v + Num(c) + 0x66
    requires k == (if a % 16 + v % 16 + Num(c) >= 10 then 1 else 0) && m == (if a / 16 + v / 16 + k >= 10 then 1 else 0)
    ensures (x / 16 + a / 16 + v / 16) % 2 == k && x / 256 % 2 == m
  {
    Digits(a % 16, a / 16, v % 16, v / 16, Num(c), k, m);
    assert x == 16 * (a / 16 + v / 16) + a % 16 + v % 16 + Num(c) + 0x66;
    Parity(6 + k, 2 * (a / 16), 2 * (v / 16));
  }

  lemma DecimalResult(a: Byte, v: Byte, c: bool, k: int, m: int)
    requires IsBcd(a) && IsBcd(v)
    requires k == (if a % 16 + v % 16 + Num(c) >= 10 then 1 else 0) && m == (if a / 16 + v / 16 + k >= 10 then 1 else 0)
    ensures AdcResult(a, v, c, true) == a + v + Num(c) + 6 * k + 0x60 * m
  {
    var x := a + v + Num(c) + 0x66;
    DigitCarries(a, v, c, k, m, x);
    Adjustment(x, a, v);
  }

  lemma DigitSum(al: int, ah: int, vl: int, vh: int, c: bool, k: int, m: int, r: nat)
    requires 0 <= al < 10 && 0 <= ah < 10 && 0 <= vl < 10 && 0 <= vh < 10
    requires k == (if al + vl + Num(c) >= 10 then 1 else 0) && m == (if ah + vh + k >= 10 then 1 else 0)
    requires r == 16 * (ah + vh) + al + vl + Num(c) + 6 * k + 0x60 * m
    ensures IsBcd(r % 256) && BcdValue(r % 256) + 100 * Num(r >= 256) == 10 * (ah + vh) + al + vl + Num(c) && r < 0x1_0000
  {
    Digits(al, ah, vl, vh, Num(c), k, m);
    FromDigits(ah + vh + k - 10 * m, al + vl + Num(c) - 10 * k);
  }

  lemma DecimalSum(a: Byte, v: Byte, c: bool, k: int, m: int, r: nat)
    requires IsBcd(a) && IsBcd(v) && r == a + v + Num(c) + 6 * k + 0x60 * m
    requires k == (if a % 16 + v % 16 + Num(c) >= 10 then 1 else 0) && m == (if a / 16 + v / 16 + k >= 10 then 1 else 0)
    ensures IsBcd(r % 256) && BcdValue(r % 256) + 100 * Num(r >= 256) == BcdValue(a) + BcdValue(v) + Num(c) && r < 0x1_0000
  {
    DigitSum(a % 16, a / 16, v % 16, v / 16, c, k, m, r);
  }

  /** One decimal addition: valid digits and a carry that together are the decimal sum. */
  lemma DecimalAdd(a: Byte, v: Byte, c: bool)
    requires IsBcd(a) && IsBcd(v)
    ensures var r := AdcResult(a, v, c, true);
            IsBcd(r % 256) && BcdValue(r % 256) + 100 * Num(r >= 256) == BcdValue(a) + BcdValue(v) + Num(c) && r < 0x1_0000
  {
    var k := if a % 16 + v % 16 + Num(c) >= 10 then 1 else 0;
    var m := if a / 16 + v / 16 + k >= 10 then 1 else 0;
    DecimalResult(a, v, c, k, m);
    DecimalSum(a, v, c, k, m, AdcResult(a, v, c, true));
  }

  lemma BinaryAdd(a: Byte, v: Byte, c: bool)
    ensures var r := AdcResult(a, v, c, false); r % 256 + 256 * Num(r >= 256) == a + v + Num(c) && r < 0x1_0000
  {
  }

  lemma AdcFitsWord(a: Byte, v: Byte, c: bool, d: bool)
    ensures AdcResult(a, v, c, d) < 0x1_0000
  {
    And22(Xor(Xor(a + v + Num(c) + 0x66, a), v) / 8);
  }

  function Signed(b: Byte): (n: int) {
    if b < 128 then b else b - 256
  }

  /** `ac_SetOverflow`: equal signs going in, another sign coming out. */
  predicate Overflows(a: Byte, v: Byte, r: Byte) {
    a / 128 == v / 128 && r / 128 != v / 128
  }

  /** In binary mode the overflow flag says that the signed sum does not fit. */
  lemma OverflowIsSigned(a: Byte, v: Byte, c: bool)
    ensures Overflows(a, v, AdcResult(a, v, c, false) % 256) <==> !(-128 <= Signed(a) + Signed(v) + Num(c) < 128)
  {
  }

  // ----- Carry chains, low byte first

  function Pow(base: nat, n: nat): (p: nat) {
    if n == 0 then 1 else base * Pow(base, n - 1)
  }

  /** The number that `ds` stands for if each byte counts for `digit` of it. */
  ghost function Value(ds: seq<Byte>, base: nat, digit: Byte -> nat): (n: nat)
    decreases |ds|
  {
    if ds == [] then 0 else digit(ds[0]) + base * Value(ds[1..], base, digit)
  }

  datatype Sum = Sum(bytes: seq<Byte>, carry: bool)

  /** ADC of `ys` to `xs`, byte by byte, the carry running on. */
  function Chain(xs: seq<Byte>, ys: seq<Byte>, c: bool, d: bool): (s: Sum)
    requires |xs| == |ys|
    ensures |s.bytes| == |xs|
    decreases |xs|
  {
    if xs == [] then Sum([], c)
    else
      var r := AdcResult(xs[0], ys[0], c, d);
      var rest := Chain(xs[1..], ys[1..], r >= 256, d);
      Sum([r % 256] + rest.bytes, rest.carry)
  }

  /** The chain with only its first byte added. */
  lemma ChainStep(xs: seq<Byte>, ys: seq<Byte>, c: bool, d: bool)
    requires |xs| == |ys| > 0
    ensures var r, s := AdcResult(xs[0], ys[0], c, d), Chain(xs, ys, c, d);
            s.bytes[0] == r % 256 && Chain(xs[1..], ys[1..], r >= 256, d) == Sum(s.bytes[1..], s.carry)
  {
  }

  /** The carry of the rest of a chain, weighted, carries over. */
  lemma Weigh(z: int, c1: int, v: int, base: nat, rest: int, p: nat, carry: int, sum: int)
    requires z + base * c1 == v && rest + p * carry == sum + c1
    ensures (z + base * rest) + (base * p) * carry == v + base * sum
  {
    assert base * (rest + p * carry) == base * rest + (base * p) * carry;
    assert base * (sum + c1) == base * sum + base * c1;
  }

  ghost predicate AllBcd(ds: seq<Byte>) {
    forall i :: 0 <= i < |ds| ==> IsBcd(ds[i])
  }

  /** Decimal mode adds numbers of any length exactly, and stays within valid digits. */
  lemma {:induction false} DecimalChain(xs: seq<Byte>, ys: seq<Byte>, c: bool)
    requires |xs| == |ys| && AllBcd(xs) && AllBcd(ys)
    ensures var s := Chain(xs, ys, c, true);
            && AllBcd(s.bytes)
            && Value(s.bytes, 100, BcdValue) + Pow(100, |xs|) * Num(s.carry) ==
               Value(xs, 100, BcdValue) + Value(ys, 100, BcdValue) + Num(c)
    decreases |xs|
  {
    if xs != [] {
      var r, s := AdcResult(xs[0], ys[0], c, true), Chain(xs, ys, c, true);
      DecimalAdd(xs[0], ys[0], c);
      ChainStep(xs, ys, c, true);
      DecimalChain(xs[1..], ys[1..], r >= 256);
      assert s.bytes == [s.bytes[0]] + s.bytes[1..];
      Weigh(BcdValue(s.bytes[0]), Num(r >= 256), BcdValue(xs[0]) + BcdValue(ys[0]) + Num(c), 100,
            Value(s.bytes[1..], 100, BcdValue), Pow(100, |xs| - 1), Num(s.carry),
            Value(xs[1..], 100, BcdValue) + Value(ys[1..], 100, BcdValue));
    }
  }

  function Plain(b: Byte): (n: nat) {
    b
  }

  lemma {:induction false} BinaryChain(xs: seq<Byte>, ys: seq<Byte>, c: bool)
    requires |xs| == |ys|
    ensures var s := Chain(xs, ys, c, false);
            Value(s.bytes, 256, Plain) + Pow(256, |xs|) * Num(s.carry) ==
            Value(xs, 256, Plain) + Value(ys, 256, Plain) + Num(c)
    decreases |xs|
  {
    if xs != [] {
      var r, s := AdcResult(xs[0], ys[0], c, false), Chain(xs, ys, c, false);
      BinaryAdd(xs[0], ys[0], c);
      ChainStep(xs, ys, c, false);
      BinaryChain(xs[1..], ys[1..], r >= 256);
      Weigh(s.bytes[0], Num(r >= 256), xs[0] + ys[0] + Num(c), 256,
            Value(s.bytes[1..], 256, Plain), Pow(256, |xs| - 1), Num(s.carry),
            Value(xs[1..], 256, Plain) + Value(ys[1..], 256, Plain));
    }
  }

  /** SBC adds the complement. */
  function Complement(ys: seq<Byte>): (r: seq<Byte>)
    ensures |r| == |ys|
  {
    seq(|ys|, i requires 0 <= i < |ys| => 255 - ys[i])
  }

  lemma {:induction false} ComplementValue(ys: seq<Byte>)
    ensures Value(Complement(ys), 256, Plain) + Value(ys, 256, Plain) == Pow(256, |ys|) - 1
    decreases |ys|
  {
    if ys != [] {
      ComplementValue(ys[1..]);
      assert Complement(ys)[1..] == Complement(ys[1..]);
    }
  }

  /** Binary subtraction of numbers of any length: with the carry set going in, the carry coming out
      is clear exactly when the result has borrowed. */
  lemma SubtractChain(xs: seq<Byte>, ys: seq<Byte>)
    requires |xs| == |ys|
    ensures var s := Chain(xs, Complement(ys), true, false);
            && Value(s.bytes, 256, Plain) ==
               Value(xs, 256, Plain) - Value(ys, 256, Plain) + (if s.carry then 0 else Pow(256, |xs|))
            && (s.carry <==> Value(xs, 256, Plain) >= Value(ys, 256, Plain))
  {
    BinaryChain(xs, Complement(ys), true);
    ComplementValue(ys);
    var s := Chain(xs, Complement(ys), true, false);
    ValueBound(s.bytes);
  }

  lemma {:induction false} ValueBound(ds: seq<Byte>)
    ensures Value(ds, 256, Plain) < Pow(256, |ds|)
    decreases |ds|
  {
    if ds != [] {
      ValueBound(ds[1..]);
    }
  }
}
