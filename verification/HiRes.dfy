/** The hi-res branch of `ad_Render` in AppleDevice.c: cells of two bytes that are redrawn only when
    their word or the dot to their left has changed. */
module HiRes {
  import opened Bytes
  import LanguageCard

  const LINES := 192
  const CELLS := 20
  const WIDTH := 280
  const MIXED_LINES := 160

  // ----- The reference: every dot coloured from the video memory alone

  /** `offsetHGR`: the interleaved start of a line within its video page. */
  function LineOffset(line: int): (o: int)
    requires 0 <= line < LINES
    ensures 0 <= o <= 0x1FD0
  {
    line % 8 * 0x400 + line / 8 % 8 * 0x80 + line / 64 * 0x28
  }

  type Ram = r: seq<Byte> | |r| == LanguageCard.RAM_SIZE witness seq(LanguageCard.RAM_SIZE, _ => 0)

  lemma LineParts(a: int, b: int, c: int, a': int, b': int, c': int)
    requires 0 <= a < 8 && 0 <= b < 8 && 0 <= c < 3 && 0 <= a' < 8 && 0 <= b' < 8 && 0 <= c' < 3
    requires (a, b, c) != (a', b', c')
    ensures var o, o' := 0x400 * a + 0x80 * b + 0x28 * c, 0x400 * a' + 0x80 * b' + 0x28 * c';
            (o + 40 <= o' || o' + 40 <= o) && o + 40 <= 0x2000
  {
    if a != a' {
      assert a + 1 <= a' || a' + 1 <= a;
    } else if b != b' {
      assert b + 1 <= b' || b' + 1 <= b;
    }
  }

  lemma LineNumber(i: int)
    requires 0 <= i < LINES
    ensures i == 64 * (i / 64) + 8 * (i / 8 % 8) + i % 8 && 0 <= i / 64 < 3
  {
    assert i / 64 == i / 8 / 8;
  }

  /** The forty bytes of a line belong to no other line and lie within the page. */
  lemma LinesApart(i: int, j: int)
    requires 0 <= i < LINES && 0 <= j < LINES && i != j
    ensures LineOffset(i) + 40 <= LineOffset(j) || LineOffset(j) + 40 <= LineOffset(i)
    ensures LineOffset(i) + 40 <= 0x2000
  {
    LineNumber(i);
    LineNumber(j);
    LineParts(i % 8, i / 8 % 8, i / 64, j % 8, j / 8 % 8, j / 64);
  }

  /** Byte `col` of a line of the page on display. */
  function VideoByte(ram: Ram, page: int, line: int, col: int): (b: Byte)
    requires 1 <= page <= 2 && 0 <= line < LINES && 0 <= col < 40
  {
    ram[page * 0x2000 + LineOffset(line) + col]
  }

  /** Seven dots a byte, the lowest bit leftmost. */
  function Dot(ram: Ram, page: int, line: int, x: int): (d: int)
    requires 1 <= page <= 2 && 0 <= line < LINES && 0 <= x < WIDTH
  {
    Bit(VideoByte(ram, page, line, x / 7), x % 7)
  }

  /** The colour index of a dot: brightness by column, colour set by the byte's top bit, and the dot
      with its left neighbour. */
  function Colour(ram: Ram, page: int, line: int, x: int): (c: int)
    requires 1 <= page <= 2 && 0 <= line < LINES && 0 <= x < WIDTH
  {
    8 * (x % 2) + 4 * Bit(VideoByte(ram, page, line, x / 7), 7) + 2 * Dot(ram, page, line, x)
    + if x == 0 then 0 else Dot(ram, page, line, x - 1)
  }

  // ----- Cells

  /** The two bytes of a cell, as the renderer reads them. */
  function CellWord(ram: Ram, page: int, line: int, cell: int): (w: nat)
    requires 1 <= page <= 2 && 0 <= line < LINES && 0 <= cell < CELLS
    ensures w < 0x1_0000
  {
    256 * VideoByte(ram, page, line, 2 * cell + 1) + VideoByte(ram, page, line, 2 * cell)
  }

  function BitOfDot(k: int): (b: nat)
    requires 0 <= k < 14
    ensures b < 15
  {
    if k < 7 then k else k + 1
  }

  /** Dot `k` of a cell with word `w` whose left neighbour dot is `left`. */
  function CellDot(w: nat, left: int, k: int): (c: int)
    requires 0 <= k < 14
  {
    8 * (k % 2) + 4 * Bit(w, if k < 7 then 7 else 15) + 2 * Bit(w, BitOfDot(k))
    + if k == 0 then left else Bit(w, BitOfDot(k - 1))
  }

  type Words = ws: seq<nat> | |ws| == CELLS witness seq(CELLS, _ => 0)

  function LeftDot(ws: Words, cell: int): (d: int)
    requires 0 <= cell < CELLS
  {
    if cell == 0 then 0 else Bit(ws[cell - 1], 14)
  }

  function LineWords(ram: Ram, page: int, line: int): (ws: Words)
    requires 1 <= page <= 2 && 0 <= line < LINES
  {
    seq(CELLS, cell requires 0 <= cell < CELLS => CellWord(ram, page, line, cell))
  }

  function HalfPower(n: nat): (h: nat) {
    if n <= 1 then 1 else 2 * HalfPower(n - 1)
  }

  /** Adding a multiple of `2 * HalfPower(n)` changes no bit below bit `n`. */
  lemma {:induction false} LowBits(lo: nat, hi: nat, i: nat, n: nat)
    requires i < n
    ensures Bit(2 * HalfPower(n) * hi + lo, i) == Bit(lo, i)
    decreases i
  {
    assert 2 * HalfPower(n) * hi == 2 * (HalfPower(n) * hi);
    if i > 0 {
      assert (2 * (HalfPower(n) * hi) + lo) / 2 == HalfPower(n) * hi + lo / 2;
      LowBits(lo / 2, hi, i - 1, n - 1);
    }
  }

  /** Above bit `n` it is the factor that shows. */
  lemma {:induction false} HighBits(lo: nat, hi: nat, i: nat, n: nat)
    requires lo < 2 * HalfPower(n) && n >= 1
    ensures Bit(2 * HalfPower(n) * hi + lo, n + i) == Bit(hi, i)
    decreases n
  {
    var x := 2 * HalfPower(n) * hi + lo;
    assert x == 2 * (HalfPower(n) * hi) + lo;
    assert x / 2 == HalfPower(n) * hi + lo / 2;
    if n > 1 {
      HighBits(lo / 2, hi, i, n - 1);
    }
  }

  lemma TwoBytes(lo: Byte, hi: Byte, i: nat)
    requires i < 8
    ensures Bit(256 * hi + lo, i) == Bit(lo, i) && Bit(256 * hi + lo, 8 + i) == Bit(hi, i)
  {
    assert HalfPower(8) == 128;
    LowBits(lo, hi, i, 8);
    HighBits(lo, hi, i, 8);
  }

  lemma WordBits(lo: Byte, hi: Byte, k: int)
    requires 0 <= k < 14
    ensures Bit(256 * hi + lo, BitOfDot(k)) == if k < 7 then Bit(lo, k) else Bit(hi, k - 7)
  {
    TwoBytes(lo, hi, if k < 7 then k else k - 7);
  }

  lemma DotColumn(cell: int, k: int)
    requires 0 <= cell < CELLS && 0 <= k < 14
    ensures var x := 14 * cell + k;
            && x < WIDTH && x % 2 == k % 2
            && x / 7 == (if k < 7 then 2 * cell else 2 * cell + 1) && x % 7 == if k < 7 then k else k - 7
  {
  }

  lemma CellBitIsDot(ram: Ram, page: int, line: int, cell: int, k: int)
    requires 1 <= page <= 2 && 0 <= line < LINES && 0 <= cell < CELLS && 0 <= k < 14
    ensures 14 * cell + k < WIDTH
    ensures Bit(CellWord(ram, page, line, cell), BitOfDot(k)) == Dot(ram, page, line, 14 * cell + k)
  {
    DotColumn(cell, k);
    WordBits(VideoByte(ram, page, line, 2 * cell), VideoByte(ram, page, line, 2 * cell + 1), k);
  }

  lemma CellTopBit(ram: Ram, page: int, line: int, cell: int, k: int)
    requires 1 <= page <= 2 && 0 <= line < LINES && 0 <= cell < CELLS && 0 <= k < 14
    ensures 14 * cell + k < WIDTH
    ensures Bit(CellWord(ram, page, line, cell), if k < 7 then 7 else 15) ==
            Bit(VideoByte(ram, page, line, (14 * cell + k) / 7), 7)
  {
    DotColumn(cell, k);
    TwoBytes(VideoByte(ram, page, line, 2 * cell), VideoByte(ram, page, line, 2 * cell + 1), 7);
  }

  /** The dot to the left of a cell. */
  lemma LeftIsDot(ram: Ram, page: int, line: int, cell: int)
    requires 1 <= page <= 2 && 0 <= line < LINES && 0 <= cell < CELLS
    ensures LeftDot(LineWords(ram, page, line), cell) == if cell == 0 then 0 else Dot(ram, page, line, 14 * cell - 1)
  {
    if cell > 0 {
      CellBitIsDot(ram, page, line, cell - 1, 13);
    }
  }

  lemma DotsOfCell(ram: Ram, page: int, line: int, cell: int, k: int, left: int)
    requires 1 <= page <= 2 && 0 <= line < LINES && 0 <= cell < CELLS && 0 <= k < 14
    requires left == if cell == 0 then 0 else Dot(ram, page, line, 14 * cell - 1)
    ensures 14 * cell + k < WIDTH
    ensures CellDot(CellWord(ram, page, line, cell), left, k) == Colour(ram, page, line, 14 * cell + k)
  {
    DotColumn(cell, k);
    CellTopBit(ram, page, line, cell, k);
    CellBitIsDot(ram, page, line, cell, k);
    if k > 0 {
      CellBitIsDot(ram, page, line, cell, k - 1);
    }
  }

  /** The cells side by side are the dots of the line. */
  lemma CellsAreDots(ram: Ram, page: int, line: int, cell: int, k: int)
    requires 1 <= page <= 2 && 0 <= line < LINES && 0 <= cell < CELLS && 0 <= k < 14
    ensures var ws := LineWords(ram, page, line);
            CellDot(ws[cell], LeftDot(ws, cell), k) == Colour(ram, page, line, 14 * cell + k)
  {
    LeftIsDot(ram, page, line, cell);
    DotsOfCell(ram, page, line, cell, k, LeftDot(LineWords(ram, page, line), cell));
  }

  // ----- Lines of dots

  type Row = r: seq<int> | |r| == WIDTH witness seq(WIDTH, _ => 0)

  /** A line drawn in full. */
  function Paint(ws: Words): (r: Row) {
    seq(WIDTH, x requires 0 <= x < WIDTH => CellDot(ws[x / 14], LeftDot(ws, x / 14), x % 14))
  }

  /** A full redraw straight from video memory. */
  function FullLine(ram: Ram, page: int, line: int): (r: Row)
    requires 1 <= page <= 2 && 0 <= line < LINES
  {
    seq(WIDTH, x requires 0 <= x < WIDTH => Colour(ram, page, line, x))
  }

  lemma PaintIsFullLine(ram: Ram, page: int, line: int)
    requires 1 <= page <= 2 && 0 <= line < LINES
    ensures Paint(LineWords(ram, page, line)) == FullLine(ram, page, line)
  {
    forall x | 0 <= x < WIDTH ensures Paint(LineWords(ram, page, line))[x] == FullLine(ram, page, line)[x] {
      CellsAreDots(ram, page, line, x / 14, x % 14);
    }
  }

  // ----- What of the memory is on display

  /** A line shows nothing but its own page. */
  lemma PageOnly(ram: Ram, ram': Ram, page: int, line: int)
    requires 1 <= page <= 2 && 0 <= line < LINES
    requires forall k :: 0x2000 * page <= k < 0x2000 * page + 0x2000 ==> ram[k] == ram'[k]
    ensures FullLine(ram, page, line) == FullLine(ram', page, line)
  {
    forall x | 0 <= x < WIDTH ensures FullLine(ram, page, line)[x] == FullLine(ram', page, line)[x] {
      SameBytes(ram, ram', page, line, x / 7);
      SameBytes(ram, ram', page, line, if x == 0 then 0 else (x - 1) / 7);
    }
  }

  lemma SameBytes(ram: Ram, ram': Ram, page: int, line: int, col: int)
    requires 1 <= page <= 2 && 0 <= line < LINES && 0 <= col < 40
    requires forall k :: 0x2000 * page <= k < 0x2000 * page + 0x2000 ==> ram[k] == ram'[k]
    ensures VideoByte(ram, page, line, col) == VideoByte(ram', page, line, col)
  {
    LineNumber(line);
  }

  /** Line `64 * c + 8 * b + a` starts at `0x400 * a + 0x80 * b + 0x28 * c` of the page; its dots are the
      seven low bits of its bytes, lowest first, and the rest of the colour index follows from them. */
  lemma DotFromRam(ram: Ram, page: int, a: int, b: int, c: int, x: int)
    requires 1 <= page <= 2 && 0 <= a < 8 && 0 <= b < 8 && 0 <= c < 3 && 0 <= x < WIDTH
    ensures var start := 0x2000 * page + 0x400 * a + 0x80 * b + 0x28 * c;
            FullLine(ram, page, 64 * c + 8 * b + a)[x] ==
            8 * (x % 2) + 4 * Bit(ram[start + x / 7], 7) + 2 * Bit(ram[start + x / 7], x % 7)
            + if x == 0 then 0 else Bit(ram[start + (x - 1) / 7], (x - 1) % 7)
  {
    LineStart(a, b, c);
  }

  lemma LineStart(a: int, b: int, c: int)
    requires 0 <= a < 8 && 0 <= b < 8 && 0 <= c < 3
    ensures LineOffset(64 * c + 8 * b + a) == 0x400 * a + 0x80 * b + 0x28 * c
  {
    var line := 64 * c + 8 * b + a;
    assert line % 8 == a && line / 8 == 8 * c + b;
    assert line / 8 % 8 == b && line / 64 == c;
  }

  /** Byte `w` is `v` with bit `i` flipped. */
  ghost predicate Flips(v: Byte, w: Byte, i: int)
    requires 0 <= i < 8
  {
    Bit(w, i) != Bit(v, i) && forall j :: 0 <= j < 8 && j != i ==> Bit(w, j) == Bit(v, j)
  }

  lemma FlipChanges(ram: Ram, page: int, a: int, b: int, c: int, col: int, i: int, w: Byte)
    requires 1 <= page <= 2 && 0 <= a < 8 && 0 <= b < 8 && 0 <= c < 3 && 0 <= col < 40 && 0 <= i < 7
    requires Flips(ram[0x2000 * page + 0x400 * a + 0x80 * b + 0x28 * c + col], w, i)
    ensures var at, line := 0x2000 * page + 0x400 * a + 0x80 * b + 0x28 * c + col, 64 * c + 8 * b + a;
            FullLine(ram[at := w], page, line)[7 * col + i] != FullLine(ram, page, line)[7 * col + i]
  {
    var at, x := 0x2000 * page + 0x400 * a + 0x80 * b + 0x28 * c + col, 7 * col + i;
    assert x / 7 == col && x % 7 == i;
    DotFromRam(ram, page, a, b, c, x);
    DotFromRam(ram[at := w], page, a, b, c, x);
  }

  /** Flipping bit `i` of byte `col` of a line changes dot `7 * col + i` of that line, and no other line. */
  lemma FlipShows(ram: Ram, page: int, a: int, b: int, c: int, col: int, i: int, w: Byte)
    requires 1 <= page <= 2 && 0 <= a < 8 && 0 <= b < 8 && 0 <= c < 3 && 0 <= col < 40 && 0 <= i < 7
    requires Flips(ram[0x2000 * page + 0x400 * a + 0x80 * b + 0x28 * c + col], w, i)
    ensures var at, line := 0x2000 * page + 0x400 * a + 0x80 * b + 0x28 * c + col, 64 * c + 8 * b + a;
            && FullLine(ram[at := w], page, line)[7 * col + i] != FullLine(ram, page, line)[7 * col + i]
            && forall l :: 0 <= l < LINES && l != line ==> FullLine(ram[at := w], page, l) == FullLine(ram, page, l)
  {
    FlipChanges(ram, page, a, b, c, col, i, w);
    var at, line := 0x2000 * page + 0x400 * a + 0x80 * b + 0x28 * c + col, 64 * c + 8 * b + a;
    forall l | 0 <= l < LINES && l != line ensures FullLine(ram[at := w], page, l) == FullLine(ram, page, l) {
      OtherLine(ram, page, a, b, c, col, w, l);
    }
  }

  lemma OtherLine(ram: Ram, page: int, a: int, b: int, c: int, col: int, w: Byte, l: int)
    requires 1 <= page <= 2 && 0 <= a < 8 && 0 <= b < 8 && 0 <= c < 3 && 0 <= col < 40
    requires 0 <= l < LINES && l != 64 * c + 8 * b + a
    ensures FullLine(ram[0x2000 * page + 0x400 * a + 0x80 * b + 0x28 * c + col := w], page, l) == FullLine(ram, page, l)
  {
    LineStart(a, b, c);
    LinesApart(l, 64 * c + 8 * b + a);
  }

  /** Seven dots lit at the start of page 1, and nothing else: the first dot has index 2. */
  lemma FirstDot(ram: Ram)
    requires ram == seq(LanguageCard.RAM_SIZE, _ => 0)[0x2000 := 0x7F]
    ensures FullLine(ram, 1, 0)[0] == 2 && FullLine(ram, 2, 0)[0] == 0
  {
    DotFromRam(ram, 1, 0, 0, 0, 0);
    DotFromRam(ram, 2, 0, 0, 0, 0);
    EachBit(0x7F);
    ZeroBits(0);
    ZeroBits(7);
  }

  function PaintCell(row: Row, cell: int, w: nat, left: int): (r: Row) {
    seq(WIDTH, x requires 0 <= x < WIDTH => if x / 14 == cell then CellDot(w, left, x % 14) else row[x])
  }

  /** The cells that a frame redraws: all when `flash` is 0, else those whose word or left dot changed. */
  predicate Redrawn(ws: Words, nw: Words, flash: nat, cell: int)
    requires 0 <= cell < CELLS
  {
    flash == 0 || ws[cell] != nw[cell] || LeftDot(ws, cell) != LeftDot(nw, cell)
  }

  function RepaintUpTo(row: Row, ws: Words, nw: Words, flash: nat, n: int): (r: Row) {
    seq(WIDTH, x requires 0 <= x < WIDTH =>
      if x / 14 < n && Redrawn(ws, nw, flash, x / 14) then CellDot(nw[x / 14], LeftDot(nw, x / 14), x % 14) else row[x])
  }

  /** The cache is invisible once the line has been drawn in full. */
  lemma RepaintIsPaint(row: Row, ws: Words, nw: Words, flash: nat)
    requires flash == 0 || row == Paint(ws)
    ensures RepaintUpTo(row, ws, nw, flash, CELLS) == Paint(nw)
  {
  }

  lemma RepaintStep(row: Row, ws: Words, nw: Words, flash: nat, n: int)
    requires 0 <= n < CELLS
    ensures var r := RepaintUpTo(row, ws, nw, flash, n);
            RepaintUpTo(row, ws, nw, flash, n + 1) ==
            if Redrawn(ws, nw, flash, n) then PaintCell(r, n, nw[n], LeftDot(nw, n)) else r
  {
  }

  // ----- The renderer

  class Renderer {
    const colour: array2<int>
    const cache: array2<int>
    const previous: array2<int>
    var flashCycle: nat
    ghost var shown: seq<Words>

    ghost predicate Shaped()
      reads this
    {
      && colour.Length0 == cache.Length0 == previous.Length0 == LINES
      && colour.Length1 == WIDTH && cache.Length1 == previous.Length1 == 40
      && cache != previous && |shown| == LINES && flashCycle < 30
    }

    ghost predicate CellKnown(line: int, cell: int, ws: Words)
      requires Shaped() && 0 <= line < LINES && 0 <= cell < CELLS
      reads this, cache, previous
    {
      cache[line, 2 * cell] == ws[cell] && previous[line, 2 * cell] == LeftDot(ws, cell)
    }

    /** Cache and left dots describe the words `ws`. */
    ghost predicate LineKnown(line: int, ws: Words)
      requires Shaped() && 0 <= line < LINES
      reads this, cache, previous
    {
      forall cell :: 0 <= cell < CELLS ==> CellKnown(line, cell, ws)
    }

    ghost predicate Valid()
      reads this, cache, previous
    {
      Shaped() && forall line :: 0 <= line < LINES ==> LineKnown(line, shown[line])
    }

    ghost function RowOf(line: int): (r: Row)
      requires Shaped() && 0 <= line < LINES
      reads this, colour
    {
      seq(WIDTH, x requires 0 <= x < WIDTH && Shaped() && 0 <= line < LINES reads this, colour => colour[line, x])
    }

    /** `ad_Reset` */
    constructor ()
      ensures Valid() && flashCycle == 0 && shown == seq(LINES, _ => seq(CELLS, _ => 0))
      ensures fresh(colour) && fresh(cache) && fresh(previous)
    {
      colour := new int[LINES, WIDTH]((_, _) => 0);
      cache := new int[LINES, 40]((_, _) => 0);
      previous := new int[LINES, 40]((_, _) => 0);
      flashCycle := 0;
      shown := seq(LINES, _ => seq(CELLS, _ => 0));
      new;
      ZeroBits(14);
    }

    /** The dots of one cell; the last one is the left neighbour of the next cell. */
    method DrawDots(line: int, cell: int, word: nat, left: int) returns (pbit: int)
      requires Shaped() && 0 <= line < LINES && 0 <= cell < CELLS
      modifies colour
      ensures forall k :: 0 <= k < 14 ==> colour[line, 14 * cell + k] == CellDot(word, left, k)
      ensures forall l, i :: 0 <= l < LINES && 0 <= i < WIDTH && !(l == line && 14 * cell <= i < 14 * cell + 14) ==>
                colour[l, i] == old(colour[l, i])
      ensures pbit == Bit(word, 14)
    {
      var bits := seq(16, i requires 0 <= i < 16 => Bit(word, i));
      var x, even, bit := 14 * cell, 0, 0;
      var colorSet := 4 * bits[7];
      pbit := left;
      ghost var k := 0;
      while bit < 15
        invariant 0 <= k <= 14 && bit == (if k <= 7 then k else k + 1) && x == 14 * cell + k
        invariant even == 8 * (k % 2) && colorSet == 4 * bits[if k <= 7 then 7 else 15]
        invariant pbit == if k == 0 then left else Bit(word, BitOfDot(k - 1))
        invariant forall i :: 0 <= i < k ==> colour[line, 14 * cell + i] == CellDot(word, left, i)
        invariant forall l, i :: 0 <= l < LINES && 0 <= i < WIDTH && !(l == line && 14 * cell <= i < 14 * cell + k) ==>
                    colour[l, i] == old(colour[l, i])
      {
        if bit == 7 {
          colorSet := 4 * bits[15];
          bit := bit + 1;
        }
        colour[line, x] := even + colorSet + 2 * bits[bit] + pbit;
        x := x + 1;
        pbit := bits[bit];
        bit := bit + 1;
        even := if even != 0 then 0 else 8;
        k := k + 1;
      }
    }

    method DrawCell(line: int, cell: int, word: nat, left: int) returns (pbit: int)
      requires Shaped() && 0 <= line < LINES && 0 <= cell < CELLS
      modifies colour
      ensures RowOf(line) == PaintCell(old(RowOf(line)), cell, word, left) && pbit == Bit(word, 14)
      ensures forall l :: 0 <= l < LINES && l != line ==> RowOf(l) == old(RowOf(l))
    {
      pbit := DrawDots(line, cell, word, left);
      forall x | 0 <= x < WIDTH && x / 14 == cell ensures colour[line, x] == CellDot(word, left, x % 14) {
        assert x == 14 * cell + x % 14;
      }
    }

    /** Cell `cell` before its turn: the left dot is up to date, and the cache entry still holds the
        old word unless the left dot has changed and cleared it. */
    ghost predicate Pending(line: int, cell: int, ws: Words, nw: Words)
      requires Shaped() && 0 <= line < LINES && 0 <= cell < CELLS
      reads this, cache, previous
    {
      && previous[line, 2 * cell] == LeftDot(nw, cell)
      && cache[line, 2 * cell] == if LeftDot(nw, cell) == LeftDot(ws, cell) then ws[cell] else -1
    }

    /** One round of the column loop. */
    method RenderCell(line: int, cell: int, word: nat, ghost ws: Words, ghost nw: Words)
      requires Shaped() && 0 <= line < LINES && 0 <= cell < CELLS && word == nw[cell]
      requires Pending(line, cell, ws, nw) && (cell + 1 < CELLS ==> CellKnown(line, cell + 1, ws))
      modifies colour, cache, previous
      ensures RowOf(line) == if old(Redraws(line, cell, word)) then PaintCell(old(RowOf(line)), cell, word, LeftDot(nw, cell))
                             else old(RowOf(line))
      ensures forall l :: 0 <= l < LINES && l != line ==> RowOf(l) == old(RowOf(l))
      ensures CellKnown(line, cell, nw) && (cell + 1 < CELLS ==> Pending(line, cell + 1, ws, nw))
      ensures forall l, i :: 0 <= l < LINES && 0 <= i < 40 && !(l == line && (i == 2 * cell || i == 2 * cell + 2)) ==>
                cache[l, i] == old(cache[l, i]) && previous[l, i] == old(previous[l, i])
    {
      var col := 2 * cell;
      if cache[line, col] != word || flashCycle == 0 {
        var pbit := DrawCell(line, cell, word, previous[line, col]);
        cache[line, col] := word;
        if col < 37 && previous[line, col + 2] != pbit {
          previous[line, col + 2] := pbit;
          cache[line, col + 2] := -1;
        }
      }
    }

    ghost predicate Redraws(line: int, cell: int, word: nat)
      requires Shaped() && 0 <= line < LINES && 0 <= cell < CELLS
      reads this, cache
    {
      cache[line, 2 * cell] != word || flashCycle == 0
    }

    lemma RedrawsAsSpecified(line: int, cell: int, ws: Words, nw: Words)
      requires Shaped() && 0 <= line < LINES && 0 <= cell < CELLS && Pending(line, cell, ws, nw)
      ensures Redraws(line, cell, nw[cell]) <==> Redrawn(ws, nw, flashCycle, cell)
    {
    }

    /** The line with `cell` cells done: those know the new words, the next is pending, the rest know
        the old ones, and the dots are those of a partial repaint. */
    ghost predicate Progress(line: int, cell: int, ws: Words, nw: Words, row: Row)
      requires Shaped() && 0 <= line < LINES && 0 <= cell <= CELLS
      reads this, colour, cache, previous
    {
      && (forall i :: 0 <= i < cell ==> CellKnown(line, i, nw))
      && (cell < CELLS ==> Pending(line, cell, ws, nw))
      && (forall i :: cell < i < CELLS ==> CellKnown(line, i, ws))
      && RowOf(line) == RepaintUpTo(row, ws, nw, flashCycle, cell)
    }

    method AdvanceCell(line: int, cell: int, word: nat, ghost ws: Words, ghost nw: Words, ghost row: Row)
      requires Shaped() && 0 <= line < LINES && 0 <= cell < CELLS && word == nw[cell]
      requires Progress(line, cell, ws, nw, row)
      modifies colour, cache, previous
      ensures Progress(line, cell + 1, ws, nw, row)
      ensures forall l :: 0 <= l < LINES && l != line ==> RowOf(l) == old(RowOf(l))
      ensures forall l, i :: 0 <= l < LINES && 0 <= i < 40 && l != line ==>
                cache[l, i] == old(cache[l, i]) && previous[l, i] == old(previous[l, i])
    {
      RepaintStep(row, ws, nw, flashCycle, cell);
      RedrawsAsSpecified(line, cell, ws, nw);
      RenderCell(line, cell, word, ws, nw);
      forall i | 0 <= i < cell ensures CellKnown(line, i, nw) {
        assert old(CellKnown(line, i, nw));
      }
      forall i | cell + 1 < i < CELLS ensures CellKnown(line, i, ws) {
        assert old(CellKnown(line, i, ws));
      }
    }

    /** The two bytes of a cell, second byte first. */
    method ReadWord(ram: Ram, page: int, line: int, cell: int) returns (word: nat)
      requires 1 <= page <= 2 && 0 <= line < LINES && 0 <= cell < CELLS
      ensures word == CellWord(ram, page, line, cell)
    {
      var address: int := page * 0x2000 + LineOffset(line) + 2 * cell;
      var high, low: int := ram[address + 1], ram[address];
      word := 256 * (high as int) + low;
    }

    method RenderNext(ram: Ram, page: int, line: int, cell: int, ghost ws: Words, ghost row: Row)
      requires Shaped() && 1 <= page <= 2 && 0 <= line < LINES && 0 <= cell < CELLS
      requires Progress(line, cell, ws, LineWords(ram, page, line), row)
      modifies colour, cache, previous
      ensures Progress(line, cell + 1, ws, LineWords(ram, page, line), row)
      ensures forall l :: 0 <= l < LINES && l != line ==> RowOf(l) == old(RowOf(l))
      ensures forall l, i :: 0 <= l < LINES && 0 <= i < 40 && l != line ==>
                cache[l, i] == old(cache[l, i]) && previous[l, i] == old(previous[l, i])
    {
      var word := ReadWord(ram, page, line, cell);
      AdvanceCell(line, cell, word, ws, LineWords(ram, page, line), row);
    }

    /** The column loop of one line. */
    method RenderCells(ram: Ram, page: int, line: int, ghost ws: Words)
      requires Shaped() && 0 <= line < LINES && LineKnown(line, ws) && 1 <= page <= 2
      modifies colour, cache, previous
      ensures LineKnown(line, LineWords(ram, page, line))
      ensures RowOf(line) == RepaintUpTo(old(RowOf(line)), ws, LineWords(ram, page, line), flashCycle, CELLS)
      ensures forall l :: 0 <= l < LINES && l != line ==> RowOf(l) == old(RowOf(l))
      ensures forall l, i :: 0 <= l < LINES && 0 <= i < 40 && l != line ==>
                cache[l, i] == old(cache[l, i]) && previous[l, i] == old(previous[l, i])
    {
      ghost var nw := LineWords(ram, page, line);
      ghost var row := RowOf(line);
      assert CellKnown(line, 0, ws);
      var cell := 0;
      while cell < CELLS
        invariant 0 <= cell <= CELLS && Progress(line, cell, ws, nw, row)
        invariant forall l :: 0 <= l < LINES && l != line ==> RowOf(l) == old(RowOf(l))
        invariant forall l, i :: 0 <= l < LINES && 0 <= i < 40 && l != line ==>
                    cache[l, i] == old(cache[l, i]) && previous[l, i] == old(previous[l, i])
      {
        RenderNext(ram, page, line, cell, ws, row);
        cell := cell + 1;
      }
    }

    /** One line: exactly the cells that `Redrawn` names are painted, and the cache follows. */
    method RenderLine(ram: Ram, page: int, line: int)
      requires Valid() && 1 <= page <= 2 && 0 <= line < LINES
      modifies colour, cache, previous, this`shown
      ensures Valid() && shown == old(shown)[line := LineWords(ram, page, line)]
      ensures RowOf(line) == RepaintUpTo(old(RowOf(line)), old(shown)[line], shown[line], flashCycle, CELLS)
      ensures forall l :: 0 <= l < LINES && l != line ==> RowOf(l) == old(RowOf(l))
    {
      RenderCells(ram, page, line, shown[line]);
      label Drawn:
      shown := shown[line := LineWords(ram, page, line)];
      forall l | 0 <= l < LINES ensures LineKnown(l, shown[l]) {
        forall i | 0 <= i < CELLS ensures CellKnown(l, i, shown[l]) {
          if l == line {
            assert old@Drawn(CellKnown(l, i, LineWords(ram, page, line)));
          } else {
            assert old(LineKnown(l, shown[l]));
            assert old(CellKnown(l, i, shown[l]));
          }
        }
      }
    }

    /** `++flashCycle`, back to 0 at 30. */
    method Tick()
      requires Valid()
      modifies this`flashCycle
      ensures Valid() && flashCycle == (old(flashCycle) + 1) % 30
      ensures forall l :: 0 <= l < LINES ==> RowOf(l) == old(RowOf(l))
    {
      flashCycle := flashCycle + 1;
      if flashCycle == 30 {
        flashCycle := 0;
      }
      forall l | 0 <= l < LINES ensures LineKnown(l, shown[l]) {
        assert old(LineKnown(l, shown[l]));
        forall i | 0 <= i < CELLS ensures CellKnown(l, i, shown[l]) {
          assert old(CellKnown(l, i, shown[l]));
        }
      }
    }

    /** Line `l` after a frame over the first `rows` lines, given what it was before. */
    ghost predicate LineRendered(l: int, rows: int, ram: Ram, page: int, flash: nat, row: Row, ws: Words)
      requires Shaped() && 0 <= l < LINES && 1 <= page <= 2
      reads this, colour
    {
      if l < rows then
        shown[l] == LineWords(ram, page, l) && RowOf(l) == RepaintUpTo(row, ws, LineWords(ram, page, l), flash, CELLS)
      else
        shown[l] == ws && RowOf(l) == row
    }

    ghost function Screen(): (s: seq<Row>)
      requires Shaped()
      reads this, colour
      ensures |s| == LINES
    {
      seq(LINES, l requires 0 <= l < LINES && Shaped() reads this, colour => RowOf(l))
    }

    /** The hi-res part of a frame over the first `rows` lines: 192, or 160 above four lines of text. */
    method RenderHiRes(ram: Ram, page: int, rows: int)
      requires Valid() && 1 <= page <= 2 && 0 <= rows <= LINES
      modifies this`shown, colour, cache, previous
      ensures Valid()
      ensures forall l :: 0 <= l < LINES ==>
                LineRendered(l, rows, ram, page, flashCycle, old(Screen())[l], old(shown)[l])
    {
      ghost var screen, words := Screen(), shown;
      var line := 0;
      while line < rows
        invariant 0 <= line <= rows && Valid()
        invariant forall l :: 0 <= l < LINES ==> LineRendered(l, line, ram, page, flashCycle, screen[l], words[l])
      {
        label Before:
        assert LineRendered(line, line, ram, page, flashCycle, screen[line], words[line]);
        RenderLine(ram, page, line);
        forall l | 0 <= l < LINES ensures LineRendered(l, line + 1, ram, page, flashCycle, screen[l], words[l]) {
          assert old@Before(LineRendered(l, line, ram, page, flashCycle, screen[l], words[l]));
        }
        line := line + 1;
      }
    }

    /** What text and lo-res modes draw, from line `from` on; the hi-res cache is left alone. */
    method Overdraw(over: seq<Row>, from: int)
      requires Valid() && |over| == LINES && 0 <= from <= LINES
      modifies colour
      ensures Valid()
      ensures forall l :: 0 <= l < LINES ==> RowOf(l) == if l < from then old(RowOf(l)) else over[l]
    {
      DrawOver(over, from);
      forall l | 0 <= l < LINES ensures LineKnown(l, shown[l]) {
        assert old(LineKnown(l, shown[l]));
        forall i | 0 <= i < CELLS ensures CellKnown(l, i, shown[l]) {
          assert old(CellKnown(l, i, shown[l]));
        }
      }
    }

    method DrawOver(over: seq<Row>, from: int)
      requires Shaped() && |over| == LINES && 0 <= from <= LINES
      modifies colour
      ensures forall l :: 0 <= l < LINES ==> RowOf(l) == if l < from then old(RowOf(l)) else over[l]
    {
      forall l, x | from <= l < LINES && 0 <= x < WIDTH {
        colour[l, x] := over[l][x];
      }
    }

    /** `ad_Render`: hi-res lines if the mode has any, then what the mode draws below them. */
    method RenderFrame(f: Frame)
      requires Valid() && f.Proper()
      modifies this, colour, cache, previous
      ensures Valid()
      ensures Display(shown, Screen(), flashCycle) == StepFrame(Display(old(shown), old(Screen()), old(flashCycle)), f)
    {
      ghost var d := Display(shown, Screen(), flashCycle);
      RenderTop(f, d);
      if !f.HiResFrame? {
        Overdraw(f.over, f.Rows());
      }
      Tick();
      SteppedDisplay(d, f, Display(shown, Screen(), flashCycle));
    }

    /** The hi-res lines of a frame. */
    method RenderTop(f: Frame, ghost d: Display)
      requires Valid() && f.Proper() && d == Display(shown, Screen(), flashCycle)
      modifies this`shown, colour, cache, previous
      ensures Valid()
      ensures forall l :: 0 <= l < LINES ==> shown[l] == StepWords(d, f, l) && (f.Draws(l) ==> RowOf(l) == StepRow(d, f, l))
    {
      if !f.OtherFrame? {
        RenderHiRes(f.ram, f.page, f.Rows());
        forall l | 0 <= l < LINES ensures shown[l] == StepWords(d, f, l) && (f.Draws(l) ==> RowOf(l) == StepRow(d, f, l)) {
          assert LineRendered(l, f.Rows(), f.ram, f.page, d.flash, d.screen[l], d.shown[l]);
        }
      }
    }
  }

  // ----- Runs of frames

  /** A frame of one mode: full-screen hi-res, hi-res above four lines of text, or neither. What text
      and lo-res modes draw is any picture. */
  datatype Frame =
    | HiResFrame(ram: Ram, page: int)
    | MixedFrame(ram: Ram, page: int, over: seq<Row>)
    | OtherFrame(over: seq<Row>)
  {
    predicate Proper() {
      (OtherFrame? || 1 <= page <= 2) && (HiResFrame? || |over| == LINES)
    }

    function Rows(): (n: int) {
      match this
      case HiResFrame(_, _) => LINES
      case MixedFrame(_, _, _) => MIXED_LINES
      case OtherFrame(_) => 0
    }

    predicate Draws(l: int) {
      0 <= l < Rows()
    }
  }

  datatype Display = Display(shown: seq<Words>, screen: seq<Row>, flash: nat) {
    predicate Proper() {
      |shown| == |screen| == LINES && flash < 30
    }
  }

  function StepWords(d: Display, f: Frame, l: int): (ws: Words)
    requires d.Proper() && f.Proper() && 0 <= l < LINES
  {
    if f.Draws(l) then LineWords(f.ram, f.page, l) else d.shown[l]
  }

  function StepRow(d: Display, f: Frame, l: int): (r: Row)
    requires d.Proper() && f.Proper() && 0 <= l < LINES
  {
    if f.Draws(l) then RepaintUpTo(d.screen[l], d.shown[l], LineWords(f.ram, f.page, l), d.flash, CELLS) else f.over[l]
  }

  function StepFrame(d: Display, f: Frame): (d': Display)
    requires d.Proper() && f.Proper()
    ensures d'.Proper()
  {
    Display(seq(LINES, l requires 0 <= l < LINES => StepWords(d, f, l)),
            seq(LINES, l requires 0 <= l < LINES => StepRow(d, f, l)),
            (d.flash + 1) % 30)
  }

  lemma SteppedDisplay(d: Display, f: Frame, d': Display)
    requires d.Proper() && f.Proper() && d'.Proper() && d'.flash == (d.flash + 1) % 30
    requires forall l :: 0 <= l < LINES ==> d'.shown[l] == StepWords(d, f, l) && d'.screen[l] == StepRow(d, f, l)
    ensures d' == StepFrame(d, f)
  {
  }

  ghost predicate AllProper(frames: seq<Frame>) {
    forall i :: 0 <= i < |frames| ==> frames[i].Proper()
  }

  function RunFrames(d: Display, frames: seq<Frame>): (d': Display)
    requires d.Proper() && forall i :: 0 <= i < |frames| ==> frames[i].Proper()
    ensures d'.Proper()
    decreases |frames|
  {
    if frames == [] then d else StepFrame(RunFrames(d, frames[..|frames| - 1]), frames[|frames| - 1])
  }

  /** Line `l` is what a full redraw of the words in the cache would give. */
  ghost predicate Settled(d: Display, l: int)
    requires d.Proper() && 0 <= l < LINES
  {
    d.screen[l] == Paint(d.shown[l])
  }

  /** A frame that draws line `l` in hi-res with `flash` 0, or when the line is settled, shows exactly
      the video memory there. */
  lemma FrameSettles(d: Display, f: Frame, l: int)
    requires d.Proper() && f.Proper() && f.Draws(l) && (d.flash == 0 || Settled(d, l))
    ensures var d' := StepFrame(d, f); Settled(d', l) && d'.screen[l] == FullLine(f.ram, f.page, l)
  {
    RepaintIsPaint(d.screen[l], d.shown[l], LineWords(f.ram, f.page, l), d.flash);
    PaintIsFullLine(f.ram, f.page, l);
  }

  /** Otherwise a line comes out right exactly when the cells that are not redrawn were right. */
  lemma StaleExactly(row: Row, ws: Words, nw: Words, flash: nat)
    ensures RepaintUpTo(row, ws, nw, flash, CELLS) == Paint(nw) <==>
            forall x :: 0 <= x < WIDTH && !Redrawn(ws, nw, flash, x / 14) ==> row[x] == Paint(ws)[x]
  {
    var r := RepaintUpTo(row, ws, nw, flash, CELLS);
    forall x | 0 <= x < WIDTH
      ensures r[x] == Paint(nw)[x] <==> (!Redrawn(ws, nw, flash, x / 14) ==> row[x] == Paint(ws)[x])
    {
    }
  }

  lemma RunStep(d: Display, front: seq<Frame>, last: Frame)
    requires d.Proper() && AllProper(front) && last.Proper()
    ensures AllProper(front + [last]) && RunFrames(d, front + [last]) == StepFrame(RunFrames(d, front), last)
  {
    assert (front + [last])[..|front|] == front;
  }

  lemma BlankDot(ram: Ram)
    requires ram == seq(LanguageCard.RAM_SIZE, _ => 0)
    ensures FullLine(ram, 1, 0)[0] == 0
  {
    ZeroBits(0);
    ZeroBits(7);
  }

  /** A dot of a cell that has not changed stays as it is. */
  lemma StaleDot(d: Display, ram: Ram)
    requires d.Proper() && d.flash != 0 && d.shown[0] == LineWords(ram, 1, 0)
    ensures StepFrame(d, HiResFrame(ram, 1)).screen[0][0] == d.screen[0][0]
  {
    StepAt(d, HiResFrame(ram, 1), 0);
  }

  /** So a mode switch shows: after blank hi-res frames with a screenful of something else between
      them, the first dot keeps what the other mode drew. */
  lemma StaleAfterSwitch(ram: Ram, other: seq<Row>)
    requires ram == seq(LanguageCard.RAM_SIZE, _ => 0) && |other| == LINES && other[0][0] == 15
    ensures var blank := Display(seq(LINES, _ => seq(CELLS, _ => 0)), seq(LINES, _ => seq(WIDTH, _ => 0)), 0);
            var d := RunFrames(blank, [HiResFrame(ram, 1), OtherFrame(other), HiResFrame(ram, 1)]);
            d.screen[0][0] == 15 && FullLine(ram, 1, 0)[0] == 0
  {
    var blank := Display(seq(LINES, _ => seq(CELLS, _ => 0)), seq(LINES, _ => seq(WIDTH, _ => 0)), 0);
    var hires, text := HiResFrame(ram, 1), OtherFrame(other);
    var two := ShowOver(blank, ram, other);
    StaleDot(two, ram);
    BlankDot(ram);
    RunStep(blank, [hires, text], hires);
    assert [hires, text, hires] == [hires, text] + [hires];
  }

  /** The first two frames. */
  lemma ShowOver(d: Display, ram: Ram, other: seq<Row>) returns (two: Display)
    requires d.Proper() && d.flash == 0 && |other| == LINES
    ensures two == RunFrames(d, [HiResFrame(ram, 1), OtherFrame(other)])
    ensures two.flash == 2 && two.shown[0] == LineWords(ram, 1, 0) && two.screen[0] == other[0]
  {
    var hires, text := HiResFrame(ram, 1), OtherFrame(other);
    TwoFrames(d, hires, text);
    var one := StepFrame(d, hires);
    two := StepFrame(one, text);
    StepAt(d, hires, 0);
    StepAt(one, text, 0);
  }

  lemma OneFrame(d: Display, f: Frame)
    requires d.Proper() && f.Proper()
    ensures RunFrames(d, [f]) == StepFrame(d, f)
  {
    RunStep(d, [], f);
    assert [] + [f] == [f];
  }

  lemma TwoFrames(d: Display, f: Frame, g: Frame)
    requires d.Proper() && f.Proper() && g.Proper()
    ensures RunFrames(d, [f, g]) == StepFrame(StepFrame(d, f), g)
  {
    OneFrame(d, f);
    RunStep(d, [f], g);
    assert [f] + [g] == [f, g];
  }

  lemma StepAt(d: Display, f: Frame, l: int)
    requires d.Proper() && f.Proper() && 0 <= l < LINES
    ensures StepFrame(d, f).shown[l] == StepWords(d, f, l) && StepFrame(d, f).screen[l] == StepRow(d, f, l)
  {
  }

  ghost predicate AllDraw(frames: seq<Frame>, l: int) {
    forall i :: 0 <= i < |frames| ==> frames[i].Draws(l)
  }

  lemma FlashStep(f: nat, n: nat)
    ensures ((f + n) % 30 + 1) % 30 == (f + (n + 1)) % 30
  {
  }

  lemma {:induction false} FlashCounts(d: Display, frames: seq<Frame>)
    requires d.Proper() && AllProper(frames)
    ensures RunFrames(d, frames).flash == (d.flash + |frames|) % 30
    decreases |frames|
  {
    if frames != [] {
      FlashCounts(d, frames[..|frames| - 1]);
      FlashStep(d.flash, |frames| - 1);
    }
  }

  /** How many frames it takes until one is drawn with `flash` 0. */
  function Settling(flash: nat): (n: int) {
    (30 - flash) % 30 + 1
  }

  /** The last of them is drawn with `flash` 0, and none before it. */
  lemma SettlingIs(f: nat, n: nat)
    requires f < 30
    ensures n + 1 == Settling(f) ==> (f + n) % 30 == 0
    ensures n + 1 < Settling(f) ==> (f + n) % 30 != 0
  {
  }

  /** The lines a mode draws in hi-res. */
  lemma DrawsExactly(f: Frame, l: int)
    ensures f.Draws(l) <==> 0 <= l < 192 && (f.HiResFrame? || (f.MixedFrame? && l < 160))
  {
  }

  ghost predicate Shows(d: Display, frames: seq<Frame>, l: int)
    requires d.Proper() && AllProper(frames) && 0 <= l < LINES && AllDraw(frames, l) && frames != []
  {
    var last, d' := frames[|frames| - 1], RunFrames(d, frames);
    Settled(d', l) && d'.screen[l] == FullLine(last.ram, last.page, l)
  }

  lemma LastShows(d: Display, front: seq<Frame>, last: Frame, l: int)
    requires d.Proper() && AllProper(front) && last.Proper() && last.Draws(l) && AllDraw(front, l)
    requires var e := RunFrames(d, front); e.flash == 0 || Settled(e, l)
    ensures AllProper(front + [last]) && Shows(d, front + [last], l)
  {
    RunStep(d, front, last);
    FrameSettles(RunFrames(d, front), last, l);
  }

  /** From any screen, at most 30 frames in a row that draw line `l` settle it; from then on it stays
      settled, also from mixed to full-screen frames and back. */
  lemma {:induction false} FramesSettle(d: Display, frames: seq<Frame>, l: int)
    requires d.Proper() && AllProper(frames) && 0 <= l < LINES && AllDraw(frames, l) && frames != []
    requires Settled(d, l) || |frames| >= Settling(d.flash)
    ensures Shows(d, frames, l)
    decreases |frames|, 1
  {
    var front, last := frames[..|frames| - 1], frames[|frames| - 1];
    assert frames == front + [last];
    FrontReady(d, front, l);
    LastShows(d, front, last, l);
  }

  lemma {:induction false} FrontReady(d: Display, front: seq<Frame>, l: int)
    requires d.Proper() && AllProper(front) && 0 <= l < LINES && AllDraw(front, l)
    requires Settled(d, l) || |front| + 1 >= Settling(d.flash)
    ensures RunFrames(d, front).flash == 0 || Settled(RunFrames(d, front), l)
    decreases |front| + 1, 0
  {
    if !Settled(d, l) && |front| + 1 == Settling(d.flash) {
      SettlingIs(d.flash, |front|);
      FlashCounts(d, front);
    } else if front != [] {
      FramesSettle(d, front, l);
    }
  }

  /** After any run of frames, if the latest frames that draw line `l` in hi-res are enough to include
      one drawn with `flash` 0, the line is an uncached redraw of the video memory now shown. */
  lemma RunShowsMemory(d: Display, before: seq<Frame>, frames: seq<Frame>, l: int)
    requires d.Proper() && AllProper(before) && AllProper(frames) && 0 <= l < LINES && AllDraw(frames, l)
    requires |frames| >= Settling(RunFrames(d, before).flash)
    ensures AllProper(before + frames)
    ensures var last := frames[|frames| - 1]; RunFrames(d, before + frames).screen[l] == FullLine(last.ram, last.page, l)
  {
    RunsCompose(d, before, frames);
    FramesSettle(RunFrames(d, before), frames, l);
  }

  lemma {:induction false} RunsCompose(d: Display, f: seq<Frame>, g: seq<Frame>)
    requires d.Proper() && AllProper(f) && AllProper(g)
    ensures AllProper(f + g) && RunFrames(d, f + g) == RunFrames(RunFrames(d, f), g)
    decreases |g|
  {
    if g == [] {
      assert f + g == f;
    } else {
      RunsCompose(d, f, g[..|g| - 1]);
      assert (f + g)[..|f + g| - 1] == f + g[..|g| - 1];
    }
  }

  /** The renderer follows the display through every run of frames. */
  method Play(r: Renderer, frames: seq<Frame>)
    requires r.Valid() && AllProper(frames)
    modifies r, r.colour, r.cache, r.previous
    ensures r.Valid()
    ensures Display(r.shown, r.Screen(), r.flashCycle) ==
            RunFrames(Display(old(r.shown), old(r.Screen()), old(r.flashCycle)), frames)
  {
    ghost var d := Display(r.shown, r.Screen(), r.flashCycle);
    var i := 0;
    while i < |frames|
      invariant 0 <= i <= |frames| && r.Valid()
      invariant Display(r.shown, r.Screen(), r.flashCycle) == RunFrames(d, frames[..i])
    {
      assert frames[..i + 1][..i] == frames[..i];
      assert frames[i].Proper();
      r.RenderFrame(frames[i]);
      i := i + 1;
    }
    assert frames[..i] == frames;
  }
}
