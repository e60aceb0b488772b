/** The Apple II memory of AppleMem.c: five stores behind one address space, and the language-card
    switches of AppleDevice.c that select among them. */
module LanguageCard {

  import opened Bytes

  // ----- The switches

  datatype Switches = Switches(writable: bool, readable: bool, bank2: bool, preWrite: bool)

  const RESET := Switches(true, false, true, false)

  /** An access to $C080 + `n`. */
  type SwitchNumber = n: int | 0 <= n < 16

  datatype LcAccess = LcAccess(n: SwitchNumber, wrt: bool) {
    predicate Even() {
      n % 2 == 0
    }
  }

  /** The language-card cases of `ad_SoftSwitch`; the odd switches arm and then enable writing. */
  function Touch(sw: Switches, a: LcAccess): (sw': Switches) {
    match a.n
    case 0 => Switches(false, true, true, false)
    case 4 => Switches(false, true, true, false)
    case 1 => Switches(sw.writable || sw.preWrite, false, true, !a.wrt)
    case 5 => Switches(sw.writable || sw.preWrite, false, true, !a.wrt)
    case 2 => Switches(false, false, true, false)
    case 6 => Switches(false, false, true, false)
    case 3 => Switches(sw.writable || sw.preWrite, true, true, !a.wrt)
    case 7 => Switches(sw.writable || sw.preWrite, true, true, !a.wrt)
    case 8 => Switches(false, true, false, false)
    case 12 => Switches(false, true, false, false)
    case 9 => Switches(sw.writable || sw.preWrite, false, false, !a.wrt)
    case 13 => Switches(sw.writable || sw.preWrite, false, false, !a.wrt)
    case 10 => Switches(false, false, false, false)
    case 14 => Switches(false, false, false, false)
    case _ => Switches(sw.writable || sw.preWrite, true, false, !a.wrt)
  }

  lemma TouchByParity(sw: Switches, a: LcAccess)
    ensures var sw' := Touch(sw, a);
            && (sw'.writable <==> !a.Even() && (sw.writable || sw.preWrite))
            && (sw'.preWrite <==> !a.Even() && !a.wrt)
            && (sw'.readable <==> a.n % 4 == 0 || a.n % 4 == 3) && (sw'.bank2 <==> a.n < 8)
  {
  }

  function TouchAll(t: seq<LcAccess>): (sw: Switches)
    decreases |t|
  {
    if t == [] then RESET else Touch(TouchAll(t[..|t| - 1]), t[|t| - 1])
  }

  /** From index `i` on only odd switches are touched. */
  ghost predicate OddFrom(t: seq<LcAccess>, i: int) {
    forall k :: 0 <= i <= k < |t| ==> !t[k].Even()
  }

  /** Access `i` reads an odd switch and the next language-card access is to an odd switch, too. */
  ghost predicate Handshake(t: seq<LcAccess>, i: int) {
    0 <= i < |t| - 1 && !t[i].Even() && !t[i].wrt && !t[i + 1].Even()
  }

  /** Since the last even switch, if there was one, writing has been enabled. */
  ghost predicate Enabled(t: seq<LcAccess>) {
    OddFrom(t, 0) || exists i :: Handshake(t, i) && OddFrom(t, i)
  }

  /** The four switches as functions of the whole access history since reset. */
  lemma {:induction false} SwitchHistory(t: seq<LcAccess>)
    ensures TouchAll(t).writable <==> Enabled(t)
    ensures TouchAll(t).preWrite <==> t != [] && !t[|t| - 1].Even() && !t[|t| - 1].wrt
    ensures TouchAll(t).readable <==> t != [] && (t[|t| - 1].n % 4 == 0 || t[|t| - 1].n % 4 == 3)
    ensures TouchAll(t).bank2 <==> t == [] || t[|t| - 1].n < 8
    decreases |t|
  {
    if t != [] {
      var front, last := t[..|t| - 1], t[|t| - 1];
      SwitchHistory(front);
      TouchByParity(TouchAll(front), last);
      if last.Even() {
        EvenDisables(t);
      } else {
        OddMayEnable(t);
      }
    }
  }

  lemma EvenDisables(t: seq<LcAccess>)
    requires t != [] && t[|t| - 1].Even()
    ensures !Enabled(t)
  {
    forall i | 0 <= i < |t| ensures !OddFrom(t, i) {
      assert t[|t| - 1].Even();
    }
  }

  lemma OddMayEnable(t: seq<LcAccess>)
    requires t != [] && !t[|t| - 1].Even()
    ensures var front := t[..|t| - 1];
            Enabled(t) <==> Enabled(front) || (front != [] && !front[|front| - 1].Even() && !front[|front| - 1].wrt)
  {
    var front := t[..|t| - 1];
    forall i | 0 <= i < |t| ensures OddFrom(t, i) <==> OddFrom(front, i) {
      assert forall k :: 0 <= k < |front| ==> t[k] == front[k];
    }
    forall i | 0 <= i < |t| - 2 ensures Handshake(t, i) <==> Handshake(front, i) {
    }
    if exists i :: Handshake(front, i) && OddFrom(front, i) {
      var i :| Handshake(front, i) && OddFrom(front, i);
      assert Handshake(t, i) && OddFrom(t, i);
    }
    if exists i :: Handshake(t, i) && OddFrom(t, i) {
      var i :| Handshake(t, i) && OddFrom(t, i);
      assert i == |t| - 2 || (Handshake(front, i) && OddFrom(front, i));
    }
    if front != [] && !front[|front| - 1].Even() && !front[|front| - 1].wrt {
      assert Handshake(t, |t| - 2) && OddFrom(t, |t| - 2);
    }
  }

  // ----- The stores

  const RAM_SIZE := 0xC000
  const ROM_START := 0xD000
  const ROM_SIZE := 0x3000
  const BANK_END := 0xE000
  const BANK_SIZE := 0x1000
  const SLOT6_SIZE := 0x0100

  datatype Store = Ram | Rom | Lgc | Bk2 | Sl6

  /** Where a read of `a` looks, outside the soft switches. */
  function ReadCell(sw: Switches, a: Word): (s: Store)
    requires a < RAM_SIZE || a >= ROM_START
  {
    if a < RAM_SIZE then Ram
    else if !sw.readable then Rom
    else if sw.bank2 && a < BANK_END then Bk2
    else Lgc
  }

  datatype Option<T> = None | Some(value: T)

  /** Where a write to `a` goes, if anywhere. */
  function WriteCell(sw: Switches, a: Word): (s: Option<Store>) {
    if a < RAM_SIZE then Some(Ram)
    else if sw.writable && a >= ROM_START then Some(if sw.bank2 && a < BANK_END then Bk2 else Lgc)
    else None
  }

  function OffsetOf(a: Word): (offset: int) {
    if a < RAM_SIZE then a else a - ROM_START
  }

  function SizeOf(s: Store): (n: int) {
    match s case Ram => RAM_SIZE case Rom => ROM_SIZE case Lgc => ROM_SIZE case Bk2 => BANK_SIZE case Sl6 => SLOT6_SIZE
  }

  /** One byte access of the processor. */
  datatype Access = Access(a: Word, wrt: bool, value: Byte) {
    predicate IsLc() {
      0xC080 <= a < 0xC090
    }

    function Lc(): (l: LcAccess)
      requires IsLc()
    {
      LcAccess(a - 0xC080, wrt)
    }
  }

  /** The language-card accesses of a trace, in order. */
  function LcTrace(t: seq<Access>): (l: seq<LcAccess>)
    decreases |t|
  {
    if t == [] then []
    else
      var last := t[|t| - 1];
      LcTrace(t[..|t| - 1]) + if last.IsLc() then [last.Lc()] else []
  }

  /** The store that access `i` of a trace since reset writes to, judged by the history before it. */
  function Accepted(t: seq<Access>, i: nat): (s: Option<Store>)
    requires i < |t|
  {
    if t[i].wrt then WriteCell(TouchAll(LcTrace(t[..i])), t[i].a) else None
  }

  /** Access `i` is a write accepted into byte `offset` of store `s`. */
  ghost predicate Hits(t: seq<Access>, i: nat, s: Store, offset: int)
    requires i < |t|
  {
    Accepted(t, i) == Some(s) && OffsetOf(t[i].a) == offset
  }

  ghost predicate Latest(t: seq<Access>, i: nat, s: Store, offset: int) {
    i < |t| && Hits(t, i, s, offset) && forall k :: i < k < |t| ==> !Hits(t, k, s, offset)
  }

  ghost predicate Untouched(t: seq<Access>, s: Store, offset: int) {
    forall k :: 0 <= k < |t| ==> !Hits(t, k, s, offset)
  }

  /** The byte at `offset` of store `s` after a trace that started from `initial`. */
  ghost function Content(t: seq<Access>, s: Store, offset: int, initial: Byte): (b: Byte)
    decreases |t|
  {
    if t == [] then initial
    else if Hits(t, |t| - 1, s, offset) then t[|t| - 1].value
    else Content(t[..|t| - 1], s, offset, initial)
  }

  lemma HitsInPrefix(t: seq<Access>, n: nat, i: nat, s: Store, offset: int)
    requires i < n <= |t|
    ensures Hits(t[..n], i, s, offset) <==> Hits(t, i, s, offset)
  {
    assert t[..n][..i] == t[..i];
  }

  lemma LatestExtends(t: seq<Access>, i: nat, s: Store, offset: int)
    requires t != [] && !Hits(t, |t| - 1, s, offset)
    ensures Latest(t[..|t| - 1], i, s, offset) ==> Latest(t, i, s, offset)
    ensures Untouched(t[..|t| - 1], s, offset) ==> Untouched(t, s, offset)
  {
    forall k | 0 <= k < |t| - 1 ensures Hits(t[..|t| - 1], k, s, offset) <==> Hits(t, k, s, offset) {
      HitsInPrefix(t, |t| - 1, k, s, offset);
    }
  }

  /** A store holds, at every byte, the latest write accepted there, or what it held at the start. */
  lemma {:induction false} ContentIsLatest(t: seq<Access>, s: Store, offset: int, initial: Byte)
    ensures if Untouched(t, s, offset) then Content(t, s, offset, initial) == initial
            else exists i :: 0 <= i < |t| && Latest(t, i, s, offset) && Content(t, s, offset, initial) == t[i].value
    decreases |t|
  {
    if t != [] {
      if Hits(t, |t| - 1, s, offset) {
        assert Latest(t, |t| - 1, s, offset);
      } else {
        var front := t[..|t| - 1];
        ContentIsLatest(front, s, offset, initial);
        LatestExtends(t, 0, s, offset);
        if !Untouched(front, s, offset) {
          var i :| 0 <= i < |front| && Latest(front, i, s, offset) && Content(front, s, offset, initial) == front[i].value;
          LatestExtends(t, i, s, offset);
        }
      }
    }
  }

  /** Neither the ROM nor the disk controller's PROM is ever written. */
  lemma {:induction false} RomIsConstant(t: seq<Access>, s: Store, offset: int, initial: Byte)
    requires s == Rom || s == Sl6
    ensures Content(t, s, offset, initial) == initial
    decreases |t|
  {
    if t != [] {
      RomIsConstant(t[..|t| - 1], s, offset, initial);
    }
  }

  /** While the other bank is selected for writing, a bank keeps what it holds: it vanishes from
      $D000-$DFFF and is there again when the bank is selected again. */
  lemma {:induction false} BankKeeps(t: seq<Access>, u: seq<Access>, s: Store, offset: int, initial: Byte)
    requires s == Bk2 || s == Lgc
    requires forall i :: |t| <= i < |t + u| ==> !Hits(t + u, i, s, offset)
    ensures Content(t + u, s, offset, initial) == Content(t, s, offset, initial)
    decreases |u|
  {
    if u == [] {
      assert t + u == t;
    } else {
      var front := u[..|u| - 1];
      assert (t + u)[..|t + u| - 1] == t + front;
      forall i | |t| <= i < |t + front| ensures !Hits(t + front, i, s, offset) {
        HitsInPrefix(t + u, |t + u| - 1, i, s, offset);
      }
      BankKeeps(t, front, s, offset, initial);
    }
  }

  /** Whole stores after a trace. */
  ghost function Image(t: seq<Access>, s: Store, initial: seq<Byte>): (r: seq<Byte>)
    ensures |r| == |initial|
  {
    seq(|initial|, o requires 0 <= o < |initial| => Content(t, s, o, initial[o]))
  }

  lemma ContentStep(t: seq<Access>, i: nat, s: Store, o: int, initial: Byte)
    requires i < |t|
    ensures Content(t[..i + 1], s, o, initial) == if Hits(t, i, s, o) then t[i].value else Content(t[..i], s, o, initial)
  {
    assert t[..i + 1][..i] == t[..i];
    HitsInPrefix(t, i + 1, i, s, o);
  }

  lemma ImageStep(t: seq<Access>, i: nat, s: Store, initial: seq<Byte>, target: Option<Store>)
    requires i < |t| && |initial| == SizeOf(s) && Accepted(t, i) == target
    ensures target == Some(s) ==>
              0 <= OffsetOf(t[i].a) < |initial| &&
              Image(t[..i + 1], s, initial) == Image(t[..i], s, initial)[OffsetOf(t[i].a) := t[i].value]
    ensures target != Some(s) ==> Image(t[..i + 1], s, initial) == Image(t[..i], s, initial)
  {
    forall o | 0 <= o < |initial|
      ensures Content(t[..i + 1], s, o, initial[o]) ==
              if target == Some(s) && OffsetOf(t[i].a) == o then t[i].value else Content(t[..i], s, o, initial[o])
    {
      ContentStep(t, i, s, o, initial[o]);
    }
  }

  // ----- The memory object

  class AppleMemory {
    const ram: array<Byte>
    const rom: array<Byte>
    const lgc: array<Byte>
    const bk2: array<Byte>
    const sl6: array<Byte>
    var writable: bool
    var readable: bool
    var bank2: bool
    var preWrite: bool

    ghost predicate Valid()
      reads this
    {
      && ram.Length == RAM_SIZE && rom.Length == ROM_SIZE && lgc.Length == ROM_SIZE
      && bk2.Length == BANK_SIZE && sl6.Length == SLOT6_SIZE
      && rom != lgc
    }

    function Sw(): (sw: Switches)
      reads this
    {
      Switches(writable, readable, bank2, preWrite)
    }

    function Stored(s: Store, offset: int): (b: Byte)
      requires Valid() && 0 <= offset < SizeOf(s)
      reads this, ram, rom, lgc, bk2, sl6
    {
      match s
      case Ram => ram[offset]
      case Rom => rom[offset]
      case Lgc => lgc[offset]
      case Bk2 => bk2[offset]
      case Sl6 => sl6[offset]
    }

    /** The byte seen at `a` through the switches as they stand. */
    function Peek(a: Word): (b: Byte)
      requires Valid() && (a < RAM_SIZE || a >= ROM_START)
      reads this, ram, rom, lgc, bk2, sl6
    {
      Stored(ReadCell(Sw(), a), OffsetOf(a))
    }

    constructor ()
      ensures Valid() && Sw() == RESET
      ensures fresh(ram) && fresh(rom) && fresh(lgc) && fresh(bk2) && fresh(sl6)
      ensures forall s, offset :: 0 <= offset < SizeOf(s) ==> Stored(s, offset) == 0
    {
      ram, rom, lgc := new Byte[RAM_SIZE](_ => 0), new Byte[ROM_SIZE](_ => 0), new Byte[ROM_SIZE](_ => 0);
      bk2, sl6 := new Byte[BANK_SIZE](_ => 0), new Byte[SLOT6_SIZE](_ => 0);
      writable, readable, bank2, preWrite := true, false, true, false;
    }

    /** `mem_Reset` */
    method Reset()
      requires Valid()
      modifies this, ram, rom, lgc, bk2, sl6
      ensures Valid() && Sw() == RESET
      ensures forall i :: 0 <= i < RAM_SIZE ==> ram[i] == 0
      ensures forall i :: 0 <= i < ROM_SIZE ==> rom[i] == 0 && lgc[i] == 0
      ensures forall i :: 0 <= i < BANK_SIZE ==> bk2[i] == 0
      ensures forall i :: 0 <= i < SLOT6_SIZE ==> sl6[i] == 0
    {
      writable, readable, bank2, preWrite := true, false, true, false;
      Clear(ram);
      Clear(rom);
      Clear(lgc);
      Clear(bk2);
      Clear(sl6);
    }

    static method Clear(store: array<Byte>)
      modifies store
      ensures forall i :: 0 <= i < store.Length ==> store[i] == 0
    {
      forall i | 0 <= i < store.Length {
        store[i] := 0;
      }
    }

    /** The language-card part of `ad_SoftSwitch`; `io` is what the device addressed answers. */
    method SoftSwitch(a: Word, wrt: bool, io: Byte) returns (b: Byte)
      modifies this
      ensures Sw() == if 0xC080 <= a < 0xC090 then Touch(old(Sw()), LcAccess(a - 0xC080, wrt)) else old(Sw())
      ensures b == io
    {
      b := io;
      if 0xC080 <= a < 0xC090 {
        var n := a - 0xC080;
        bank2 := n < 8;
        readable := n % 4 == 0 || n % 4 == 3;
        if n % 2 == 0 {
          writable, preWrite := false, false;
        } else {
          writable := writable || preWrite;
          preWrite := !wrt;
        }
        TouchByParity(old(Sw()), LcAccess(n, wrt));
      }
    }

    method ReadByte(a: Word, io: Byte) returns (b: Byte)
      requires Valid()
      modifies this
      ensures Sw() == if 0xC080 <= a < 0xC090 then Touch(old(Sw()), LcAccess(a - 0xC080, false)) else old(Sw())
      ensures a < RAM_SIZE || a >= ROM_START ==> b == old(Peek(a))
      ensures RAM_SIZE <= a < ROM_START ==> b == if 0xC600 <= a < 0xC700 then sl6[a - 0xC600] else io
    {
      if a < RAM_SIZE {
        return ram[a];
      }
      if a >= ROM_START {
        if !readable {
          return rom[a - ROM_START];
        }
        if bank2 && a < BANK_END {
          return bk2[a - ROM_START];
        }
        return lgc[a - ROM_START];
      }
      if a / 256 == 0xC6 {
        return sl6[a - 0xC600];
      }
      b := SoftSwitch(a, false, io);
    }

    method WriteByte(a: Word, value: Byte)
      requires Valid()
      modifies this, ram, lgc, bk2
      ensures Valid()
      ensures Sw() == if 0xC080 <= a < 0xC090 then Touch(old(Sw()), LcAccess(a - 0xC080, true)) else old(Sw())
      ensures ram[..] == if WriteCell(old(Sw()), a) == Some(Ram) then old(ram[..])[a := value] else old(ram[..])
      ensures lgc[..] == if WriteCell(old(Sw()), a) == Some(Lgc) then old(lgc[..])[a - ROM_START := value] else old(lgc[..])
      ensures bk2[..] == if WriteCell(old(Sw()), a) == Some(Bk2) then old(bk2[..])[a - ROM_START := value] else old(bk2[..])
    {
      if a < RAM_SIZE {
        ram[a] := value;
        return;
      }
      if writable && a >= ROM_START {
        if bank2 && a < BANK_END {
          bk2[a - ROM_START] := value;
          return;
        }
        lgc[a - ROM_START] := value;
        return;
      }
      if a < ROM_START {
        var b := SoftSwitch(a, true, 0);
      }
    }
  }

  /** Every store after any trace of accesses is its image under the accepted writes, and the
      switches are those of the language-card history. */
  method RunTrace(m: AppleMemory, t: seq<Access>)
    requires m.Valid() && m.Sw() == RESET
    modifies m, m.ram, m.lgc, m.bk2
    ensures m.Valid() && m.Sw() == TouchAll(LcTrace(t))
    ensures m.ram[..] == Image(t, Ram, old(m.ram[..]))
    ensures m.lgc[..] == Image(t, Lgc, old(m.lgc[..]))
    ensures m.bk2[..] == Image(t, Bk2, old(m.bk2[..]))
  {
    var i := 0;
    assert t[..0] == [];
    while i < |t|
      invariant 0 <= i <= |t| && m.Valid() && m.Sw() == TouchAll(LcTrace(t[..i]))
      invariant m.ram[..] == Image(t[..i], Ram, old(m.ram[..]))
      invariant m.lgc[..] == Image(t[..i], Lgc, old(m.lgc[..]))
      invariant m.bk2[..] == Image(t[..i], Bk2, old(m.bk2[..]))
    {
      SwitchStep(t, i);
      ghost var target := Accepted(t, i);
      ImageStep(t, i, Ram, old(m.ram[..]), target);
      ImageStep(t, i, Lgc, old(m.lgc[..]), target);
      ImageStep(t, i, Bk2, old(m.bk2[..]), target);
      if t[i].wrt {
        m.WriteByte(t[i].a, t[i].value);
      } else {
        var b := m.ReadByte(t[i].a, t[i].value);
      }
      i := i + 1;
    }
    assert t[..i] == t;
  }

  /** Outside $C000-$CFFF, a read after any trace returns the latest write that was accepted at that
      address into the store now selected, or what that store held at the start. */
  method ReadAfter(m: AppleMemory, t: seq<Access>, a: Word, io: Byte) returns (b: Byte)
    requires m.Valid() && m.Sw() == RESET && (a < RAM_SIZE || a >= ROM_START)
    modifies m, m.ram, m.lgc, m.bk2
    ensures var s, o := ReadCell(TouchAll(LcTrace(t)), a), OffsetOf(a);
            if Untouched(t, s, o) then b == old(m.Stored(s, o))
            else exists i :: 0 <= i < |t| && Latest(t, i, s, o) && b == t[i].value
  {
    ghost var s, o := ReadCell(TouchAll(LcTrace(t)), a), OffsetOf(a);
    ghost var initial := m.Stored(s, o);
    RunTrace(m, t);
    b := m.ReadByte(a, io);
    assert b == Content(t, s, o, initial) by {
      if s == Rom {
        RomIsConstant(t, s, o, initial);
      }
    }
    ContentIsLatest(t, s, o, initial);
  }

  lemma SwitchStep(t: seq<Access>, i: nat)
    requires i < |t|
    ensures TouchAll(LcTrace(t[..i + 1])) ==
            if t[i].IsLc() then Touch(TouchAll(LcTrace(t[..i])), t[i].Lc()) else TouchAll(LcTrace(t[..i]))
  {
    assert t[..i + 1][..i] == t[..i];
    var l := LcTrace(t[..i]);
    if t[i].IsLc() {
      assert (l + [t[i].Lc()])[..|l|] == l;
    } else {
      assert l + [] == l;
    }
  }

  // ----- What a program sees of the banks, from its language-card accesses

  ghost predicate LastAccess(t: seq<Access>, n: SwitchNumber) {
    LcTrace(t) != [] && LcTrace(t)[|LcTrace(t)| - 1].n == n
  }

  /** RAM, and from $D000 on what the card enables for reading and writing, gives back what was written. */
  method WriteThenRead(m: AppleMemory, t: seq<Access>, a: Word, v: Byte, io: Byte, ghost n: SwitchNumber) returns (b: Byte)
    requires m.Valid() && m.Sw() == RESET
    requires a < 0xC000 || (a >= 0xD000 && LastAccess(t, n) && n % 4 == 3 && Enabled(LcTrace(t)))
    modifies m, m.ram, m.lgc, m.bk2
    ensures b == v
  {
    RunTrace(m, t);
    SwitchHistory(LcTrace(t));
    m.WriteByte(a, v);
    b := m.ReadByte(a, io);
  }

  /** While reading is not enabled, by the last access or for want of one, the ROM shows from $D000 on. */
  method ReadsRom(m: AppleMemory, t: seq<Access>, a: Word, io: Byte, ghost n: SwitchNumber) returns (b: Byte)
    requires m.Valid() && m.Sw() == RESET && a >= 0xD000
    requires LcTrace(t) == [] || (LastAccess(t, n) && (n % 4 == 1 || n % 4 == 2))
    modifies m, m.ram, m.lgc, m.bk2
    ensures b == old(m.rom[a - 0xD000])
  {
    RunTrace(m, t);
    SwitchHistory(LcTrace(t));
    b := m.ReadByte(a, io);
  }

  /** Reading a switch that enables both selects its bank and disables nothing. */
  method Select(m: AppleMemory, n: SwitchNumber)
    requires m.Valid() && n % 4 == 3
    modifies m
    ensures m.Valid() && m.readable && (m.bank2 <==> n < 8) && m.writable == old(m.writable || m.preWrite)
  {
    TouchByParity(m.Sw(), LcAccess(n, false));
    var b := m.ReadByte(0xC080 + n, 0);
  }

  method ReadBank(m: AppleMemory, n: SwitchNumber, a: Word) returns (b: Byte)
    requires m.Valid() && n % 4 == 3 && 0xD000 <= a < 0xE000
    modifies m
    ensures m.Valid() && m.writable == old(m.writable || m.preWrite)
    ensures b == if n < 8 then m.bk2[a - 0xD000] else m.lgc[a - 0xD000]
  {
    Select(m, n);
    b := m.ReadByte(a, 0);
  }

  method WriteBank(m: AppleMemory, n: SwitchNumber, a: Word, v: Byte)
    requires m.Valid() && m.writable && n % 4 == 3 && 0xD000 <= a < 0xE000
    modifies m, m.lgc, m.bk2, m.ram
    ensures m.Valid() && m.writable
    ensures m.bk2[a - 0xD000] == if n < 8 then v else old(m.bk2[a - 0xD000])
    ensures m.lgc[a - 0xD000] == if n < 8 then old(m.lgc[a - 0xD000]) else v
  {
    Select(m, n);
    m.WriteByte(a, v);
    assert m.bk2[a - 0xD000] == m.bk2[..][a - 0xD000] && m.lgc[a - 0xD000] == m.lgc[..][a - 0xD000];
  }

  /** In $D000-$DFFF a write to one bank is not seen while the other is selected, and is back when its
      own is selected again. */
  method BanksApart(m: AppleMemory, t: seq<Access>, a: Word, v: Byte, n: SwitchNumber)
    returns (before: Byte, hidden: Byte, back: Byte)
    requires m.Valid() && m.Sw() == RESET && 0xD000 <= a < 0xE000
    requires LastAccess(t, n) && n % 4 == 3 && Enabled(LcTrace(t))
    modifies m, m.ram, m.lgc, m.bk2
    ensures hidden == before && back == v
  {
    RunTrace(m, t);
    SwitchHistory(LcTrace(t));
    var other := if n < 8 then n + 8 else n - 8;
    before := ReadBank(m, other, a);
    WriteBank(m, n, a, v);
    hidden := ReadBank(m, other, a);
    back := ReadBank(m, n, a);
  }
}
