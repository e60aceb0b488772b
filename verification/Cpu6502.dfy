/** The processor of AppleCpu.c as an object over the banked memory. */
module Cpu6502 {
  import opened Bytes
  import opened CpuArithmetic
  import opened CpuStack
  import opened LanguageCard

  const STACK_ADDRESS := 0x0100
  const BREAK_VECTOR := 0xFFFE

  const JSR: Byte := 0x20
  const RTS: Byte := 0x60
  const PHA: Byte := 0x48
  const PLA: Byte := 0x68
  const BRK: Byte := 0x00
  const RTI: Byte := 0x40

  /** Reading `a` touches no soft switch and no device. */
  predicate NoDevice(a: Word) {
    a < RAM_SIZE || a >= ROM_START
  }

  /** A write into the stack page, seen in the page alone. */
  lemma WriteInPage(ram: seq<Byte>, s: Byte, value: Byte)
    requires |ram| == RAM_SIZE
    ensures ram[STACK_ADDRESS + s := value][STACK_ADDRESS..STACK_ADDRESS + 256] ==
            ram[STACK_ADDRESS..STACK_ADDRESS + 256][s := value]
  {
  }

  class Cpu {
    var a: Byte
    var x: Byte
    var y: Byte
    var sp: Byte
    var pc: Word
    var ps: Flags
    const mem: AppleMemory

    ghost predicate Valid()
      reads this, mem
    {
      mem.Valid()
    }

    ghost function View(): (v: View)
      requires Valid()
      reads this, mem, mem.ram
    {
      CpuStack.View(a, sp, pc, ps, mem.ram[STACK_ADDRESS..STACK_ADDRESS + 256])
    }

    constructor (memory: AppleMemory)
      requires memory.Valid()
      ensures Valid() && mem == memory && a == x == y == 0 && sp == 0xFD && pc == 0xFFFC && Pack(ps) == 0
    {
      mem := memory;
      a, x, y, sp, pc := 0, 0, 0, 0xFD, 0xFFFC;
      ps := Flags(false, false, false, false, false, false, false, false);
    }

    // ----- Arithmetic

    /** `ac_Execute_ADC` */
    method Adc(v: Byte)
      modifies this`a, this`ps
      ensures var r := AdcResult(old(a), v, old(ps.c), old(ps.d));
              && a == r % 256
              && ps == old(ps).(c := r >= 256, z := a == 0, n := a >= 128, v := Overflows(old(a), v, a))
    {
      var oldA := a;
      var result := a + v + Num(ps.c);
      if ps.d {
        result := result + And(Xor(Xor(result + 0x66, a), v) / 8, 0x22) * 3;
      }
      AdcFitsWord(oldA, v, ps.c, ps.d);
      a := result % 256;
      ps := ps.(z := a == 0, n := a / 128 > 0);
      ps := ps.(c := result / 256 > 0);
      ps := ps.(v := oldA / 128 == v / 128 && a / 128 != v / 128);
    }

    /** `ac_Execute_SBC`: the complement is added. */
    method Sbc(v: Byte)
      modifies this`a, this`ps
      ensures var r := AdcResult(old(a), 255 - v, old(ps.c), old(ps.d));
              && a == r % 256
              && ps == old(ps).(c := r >= 256, z := a == 0, n := a >= 128, v := Overflows(old(a), 255 - v, a))
    {
      Adc(255 - v);
    }

    /** A multi-byte addition: load, add, store, low byte first. */
    method AddBytes(xs: seq<Byte>, ys: seq<Byte>) returns (zs: seq<Byte>)
      requires |xs| == |ys|
      modifies this`a, this`ps
      ensures Sum(zs, ps.c) == Chain(xs, ys, old(ps.c), old(ps.d)) && ps.d == old(ps.d)
    {
      zs := [];
      var i := 0;
      ghost var whole := Chain(xs, ys, ps.c, ps.d);
      while i < |xs|
        invariant 0 <= i <= |xs| && |zs| == i && ps.d == old(ps.d)
        invariant zs == whole.bytes[..i]
        invariant Chain(xs[i..], ys[i..], ps.c, ps.d) == Sum(whole.bytes[i..], whole.carry)
      {
        ChainStep(xs[i..], ys[i..], ps.c, ps.d);
        assert xs[i..][1..] == xs[i + 1..] && ys[i..][1..] == ys[i + 1..];
        a := xs[i];
        Adc(ys[i]);
        zs := zs + [a];
        i := i + 1;
      }
    }

    // ----- Stack

    method PushByte(value: Byte)
      requires Valid()
      modifies this`sp, mem, mem.ram, mem.lgc, mem.bk2
      ensures Valid() && View() == old(View()).Push(value) && mem.ram[0x100 + old(sp)] == value
      ensures mem.Sw() == old(mem.Sw()) && mem.lgc[..] == old(mem.lgc[..]) && mem.bk2[..] == old(mem.bk2[..])
    {
      ghost var ram, s := mem.ram[..], sp;
      mem.WriteByte(STACK_ADDRESS + sp, value);
      assert mem.ram[..] == ram[STACK_ADDRESS + s := value];
      WriteInPage(ram, s, value);
      assert mem.ram[STACK_ADDRESS..STACK_ADDRESS + 256] == mem.ram[..][STACK_ADDRESS..STACK_ADDRESS + 256];
      assert old(mem.ram[STACK_ADDRESS..STACK_ADDRESS + 256]) == ram[STACK_ADDRESS..STACK_ADDRESS + 256];
      sp := Dec(sp);
    }

    method PopByte() returns (value: Byte)
      requires Valid()
      modifies this`sp, mem
      ensures Valid() && value == old(View()).Top() && View() == old(View()).Drop()
    {
      sp := Inc(sp);
      ghost var v := old(View());
      assert v.page[Inc(v.sp)] == mem.ram[STACK_ADDRESS + sp] == mem.Peek(STACK_ADDRESS + sp);
      value := mem.ReadByte(STACK_ADDRESS + sp, 0);
      assert View() == v.Drop();
    }

    method PushWord(value: Word)
      requires Valid()
      modifies this`sp, mem, mem.ram, mem.lgc, mem.bk2
      ensures Valid() && View() == old(View()).PushWord(value)
    {
      PushByte(value / 256);
      PushByte(value % 256);
    }

    method PopWord() returns (value: Word)
      requires Valid()
      modifies this`sp, mem
      ensures Valid() && value == old(View()).TopWord() && View() == old(View()).DropWord()
    {
      var lo := PopByte();
      var hi := PopByte();
      value := MakeWord(lo, hi);
    }

    // ----- Instructions, after the opcode fetch; `io` bytes are what devices answer to code fetches

    method Jsr(io: (Byte, Byte)) returns (target: Word)
      requires Valid()
      modifies this, mem, mem.ram, mem.lgc, mem.bk2
      ensures Valid() && View() == old(View()).Jsr(target)
      ensures NoDevice(old(pc)) && NoDevice(Next(old(pc))) ==>
                target == old(mem.Peek(pc)) as int + 256 * (old(mem.Peek(Next(pc))) as int)
    {
      var lo := mem.ReadByte(pc, io.0);
      pc := Next(pc);
      var hi := mem.ReadByte(pc, io.1);
      target := MakeWord(lo, hi);
      PushWord(pc);
      pc := target;
    }

    method Rts()
      requires Valid()
      modifies this, mem
      ensures Valid() && View() == old(View()).Rts()
    {
      var addr := PopWord();
      pc := Next(addr);
    }

    method Pha()
      requires Valid()
      modifies this, mem, mem.ram, mem.lgc, mem.bk2
      ensures Valid() && View() == old(View()).Pha()
    {
      PushByte(a);
    }

    method Pla()
      requires Valid()
      modifies this, mem
      ensures Valid() && View() == old(View()).Pla()
    {
      a := PopByte();
      ps := ps.(z := a == 0, n := a >= 128);
    }

    method Brk() returns (vector: Word)
      requires Valid()
      modifies this, mem, mem.ram, mem.lgc, mem.bk2
      ensures Valid() && View() == old(View()).Brk(vector)
      ensures vector == old(mem.Peek(0xFFFE)) as int + 256 * (old(mem.Peek(0xFFFF)) as int)
    {
      pc := Next(pc);
      PushByte(pc / 256);
      PushByte(pc % 256);
      PushByte(Pack(ps.(b := true)));
      ps := ps.(i := true);
      ps := ps.(d := false);
      var lo := mem.ReadByte(BREAK_VECTOR, 0);
      var hi := mem.ReadByte(BREAK_VECTOR + 1, 0);
      vector := MakeWord(lo, hi);
      pc := vector;
    }

    method Rti()
      requires Valid()
      modifies this, mem
      ensures Valid() && View() == old(View()).Rti()
    {
      var p := PopByte();
      ps := Unpack(p);
      var lo := PopByte();
      var hi := PopByte();
      pc := MakeWord(lo, hi);
    }

    // ----- Whole activities

    /** The fetch of an opcode, which reads through the switches and may move them. */
    method Fetch(io: Byte) returns (opcode: Byte)
      requires Valid()
      modifies this`pc, mem
      ensures Valid() && View() == old(View()).Fetched()
      ensures NoDevice(old(pc)) ==> opcode == old(mem.Peek(pc)) && mem.Sw() == old(mem.Sw())
      ensures 0xC080 <= old(pc) < 0xC090 ==> mem.Sw() == Touch(old(mem.Sw()), LcAccess(old(pc) - 0xC080, false))
    {
      opcode := mem.ReadByte(pc, io);
      pc := Next(pc);
    }

    /** One activity on the machine. Every opcode is fetched; where it calls to is what memory
        holds, so `done` is `act` with the addresses that were used. Where code is read from a device,
        the device answers as `act` says. */
    method PerformOne(act: Activity) returns (done: Activity)
      requires Valid()
      modifies this, mem, mem.ram, mem.lgc, mem.bk2
      ensures Valid() && View() == ExecOne(old(View()), done) && NeedOne(done) == NeedOne(act) && Shape(done) == Shape(act)
      decreases act, 1
    {
      match act
      case Work(a', pc', ps') =>
        a, pc, ps := a', pc', ps';
        done := act;
      case Call(_, _) =>
        done := PerformCall(act);
      case Save(_) =>
        done := PerformSave(act);
      case Interrupt(_, _) =>
        done := PerformInterrupt(act);
    }

    method PerformCall(act: Activity) returns (done: Activity)
      requires Valid() && act.Call?
      modifies this, mem, mem.ram, mem.lgc, mem.bk2
      ensures Valid() && View() == ExecOne(old(View()), done) && NeedOne(done) == NeedOne(act) && Shape(done) == Shape(act)
      decreases act, 0
    {
      var _ := Fetch(JSR);
      var target := Jsr((act.target % 256, act.target / 256));
      var inner := Perform(act.body);
      var _ := Fetch(RTS);
      Rts();
      done := Call(target, inner);
    }

    method PerformSave(act: Activity) returns (done: Activity)
      requires Valid() && act.Save?
      modifies this, mem, mem.ram, mem.lgc, mem.bk2
      ensures Valid() && View() == ExecOne(old(View()), done) && NeedOne(done) == NeedOne(act) && Shape(done) == Shape(act)
      decreases act, 0
    {
      var _ := Fetch(PHA);
      Pha();
      var inner := Perform(act.body);
      var _ := Fetch(PLA);
      Pla();
      done := Save(inner);
    }

    method PerformInterrupt(act: Activity) returns (done: Activity)
      requires Valid() && act.Interrupt?
      modifies this, mem, mem.ram, mem.lgc, mem.bk2
      ensures Valid() && View() == ExecOne(old(View()), done) && NeedOne(done) == NeedOne(act) && Shape(done) == Shape(act)
      decreases act, 0
    {
      var _ := Fetch(BRK);
      var vector := Brk();
      var inner := Perform(act.body);
      var _ := Fetch(RTI);
      Rti();
      done := Interrupt(vector, inner);
    }

    method Perform(acts: seq<Activity>) returns (done: seq<Activity>)
      requires Valid()
      modifies this, mem, mem.ram, mem.lgc, mem.bk2
      ensures Valid() && View() == Exec(old(View()), done) && Need(done) == Need(acts) && Shapes(done) == Shapes(acts)
      decreases acts, 1
    {
      if acts == [] {
        return [];
      }
      var first := PerformOne(acts[0]);
      var rest := Perform(acts[1..]);
      done := [first] + rest;
      assert done[1..] == rest;
    }

    /** With at most 256 bytes outstanding the machine's registers end where an ideal machine's would,
        with the stack pointer back and the page unchanged above it. */
    method PerformBalanced(acts: seq<Activity>) returns (done: seq<Activity>)
      requires Valid() && Need(acts) <= 256
      modifies this, mem, mem.ram, mem.lgc, mem.bk2
      ensures Valid() && Need(done) == Need(acts) && Shapes(done) == Shapes(acts)
      ensures Balanced(old(View()), View(), Need(acts))
      ensures Registers(View()) == Run(Registers(old(View())), done)
    {
      ghost var v := View();
      done := Perform(acts);
      StackRefines(v, done);
    }
  }
}
