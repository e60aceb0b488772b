/** The 6502 stack of AppleCpu.c: a wrapping byte pointer into page 1, and what calls, saves and
    interrupts built on it return to. */
module CpuStack {
  import opened Bytes

  // ----- Processor status

  datatype Flags = Flags(c: bool, z: bool, i: bool, d: bool, b: bool, unused: bool, v: bool, n: bool)

  function Low(f: bool, rest: nat): (n: nat) {
    2 * rest + if f then 1 else 0
  }

  /** The flags as the byte that is pushed, carry lowest. */
  function Pack(f: Flags): (p: Byte) {
    Low(f.c, Low(f.z, Low(f.i, Low(f.d, Low(f.b, Low(f.unused, Low(f.v, Low(f.n, 0))))))))
  }

  function Unpack(p: Byte): (f: Flags) {
    var p1 := p / 2;
    var p2 := p1 / 2;
    var p3 := p2 / 2;
    var p4 := p3 / 2;
    var p5 := p4 / 2;
    var p6 := p5 / 2;
    var p7 := p6 / 2;
    Flags(p % 2 == 1, p1 % 2 == 1, p2 % 2 == 1, p3 % 2 == 1, p4 % 2 == 1, p5 % 2 == 1, p6 % 2 == 1, p7 % 2 == 1)
  }

  lemma FourLow(f: bool, g: bool, h: bool, i: bool, rest: nat)
    ensures var p3 := Low(i, rest);
            var p2 := Low(h, p3);
            var p1 := Low(g, p2);
            var p := Low(f, p1);
            && p / 2 == p1 && p1 / 2 == p2 && p2 / 2 == p3 && p3 / 2 == rest
            && (p % 2 == 1 <==> f) && (p1 % 2 == 1 <==> g) && (p2 % 2 == 1 <==> h) && (p3 % 2 == 1 <==> i)
  {
  }

  lemma PackRoundTrip(f: Flags)
    ensures Unpack(Pack(f)) == f
  {
    var upper := Low(f.b, Low(f.unused, Low(f.v, Low(f.n, 0))));
    FourLow(f.c, f.z, f.i, f.d, upper);
    FourLow(f.b, f.unused, f.v, f.n, 0);
  }

  /** Every flag has its bit of the byte that is pushed. */
  lemma PackBits(f: Flags)
    ensures Pack(f) == (if f.c then 1 else 0) + (if f.z then 2 else 0) + (if f.i then 4 else 0) + (if f.d then 8 else 0)
                       + (if f.b then 16 else 0) + (if f.unused then 32 else 0) + (if f.v then 64 else 0) + (if f.n then 128 else 0)
  {
    var upper := Low(f.b, Low(f.unused, Low(f.v, Low(f.n, 0))));
    assert upper == (if f.b then 1 else 0) + (if f.unused then 2 else 0) + (if f.v then 4 else 0) + (if f.n then 8 else 0);
  }

  // ----- Push and pop

  function Dec(b: Byte): (r: Byte) {
    if b == 0 then 255 else b - 1
  }

  function Inc(b: Byte): (r: Byte) {
    if b == 255 then 0 else b + 1
  }

  function Next(w: Word): (r: Word) {
    if w == 0xFFFF then 0 else w + 1
  }

  lemma NextIsPlus(w: Word)
    ensures Next(Next(w)) == (w + 2) % 0x1_0000 && Next(Next(Next(w))) == (w + 3) % 0x1_0000
  {
  }

  type Page = p: seq<Byte> | |p| == 256 witness seq(256, _ => 0)

  /** The registers and the stack page. */
  datatype View = View(a: Byte, sp: Byte, pc: Word, ps: Flags, page: Page) {
    function Push(b: Byte): (r: View) {
      this.(page := page[sp := b], sp := Dec(sp))
    }

    /** The byte that a pop returns; `Drop` is what it does to the stack pointer. */
    function Top(): (b: Byte) {
      page[Inc(sp)]
    }

    function Drop(): (r: View) {
      this.(sp := Inc(sp))
    }

    function PushWord(w: Word): (r: View) {
      Push(w / 256).Push(w % 256)
    }

    function TopWord(): (w: Word) {
      MakeWord(Top(), Drop().Top())
    }

    function DropWord(): (r: View) {
      Drop().Drop()
    }

    // The instructions below start after their opcode has been fetched.

    function Jsr(target: Word): (r: View) {
      PushWord(Next(pc)).(pc := target)
    }

    function Rts(): (r: View) {
      DropWord().(pc := Next(TopWord()))
    }

    function Pha(): (r: View) {
      Push(a)
    }

    function Pla(): (r: View) {
      Drop().(a := Top(), ps := ps.(z := Top() == 0, n := Top() >= 128))
    }

    function Brk(vector: Word): (r: View) {
      PushWord(Next(pc)).Push(Pack(ps.(b := true))).(ps := ps.(i := true, d := false), pc := vector)
    }

    function Rti(): (r: View) {
      Drop().DropWord().(ps := Unpack(Top()), pc := Drop().TopWord())
    }

    function Fetched(): (r: View) {
      this.(pc := Next(pc))
    }
  }

  // ----- Programs seen as nested activities

  /** `Work` is any code that leaves stack pointer and stack page alone; the others bracket a body
      between an instruction that pushes and the one that takes the pushed bytes back. */
  datatype Activity =
    | Work(a: Byte, pc: Word, ps: Flags)
    | Call(target: Word, body: seq<Activity>)
    | Save(body: seq<Activity>)
    | Interrupt(vector: Word, body: seq<Activity>)

  function Max(x: nat, y: nat): (r: nat) {
    if x < y then y else x
  }

  /** The largest number of stack bytes outstanding at any time. */
  function Need(acts: seq<Activity>): (n: nat) {
    if acts == [] then 0 else Max(NeedOne(acts[0]), Need(acts[1..]))
  }

  function NeedOne(act: Activity): (n: nat) {
    match act
    case Work(_, _, _) => 0
    case Call(_, body) => 2 + Need(body)
    case Save(body) => 1 + Need(body)
    case Interrupt(_, body) => 3 + Need(body)
  }

  /** The nesting alone, without the addresses called. */
  function Shape(act: Activity): (r: Activity)
    decreases act
  {
    match act
    case Work(_, _, _) => act
    case Call(_, body) => Call(0, Shapes(body))
    case Save(body) => Save(Shapes(body))
    case Interrupt(_, body) => Interrupt(0, Shapes(body))
  }

  function Shapes(acts: seq<Activity>): (r: seq<Activity>)
    decreases acts
  {
    if acts == [] then [] else [Shape(acts[0])] + Shapes(acts[1..])
  }

  /** What the processor does. */
  function Exec(v: View, acts: seq<Activity>): (r: View)
    decreases acts
  {
    if acts == [] then v else Exec(ExecOne(v, acts[0]), acts[1..])
  }

  function ExecOne(v: View, act: Activity): (r: View)
    decreases act
  {
    match act
    case Work(a, pc, ps) => v.(a := a, pc := pc, ps := ps)
    case Call(target, body) => Exec(v.Fetched().Jsr(target), body).Fetched().Rts()
    case Save(body) => Exec(v.Fetched().Pha(), body).Fetched().Pla()
    case Interrupt(vector, body) => Exec(v.Fetched().Brk(vector), body).Fetched().Rti()
  }

  /** What it should do: registers only, every return address remembered by nesting. */
  datatype Ideal = Ideal(a: Byte, pc: Word, ps: Flags)

  function Run(s: Ideal, acts: seq<Activity>): (r: Ideal)
    decreases acts
  {
    if acts == [] then s else Run(RunOne(s, acts[0]), acts[1..])
  }

  function RunOne(s: Ideal, act: Activity): (r: Ideal)
    decreases act
  {
    match act
    case Work(a, pc, ps) => Ideal(a, pc, ps)
    case Call(target, body) =>
      Run(s.(pc := target), body).(pc := (s.pc + 3) % 0x1_0000)
    case Save(body) =>
      var e := Run(s.(pc := Next(s.pc)), body);
      Ideal(s.a, Next(e.pc), e.ps.(z := s.a == 0, n := s.a >= 128))
    case Interrupt(vector, body) =>
      Run(s.(pc := vector, ps := s.ps.(i := true, d := false)), body)
        .(pc := (s.pc + 2) % 0x1_0000, ps := s.ps.(b := true))
  }

  function Registers(v: View): (s: Ideal) {
    Ideal(v.a, v.pc, v.ps)
  }

  // ----- Refinement

  /** How far below `sp` cell `j` lies, around the page. */
  function Below(sp: Byte, j: Byte): (d: nat) {
    if j <= sp then sp - j else sp - j + 256
  }

  /** Stack pointer back in place and nothing changed but the `need` cells from `sp` down. */
  ghost predicate Balanced(v: View, r: View, need: nat) {
    r.sp == v.sp && forall j: Byte :: Below(v.sp, j) >= need ==> r.page[j] == v.page[j]
  }

  lemma BelowDec(sp: Byte, j: Byte)
    ensures Below(Dec(sp), j) == if j == sp then 255 else Below(sp, j) - 1
    ensures Inc(Dec(sp)) == sp
  {
  }

  lemma StackDown(sp: Byte)
    ensures Dec(sp) == (sp + 255) % 256 && Dec(Dec(sp)) == (sp + 254) % 256 && Dec(Dec(Dec(sp))) == (sp + 253) % 256
  {
  }

  lemma NextIs(w: Word)
    ensures Next(w) == (w + 1) % 0x1_0000
  {
  }

  /** A call leaves the address of its last byte on the stack, the high byte above the low one. */
  lemma CallOnStack(v: View, target: Word)
    ensures var r := v.Jsr(target); var ret := (v.pc + 1) % 0x1_0000;
            && r.page == v.page[v.sp := ret / 256][(v.sp + 255) % 256 := ret % 256] && r.sp == (v.sp + 254) % 256
            && r.pc == target && r.a == v.a && r.ps == v.ps
  {
    StackDown(v.sp);
    NextIs(v.pc);
  }

  /** A break leaves the address behind its second byte, and below it the flags with B set. */
  lemma BreakOnStack(v: View, vector: Word)
    ensures var r := v.Brk(vector); var ret := (v.pc + 1) % 0x1_0000;
            && r.page == v.page[v.sp := ret / 256][(v.sp + 255) % 256 := ret % 256][(v.sp + 254) % 256 := Pack(v.ps.(b := true))]
            && r.sp == (v.sp + 253) % 256 && r.pc == vector && r.a == v.a
            && r.ps == v.ps.(i := true, d := false)
  {
    StackDown(v.sp);
    NextIs(v.pc);
    var w := v.PushWord(Next(v.pc));
    assert w.page == v.page[v.sp := Next(v.pc) / 256][Dec(v.sp) := Next(v.pc) % 256] && w.sp == Dec(Dec(v.sp));
  }

  /** A body that is balanced after one push leaves the pushed byte and everything above alone. */
  lemma PushBalanced(v: View, b: Byte, r: View, need: nat)
    requires need < 256 && Balanced(v.Push(b), r, need)
    ensures r.Top() == b && Balanced(v, r.Drop(), need + 1)
  {
    BelowDec(v.sp, v.sp);
    forall j: Byte | Below(v.sp, j) >= need + 1 ensures r.page[j] == v.page[j] {
      BelowDec(v.sp, j);
    }
  }

  lemma PushWordBalanced(v: View, w: Word, r: View, need: nat)
    requires need < 255 && Balanced(v.PushWord(w), r, need)
    ensures r.TopWord() == w && Balanced(v, r.DropWord(), need + 2)
  {
    PushBalanced(v.Push(w / 256), w % 256, r, need);
    PushBalanced(v, w / 256, r.Drop(), need + 1);
  }

  lemma BalancedMore(v: View, r: View, need: nat, more: nat)
    requires Balanced(v, r, need) && need <= more
    ensures Balanced(v, r, more)
  {
  }

  /** With at most 256 bytes outstanding the wrapping stack page is a stack: calls of any nesting
      return behind their call, saves restore the accumulator, interrupts resume two bytes on with
      only the break flag added, and the stack pointer is always back. */
  lemma {:induction false} StackRefines(v: View, acts: seq<Activity>)
    requires Need(acts) <= 256
    ensures Balanced(v, Exec(v, acts), Need(acts))
    ensures Registers(Exec(v, acts)) == Run(Registers(v), acts)
    decreases acts, 1
  {
    if acts != [] {
      StackRefinesOne(v, acts[0]);
      var r := ExecOne(v, acts[0]);
      StackRefines(r, acts[1..]);
      BalancedMore(v, r, NeedOne(acts[0]), Need(acts));
      BalancedMore(r, Exec(r, acts[1..]), Need(acts[1..]), Need(acts));
    }
  }

  lemma {:induction false} StackRefinesOne(v: View, act: Activity)
    requires NeedOne(act) <= 256
    ensures Balanced(v, ExecOne(v, act), NeedOne(act))
    ensures Registers(ExecOne(v, act)) == RunOne(Registers(v), act)
    decreases act, 1
  {
    match act
    case Work(_, _, _) =>
    case Call(_, _) => CallRefines(v, act);
    case Save(_) => SaveRefines(v, act);
    case Interrupt(_, _) => InterruptRefines(v, act);
  }

  lemma {:induction false} CallRefines(v: View, act: Activity)
    requires act.Call? && NeedOne(act) <= 256
    ensures Balanced(v, ExecOne(v, act), NeedOne(act))
    ensures Registers(ExecOne(v, act)) == RunOne(Registers(v), act)
    decreases act, 0
  {
    var f := v.Fetched();
    NextIsPlus(v.pc);
    StackRefines(f.Jsr(act.target), act.body);
    assert Registers(f.Jsr(act.target)) == Registers(v).(pc := act.target);
    CallReturns(f, act.target, Exec(f.Jsr(act.target), act.body), Need(act.body));
  }

  lemma {:induction false} SaveRefines(v: View, act: Activity)
    requires act.Save? && NeedOne(act) <= 256
    ensures Balanced(v, ExecOne(v, act), NeedOne(act))
    ensures Registers(ExecOne(v, act)) == RunOne(Registers(v), act)
    decreases act, 0
  {
    var f := v.Fetched();
    StackRefines(f.Pha(), act.body);
    assert Registers(f.Pha()) == Registers(v).(pc := Next(v.pc));
    PushBalanced(f, f.a, Exec(f.Pha(), act.body), Need(act.body));
  }

  lemma {:induction false} InterruptRefines(v: View, act: Activity)
    requires act.Interrupt? && NeedOne(act) <= 256
    ensures Balanced(v, ExecOne(v, act), NeedOne(act))
    ensures Registers(ExecOne(v, act)) == RunOne(Registers(v), act)
    decreases act, 0
  {
    var f := v.Fetched();
    NextIsPlus(v.pc);
    StackRefines(f.Brk(act.vector), act.body);
    assert Registers(f.Brk(act.vector)) == Registers(v).(pc := act.vector, ps := v.ps.(i := true, d := false));
    InterruptReturns(f, act.vector, Exec(f.Brk(act.vector), act.body), Need(act.body));
  }

  lemma CallReturns(f: View, target: Word, e: View, need: nat)
    requires need <= 254 && Balanced(f.Jsr(target), e, need)
    ensures var r := e.Fetched().Rts();
            Balanced(f, r, need + 2) && Registers(r) == Registers(e).(pc := Next(Next(f.pc)))
  {
    PushWordBalanced(f, Next(f.pc), e, need);
  }

  lemma InterruptReturns(f: View, vector: Word, e: View, need: nat)
    requires need <= 253 && Balanced(f.Brk(vector), e, need)
    ensures var r := e.Fetched().Rti();
            Balanced(f, r, need + 3) && Registers(r) == Ideal(e.a, Next(f.pc), f.ps.(b := true))
  {
    PushBalanced(f.PushWord(Next(f.pc)), Pack(f.ps.(b := true)), e, need);
    PushWordBalanced(f, Next(f.pc), e.Drop(), need + 1);
    PackRoundTrip(f.ps.(b := true));
  }
}
