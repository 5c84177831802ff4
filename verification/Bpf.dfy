/** The packet filter machine: the userland validator, the interpreter, and what the first promises about the second. */
module Bpf {
  import opened Bytes
  import opened Containers

  const MEMWORDS := 16

  datatype Insn = Insn(code: nat, jt: Byte, jf: Byte, k: U32)

  // BPF_CLASS, BPF_MODE, BPF_OP and BPF_RVAL: bits 0-2, 5-7, 4-7 and 3-4 of the code.
  function Class(code: nat): int { code % 8 }
  function Mode(code: nat): int { code / 32 % 8 * 32 }
  function OpBits(code: nat): int { code / 16 % 16 * 16 }
  function Rval(code: nat): int { code / 8 % 4 * 8 }

  // What the switch of bpf_filter does with a code; the codes it has no case for are unknown.
  datatype Alu = Add | Sub | Mul | Div | Or | And | Lsh | Rsh
  datatype Cond = Jgt | Jge | Jeq | Jset
  datatype Op = RetK | RetA
              | LdAbs(size: int) | LdInd(size: int) | LdLen | LdxLen | LdxMsh | LdImm | LdxImm | LdMem | LdxMem
              | St | Stx | Ja | Jmp(cond: Cond, jx: bool) | AluOp(alu: Alu, ax: bool) | Neg | Tax | Txa | Unknown

  function DecodeLoad(code: nat): Op {
    if code == 0x20 then LdAbs(4) else if code == 0x28 then LdAbs(2) else if code == 0x30 then LdAbs(1)
    else if code == 0x40 then LdInd(4) else if code == 0x48 then LdInd(2) else if code == 0x50 then LdInd(1)
    else if code == 0x80 then LdLen else if code == 0x81 then LdxLen else if code == 0xb1 then LdxMsh
    else if code == 0x00 then LdImm else if code == 0x01 then LdxImm
    else if code == 0x60 then LdMem else if code == 0x61 then LdxMem
    else Unknown
  }

  function DecodeAlu(code: nat): Op {
    if code == 0x04 then AluOp(Add, false) else if code == 0x0c then AluOp(Add, true)
    else if code == 0x14 then AluOp(Sub, false) else if code == 0x1c then AluOp(Sub, true)
    else if code == 0x24 then AluOp(Mul, false) else if code == 0x2c then AluOp(Mul, true)
    else if code == 0x34 then AluOp(Div, false) else if code == 0x3c then AluOp(Div, true)
    else if code == 0x44 then AluOp(Or, false) else if code == 0x4c then AluOp(Or, true)
    else if code == 0x54 then AluOp(And, false) else if code == 0x5c then AluOp(And, true)
    else if code == 0x64 then AluOp(Lsh, false) else if code == 0x6c then AluOp(Lsh, true)
    else if code == 0x74 then AluOp(Rsh, false) else if code == 0x7c then AluOp(Rsh, true)
    else if code == 0x84 then Neg else Unknown
  }

  function DecodeJump(code: nat): Op {
    if code == 0x05 then Ja
    else if code == 0x15 then Jmp(Jeq, false) else if code == 0x1d then Jmp(Jeq, true)
    else if code == 0x25 then Jmp(Jgt, false) else if code == 0x2d then Jmp(Jgt, true)
    else if code == 0x35 then Jmp(Jge, false) else if code == 0x3d then Jmp(Jge, true)
    else if code == 0x45 then Jmp(Jset, false) else if code == 0x4d then Jmp(Jset, true)
    else Unknown
  }

  function Decode(code: nat): Op {
    match Class(code)
    case 0 | 1 => DecodeLoad(code)
    case 2 => if code == 0x02 then St else Unknown
    case 3 => if code == 0x03 then Stx else Unknown
    case 4 => DecodeAlu(code)
    case 5 => DecodeJump(code)
    case 6 => if code == 0x06 then RetK else if code == 0x16 then RetA else Unknown
    case _ => if code == 0x07 then Tax else if code == 0x87 then Txa else Unknown
  }

  // ---------------------------------------------------------------- bpf_validate

  predicate LoadOk(p: Insn) {
    match Mode(p.code)
    case 0x00 | 0x20 | 0x40 | 0x80 | 0xa0 => true
    case 0x60 => p.k < MEMWORDS
    case _ => false
  }

  predicate AluOk(p: Insn) {
    match OpBits(p.code)
    case 0x00 | 0x10 | 0x20 | 0x40 | 0x50 | 0x60 | 0x70 | 0x80 => true
    case 0x30 => !(Rval(p.code) == 0 && p.k == 0)
    case _ => false
  }

  predicate JumpOk(p: Insn, i: int, len: int) {
    match OpBits(p.code)
    case 0x00 => Wrap(i + 1 + p.k) < len
    case 0x10 | 0x20 | 0x30 | 0x40 => i + 1 + p.jt as int < len && i + 1 + p.jf as int < len
    case _ => false
  }

  predicate InsnOk(p: Insn, i: int, len: int) {
    match Class(p.code)
    case 0 | 1 => LoadOk(p)
    case 2 | 3 => p.k < MEMWORDS
    case 4 => AluOk(p)
    case 5 => JumpOk(p, i, len)
    case _ => true
  }

  ghost predicate Accepted(f: seq<Insn>) {
    && 0 < |f| < 0x8000_0000
    && (forall i :: 0 <= i < |f| ==> InsnOk(f[i], i, |f|))
    && Class(f[|f| - 1].code) == 6
  }

  // The program's length is an int.
  method Validate(f: seq<Insn>) returns (ok: bool)
    requires |f| < 0x8000_0000
    ensures ok <==> Accepted(f)
  {
    hide InsnOk;
    if |f| < 1 {
      return false;
    }
    var i := 0;
    while i < |f|
      invariant 0 <= i <= |f| && forall j :: 0 <= j < i ==> InsnOk(f[j], j, |f|)
    {
      var one := ValidateInsn(f[i], i, |f|);
      if !one {
        return false;
      }
      i := i + 1;
    }
    ok := Class(f[|f| - 1].code) == 6;
  }

  // The switch over the class of one instruction.
  method ValidateInsn(p: Insn, i: int, len: int) returns (ok: bool)
    requires 0 <= i < len < 0x8000_0000
    ensures ok <==> InsnOk(p, i, len)
  {
    match Class(p.code) {
      case 0 | 1 => ok := LoadOk(p);
      case 2 | 3 => ok := p.k < MEMWORDS;
      case 4 => ok := AluOk(p);
      case 5 =>
        var from := i + 1;
        ok := if OpBits(p.code) == 0x00 then Wrap(from + p.k) < len
              else if OpBits(p.code) <= 0x40 then from + p.jt as int < len && from + p.jf as int < len
              else false;
      case 6 | 7 => ok := true;
    }
  }

  // ---------------------------------------------------------------- bpf_filter

  // pc, accumulator, index register, scratch memory.
  datatype Machine = Machine(pc: int, a: U32, x: U32, mem: seq<U32>)

  // What one instruction or a whole run ends in. The last five are what no program should do: an unknown code, a
  // constant division by zero, a scratch word or a packet octet that does not exist, leaving the program.
  datatype Outcome = Next(m: Machine) | Return(value: U32)
                   | Abort | DivisionByZero | NoSuchWord | NoSuchOctet | LeftProgram

  // The packet, and its length on the wire.
  datatype Packet = Packet(data: seq<Byte>, wirelen: U32)

  // (int) k
  function Signed(k: U32): int { if k < 0x8000_0000 then k else k - 0x1_0000_0000 }

  // The test before a load: one octet against the unsigned length, more octets against a sum in size_t.
  predicate PastEnd(k: U32, size: int, buflen: int) {
    if size == 1 then k >= buflen
    else (if k < 0x8000_0000 then k + size else Wrap64(k - 0x1_0000_0000 + size)) > buflen
  }

  function Wrap64(x: int): int { x % 0x1_0000_0000_0000_0000 }

  // EXTRACT_LONG and EXTRACT_SHORT: network byte order.
  function BigEndian(s: seq<Byte>): (v: int)
    ensures 0 <= v
  {
    if s == [] then 0 else 256 * BigEndian(s[..|s| - 1]) + s[|s| - 1] as int
  }

  datatype Load = TooShort | Missing | Got(v: U32)

  function LoadAt(pkt: Packet, k: U32, size: int): Load
    requires 0 < size
  {
    if PastEnd(k, size, |pkt.data|) then TooShort
    else if Signed(k) < 0 || k + size > |pkt.data| then Missing
    else Got(Wrap(BigEndian(pkt.data[k..k + size])))
  }

  function ShiftLeft(a: U32, n: nat): U32
    decreases n
  {
    if n == 0 then a else ShiftLeft(Wrap(2 * a), n - 1)
  }

  function ShiftRight(a: U32, n: nat): U32
    decreases n
  {
    if n == 0 then a else ShiftRight(a / 2, n - 1)
  }

  function Bits(a: U32): bv32 { a as bv32 }
  function Number(x: bv32): U32 { x as int }
  function BitAnd(a: U32, b: U32): U32 { Number(Bits(a) & Bits(b)) }
  function BitOr(a: U32, b: U32): U32 { Number(Bits(a) | Bits(b)) }

  // Shifts by 32 or more are not defined in C; `wide` is whatever they give.
  function AluValue(op: Alu, a: U32, b: U32, wide: (U32, U32) -> U32): U32
    requires op == Div ==> b != 0
  {
    match op
    case Add => Wrap(a + b)
    case Sub => Wrap(a - b)
    case Mul => Wrap(a * b)
    case Div => a / b
    case Or => BitOr(a, b)
    case And => BitAnd(a, b)
    case Lsh => if b < 32 then ShiftLeft(a, b) else wide(a, b)
    case Rsh => if b < 32 then ShiftRight(a, b) else wide(a, b)
  }

  predicate Taken(c: Cond, a: U32, b: U32) {
    match c
    case Jgt => a > b
    case Jge => a >= b
    case Jeq => a == b
    case Jset => BitAnd(a, b) != 0
  }

  function LoadInto(m: Machine, l: Load): Outcome {
    match l
    case TooShort => Return(0)
    case Missing => NoSuchOctet
    case Got(v) => Next(m.(pc := m.pc + 1, a := v))
  }

  // The header length nibble, in octets.
  function LoadMsh(m: Machine, l: Load): Outcome {
    match l
    case TooShort => Return(0)
    case Missing => NoSuchOctet
    case Got(v) => Next(m.(pc := m.pc + 1, x := v % 16 * 4))
  }

  // One instruction.
  function Step(p: Insn, m: Machine, pkt: Packet, wide: (U32, U32) -> U32): Outcome
    requires |m.mem| == MEMWORDS
  {
    match Decode(p.code)
    case RetK => Return(p.k)
    case RetA => Return(m.a)
    case LdAbs(size) => if size <= 0 then Abort else LoadInto(m, LoadAt(pkt, p.k, size))
    case LdInd(size) => if size <= 0 then Abort else LoadInto(m, LoadAt(pkt, Wrap(m.x + p.k), size))
    case LdLen => Next(m.(pc := m.pc + 1, a := pkt.wirelen))
    case LdxLen => Next(m.(pc := m.pc + 1, x := pkt.wirelen))
    case LdxMsh => LoadMsh(m, LoadAt(pkt, p.k, 1))
    case LdImm => Next(m.(pc := m.pc + 1, a := p.k))
    case LdxImm => Next(m.(pc := m.pc + 1, x := p.k))
    case LdMem => if p.k < MEMWORDS then Next(m.(pc := m.pc + 1, a := m.mem[p.k])) else NoSuchWord
    case LdxMem => if p.k < MEMWORDS then Next(m.(pc := m.pc + 1, x := m.mem[p.k])) else NoSuchWord
    case St => if p.k < MEMWORDS then Next(m.(pc := m.pc + 1, mem := m.mem[p.k := m.a])) else NoSuchWord
    case Stx => if p.k < MEMWORDS then Next(m.(pc := m.pc + 1, mem := m.mem[p.k := m.x])) else NoSuchWord
    case Ja => Next(m.(pc := m.pc + 1 + p.k))
    case Jmp(cond, jx) =>
      Next(m.(pc := m.pc + 1 + (if Taken(cond, m.a, if jx then m.x else p.k) then p.jt as int else p.jf as int)))
    case AluOp(alu, ax) =>
      var b := if ax then m.x else p.k;
      if alu == Div && b == 0 then (if ax then Return(0) else DivisionByZero)
      else Next(m.(pc := m.pc + 1, a := AluValue(alu, m.a, b, wide)))
    case Neg => Next(m.(pc := m.pc + 1, a := Wrap(0 - m.a)))
    case Tax => Next(m.(pc := m.pc + 1, x := m.a))
    case Txa => Next(m.(pc := m.pc + 1, a := m.x))
    case Unknown => Abort
  }

  lemma StepGoesOn(p: Insn, m: Machine, pkt: Packet, wide: (U32, U32) -> U32)
    requires |m.mem| == MEMWORDS
    ensures Step(p, m, pkt, wide).Next? ==>
      m.pc < Step(p, m, pkt, wide).m.pc && |Step(p, m, pkt, wide).m.mem| == MEMWORDS
  {
    hide LoadAt, AluValue, Wrap, Taken;
  }

  // A whole run from this machine state on. The offsets are unsigned, so it always moves forward.
  function Run(f: seq<Insn>, m: Machine, pkt: Packet, wide: (U32, U32) -> U32): Outcome
    requires |m.mem| == MEMWORDS && 0 <= m.pc
    decreases |f| - m.pc
  {
    if m.pc >= |f| then LeftProgram
    else
      StepGoesOn(f[m.pc], m, pkt, wide);
      match Step(f[m.pc], m, pkt, wide)
      case Next(m') => Run(f, m', pkt, wide)
      case end => end
  }

  // ---------------------------------------------------------------- what acceptance means

  // What an accepted program may still get wrong at instruction i, as a reader of the program can see.
  predicate CodeKnown(f: seq<Insn>, i: int)
    requires 0 <= i < |f|
  {
    Decode(f[i].code) != Unknown
  }

  predicate DividesByConstantZero(f: seq<Insn>, i: int)
    requires 0 <= i < |f|
  {
    f[i].code == 0x34 && f[i].k == 0
  }

  predicate JumpsBackward(f: seq<Insn>, i: int)
    requires 0 <= i < |f|
  {
    f[i].code == 0x05 && i + 1 + f[i].k >= 0x1_0000_0000
  }

  // A load whose offset is one of the last before 2^32 passes its size test and reads in front of the packet.
  predicate BeforePacket(k: U32, size: int, buflen: int) {
    1 < size && 0x1_0000_0000 <= k + size && k + size - 0x1_0000_0000 <= buflen
  }

  lemma LoadStays(pkt: Packet, k: U32, size: int)
    requires 0 < size <= 4 && |pkt.data| < 0x8000_0000
    ensures LoadAt(pkt, k, size) == Missing <==> BeforePacket(k, size, |pkt.data|)
    ensures LoadAt(pkt, k, size) == TooShort <==> !BeforePacket(k, size, |pkt.data|) && k + size > |pkt.data|
  {
    var at := k - 0x1_0000_0000 + size;
    assert k >= 0x8000_0000 ==> at < 0 || Wrap64(at) == at;
    assert k >= 0x8000_0000 && k - 0x1_0000_0000 + size < 0 ==>
        Wrap64(k - 0x1_0000_0000 + size) == k - 0x1_0000_0000 + size + 0x1_0000_0000_0000_0000;
  }

  // Instruction i in front of a packet: what the validator has made impossible, and exactly what it has not.
  lemma StepFaults(f: seq<Insn>, m: Machine, pkt: Packet, wide: (U32, U32) -> U32)
    requires Accepted(f) && 0 <= m.pc < |f| && |m.mem| == MEMWORDS
    ensures var o := Step(f[m.pc], m, pkt, wide);
            && (o == Abort <==> !CodeKnown(f, m.pc))
            && (o == DivisionByZero <==> DividesByConstantZero(f, m.pc))
            && o != NoSuchWord && o != LeftProgram
            && (o.Next? ==> (|f| <= o.m.pc <==> JumpsBackward(f, m.pc)))
  {
    StepStops(f, m, pkt, wide);
    StepTarget(f, m, pkt, wide);
    hide Step, CodeKnown, DividesByConstantZero, JumpsBackward;
  }

  lemma StepStops(f: seq<Insn>, m: Machine, pkt: Packet, wide: (U32, U32) -> U32)
    requires Accepted(f) && 0 <= m.pc < |f| && |m.mem| == MEMWORDS
    ensures var o := Step(f[m.pc], m, pkt, wide);
            && (o == Abort <==> !CodeKnown(f, m.pc))
            && (o == DivisionByZero <==> DividesByConstantZero(f, m.pc))
            && o != NoSuchWord && o != LeftProgram
  {
    hide LoadAt, AluValue, Wrap, Taken;
    assert InsnOk(f[m.pc], m.pc, |f|);
  }

  lemma StepTarget(f: seq<Insn>, m: Machine, pkt: Packet, wide: (U32, U32) -> U32)
    requires Accepted(f) && 0 <= m.pc < |f| && |m.mem| == MEMWORDS
    ensures var o := Step(f[m.pc], m, pkt, wide);
            o.Next? ==> (|f| <= o.m.pc <==> JumpsBackward(f, m.pc))
  {
    hide LoadAt, AluValue, Wrap, Taken;
    assert InsnOk(f[m.pc], m.pc, |f|) && (m.pc == |f| - 1 ==> Class(f[m.pc].code) == 6);
    JumpWraps(m.pc, f[m.pc].k);
  }

  lemma JumpWraps(i: int, k: U32)
    requires 0 <= i < 0x8000_0000
    ensures Wrap(i + 1 + k) == if i + 1 + k < 0x1_0000_0000 then i + 1 + k else i + 1 + k - 0x1_0000_0000
  {
  }

  // An accepted program without these three faults runs to a return, on every packet and from any scratch memory: it
  // stays in the program, uses only scratch words that exist and divides by nothing that is zero. Only a load that
  // wraps past the end of the address range can keep it from that.
  lemma {:induction false} AcceptedRuns(f: seq<Insn>, m: Machine, pkt: Packet, wide: (U32, U32) -> U32)
    requires Accepted(f) && 0 <= m.pc < |f| && |m.mem| == MEMWORDS
    requires forall i :: 0 <= i < |f| ==> CodeKnown(f, i) && !DividesByConstantZero(f, i) && !JumpsBackward(f, i)
    ensures Run(f, m, pkt, wide).Return? || Run(f, m, pkt, wide) == NoSuchOctet
    ensures Steps(f, m, pkt, wide) <= |f| - m.pc
    decreases |f| - m.pc
  {
    StepFaults(f, m, pkt, wide);
    StepGoesOn(f[m.pc], m, pkt, wide);
    hide Accepted, CodeKnown, DividesByConstantZero, JumpsBackward, Step;
    var o := Step(f[m.pc], m, pkt, wide);
    if o.Next? {
      AcceptedRuns(f, o.m, pkt, wide);
    }
  }

  // Instructions executed.
  function Steps(f: seq<Insn>, m: Machine, pkt: Packet, wide: (U32, U32) -> U32): nat
    requires |m.mem| == MEMWORDS && 0 <= m.pc
    decreases |f| - m.pc
  {
    if m.pc >= |f| then 0
    else
      StepGoesOn(f[m.pc], m, pkt, wide);
      match Step(f[m.pc], m, pkt, wide)
      case Next(m') => 1 + Steps(f, m', pkt, wide)
      case _ => 1
  }

  // A load that stays inside for every packet shorter than 2^31 octets.
  predicate PlainLoad(p: Insn) {
    match Decode(p.code)
    case LdAbs(size) => p.k + size < 0x1_0000_0000
    case LdInd(size) => size == 1
    case _ => true
  }

  lemma PlainLoadStays(p: Insn, m: Machine, pkt: Packet, wide: (U32, U32) -> U32)
    requires PlainLoad(p) && |m.mem| == MEMWORDS && |pkt.data| < 0x8000_0000
    ensures Step(p, m, pkt, wide) != NoSuchOctet
  {
    hide LoadAt, AluValue, Wrap, Taken;
    match Decode(p.code)
    case LdAbs(size) => if 0 < size <= 4 { LoadStays(pkt, p.k, size); }
    case LdInd(size) => LoadStays(pkt, Wrap(m.x + p.k), size);
    case LdxMsh => LoadStays(pkt, p.k, 1);
    case _ =>
  }

  lemma {:induction false} PlainRuns(f: seq<Insn>, m: Machine, pkt: Packet, wide: (U32, U32) -> U32)
    requires 0 <= m.pc && |m.mem| == MEMWORDS && |pkt.data| < 0x8000_0000
    requires forall i :: 0 <= i < |f| ==> PlainLoad(f[i])
    ensures Run(f, m, pkt, wide) != NoSuchOctet
    decreases |f| - m.pc
  {
    if m.pc < |f| {
      PlainLoadStays(f[m.pc], m, pkt, wide);
      StepGoesOn(f[m.pc], m, pkt, wide);
      hide Step, PlainLoad;
      var o := Step(f[m.pc], m, pkt, wide);
      if o.Next? {
        PlainRuns(f, o.m, pkt, wide);
      }
    }
  }

  // The validator's test for a constant divisor never fires: in the code of a division by a constant, bit 4 belongs to
  // the operation but is read as part of the operand's kind.
  lemma ConstantZeroIsAccepted(m: Machine, pkt: Packet, wide: (U32, U32) -> U32)
    requires m.pc == 0 && |m.mem| == MEMWORDS
    ensures var f := [Insn(0x34, 0, 0, 0), Insn(0x06, 0, 0, 0)]; Accepted(f) && Run(f, m, pkt, wide) == DivisionByZero
  {
    assert Decode(0x34) == AluOp(Div, false) && Rval(0x34) == 16;
  }

  // A backward jump passes the wrapped test and then leaves the program.
  lemma BackwardIsAccepted(m: Machine, pkt: Packet, wide: (U32, U32) -> U32)
    requires m.pc == 0 && |m.mem| == MEMWORDS
    ensures var f := [Insn(0x05, 0, 0, 0xFFFF_FFFF), Insn(0x06, 0, 0, 0)];
            Accepted(f) && Run(f, m, pkt, wide) == LeftProgram
  {
    assert Decode(0x05) == Ja && Wrap(0x1_0000_0000) == 0;
  }

  // A code the interpreter has no case for.
  lemma UnknownIsAccepted(m: Machine, pkt: Packet, wide: (U32, U32) -> U32)
    requires m.pc == 0 && |m.mem| == MEMWORDS
    ensures var f := [Insn(0x08, 0, 0, 0), Insn(0x06, 0, 0, 0)]; Accepted(f) && Run(f, m, pkt, wide) == Abort
  {
    assert Decode(0x08) == Unknown;
  }

  // bpf_filter from its first instruction. A null program accepts everything; `scratch` is what the stack held.
  method Filter(f: seq<Insn>, pkt: Packet, wide: (U32, U32) -> U32, scratch: seq<U32>) returns (result: Outcome)
    requires |scratch| == MEMWORDS
    ensures result == Run(f, Machine(0, 0, 0, scratch), pkt, wide)
  {
    hide Step, Run;
    var mem := new U32[MEMWORDS](i requires 0 <= i < MEMWORDS => scratch[i]);
    assert mem[..] == scratch;
    var a, x, pc: int := 0, 0, 0;
    while pc < |f|
      invariant 0 <= pc && Run(f, Machine(pc, a, x, mem[..]), pkt, wide) == Run(f, Machine(0, 0, 0, scratch), pkt, wide)
      decreases |f| - pc
    {
      ghost var m := Machine(pc, a, x, mem[..]);
      RunStep(f, m, pkt, wide);
      StepGoesOn(f[pc], m, pkt, wide);
      var end;
      end, pc, a, x := Execute(f[pc], pc, a, x, mem, pkt, wide);
      if end.Some? {
        return end.value;
      }
    }
    RunOut(f, Machine(pc, a, x, mem[..]), pkt, wide);
    result := LeftProgram;
  }

  lemma RunStep(f: seq<Insn>, m: Machine, pkt: Packet, wide: (U32, U32) -> U32)
    requires |m.mem| == MEMWORDS && 0 <= m.pc < |f|
    ensures var o := Step(f[m.pc], m, pkt, wide);
            if o.Next? then m.pc < o.m.pc && |o.m.mem| == MEMWORDS && Run(f, m, pkt, wide) == Run(f, o.m, pkt, wide)
            else Run(f, m, pkt, wide) == o
  {
    StepGoesOn(f[m.pc], m, pkt, wide);
    hide Step;
  }

  lemma RunOut(f: seq<Insn>, m: Machine, pkt: Packet, wide: (U32, U32) -> U32)
    requires |m.mem| == MEMWORDS && |f| <= m.pc && 0 <= m.pc
    ensures Run(f, m, pkt, wide) == LeftProgram
  {
  }

  // One turn of the switch: the registers afterwards, or the end of the run.
  method Execute(p: Insn, pc0: int, a0: U32, x0: U32, mem: array<U32>, pkt: Packet, wide: (U32, U32) -> U32)
    returns (end: Option<Outcome>, pc: int, a: U32, x: U32)
    requires mem.Length == MEMWORDS
    modifies mem
    ensures var o := Step(p, Machine(pc0, a0, x0, old(mem[..])), pkt, wide);
            if end.Some? then !o.Next? && o == end.value else o == Next(Machine(pc, a, x, mem[..]))
  {
    hide LoadAt, AluValue, Wrap, Taken, Decode;
    end, pc, a, x := None, pc0 + 1, a0, x0;
    match Decode(p.code) {
      case RetK => end := Some(Return(p.k));
      case RetA => end := Some(Return(a));
      case LdAbs(size) =>
        if size <= 0 {
          end := Some(Abort);
        } else {
          end, a := Fetch(pkt, p.k, size, a);
        }
      case LdInd(size) =>
        if size <= 0 {
          end := Some(Abort);
        } else {
          end, a := Fetch(pkt, Wrap(x + p.k), size, a);
        }
      case LdLen => a := pkt.wirelen;
      case LdxLen => x := pkt.wirelen;
      case LdxMsh =>
        var octet;
        end, octet := Fetch(pkt, p.k, 1, x);
        if end == None {
          x := octet % 16 * 4;
        }
      case LdImm => a := p.k;
      case LdxImm => x := p.k;
      case LdMem => if p.k < MEMWORDS { a := mem[p.k]; } else { end := Some(NoSuchWord); }
      case LdxMem => if p.k < MEMWORDS { x := mem[p.k]; } else { end := Some(NoSuchWord); }
      case St => if p.k < MEMWORDS { mem[p.k] := a; } else { end := Some(NoSuchWord); }
      case Stx => if p.k < MEMWORDS { mem[p.k] := x; } else { end := Some(NoSuchWord); }
      case Ja => pc := pc + p.k;
      case Jmp(cond, jx) => pc := pc + (if Taken(cond, a, if jx then x else p.k) then p.jt as int else p.jf as int);
      case AluOp(alu, ax) =>
        var b := if ax then x else p.k;
        if alu == Div && b == 0 {
          end := Some(if ax then Return(0) else DivisionByZero);
        } else {
          a := AluValue(alu, a, b, wide);
        }
      case Neg => a := Wrap(0 - a);
      case Tax => x := a;
      case Txa => a := x;
      case Unknown => end := Some(Abort);
    }
  }

  // A load of `size` octets at k.
  method Fetch(pkt: Packet, k: U32, size: int, was: U32) returns (end: Option<Outcome>, v: U32)
    requires 0 < size
    ensures match LoadAt(pkt, k, size)
            case TooShort => end == Some(Return(0))
            case Missing => end == Some(NoSuchOctet)
            case Got(w) => end == None && v == w
  {
    match LoadAt(pkt, k, size) {
      case TooShort => return Some(Return(0)), was;
      case Missing => return Some(NoSuchOctet), was;
      case Got(w) => return None, w;
    }
  }
}
