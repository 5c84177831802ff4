/** What the values of the packet filter machine are: codes, arithmetic, comparisons, loads, and one whole program. */
module BpfLaws {
  import opened Bytes
  import opened Bpf
  import opened Modular

  // ---------------------------------------------------------------- codes

  function AluBits(alu: Alu): nat {
    match alu
    case Add => 0x00 case Sub => 0x10 case Mul => 0x20 case Div => 0x30
    case Or => 0x40 case And => 0x50 case Lsh => 0x60 case Rsh => 0x70
  }

  function CondBits(c: Cond): nat {
    match c
    case Jeq => 0x10 case Jgt => 0x20 case Jge => 0x30 case Jset => 0x40
  }

  function Source(x: bool): nat { if x then 0x08 else 0x00 }

  function SizeBits(size: int): nat {
    if size == 4 then 0x00 else if size == 2 then 0x08 else 0x10
  }

  predicate HasCode(op: Op) {
    match op
    case LdAbs(size) => size == 1 || size == 2 || size == 4
    case LdInd(size) => size == 1 || size == 2 || size == 4
    case Unknown => false
    case _ => true
  }

  // The code of an operation: the class, and the fields the class has.
  function Encode(op: Op): nat
    requires HasCode(op)
  {
    match op
    case LdImm => 0x00 case LdAbs(size) => 0x20 + SizeBits(size) case LdInd(size) => 0x40 + SizeBits(size)
    case LdMem => 0x60 case LdLen => 0x80
    case LdxImm => 0x01 case LdxMem => 0x61 case LdxLen => 0x81 case LdxMsh => 0xa0 + SizeBits(1) + 0x01
    case St => 0x02 case Stx => 0x03
    case AluOp(alu, ax) => 0x04 + AluBits(alu) + Source(ax)
    case Neg => 0x84
    case Ja => 0x05
    case Jmp(cond, jx) => 0x05 + CondBits(cond) + Source(jx)
    case RetK => 0x06 case RetA => 0x16 case Tax => 0x07 case Txa => 0x87
  }

  // Every operation has one code, and every other code is unknown.
  lemma CodesRoundTrip(code: nat, op: Op)
    ensures HasCode(op) ==> Decode(Encode(op)) == op
    ensures if HasCode(Decode(code)) then Encode(Decode(code)) == code else Decode(code) == Unknown
  {
    hide Decode, Encode, HasCode;
    OpRoundTrip(op);
    CodeRoundTrip(code);
  }

  lemma OpRoundTrip(op: Op)
    ensures HasCode(op) ==> Decode(Encode(op)) == op
  {
    hide DecodeLoad, DecodeAlu, DecodeJump, AluBits, CondBits;
    match op
    case AluOp(alu, ax) => AluRoundTrip(alu, ax);
    case Neg => AluRoundTrip(Add, false);
    case Jmp(cond, jx) => JumpRoundTrip(cond, jx);
    case Ja => JumpRoundTrip(Jeq, false);
    case St | Stx | RetK | RetA | Tax | Txa =>
    case _ => if IsLoad(op) && HasCode(op) { LoadRoundTrip(op); }
  }

  lemma AluRoundTrip(alu: Alu, ax: bool)
    ensures Decode(0x04 + AluBits(alu) + Source(ax)) == AluOp(alu, ax) && Decode(0x84) == Neg
  {
  }

  lemma JumpRoundTrip(cond: Cond, jx: bool)
    ensures Decode(0x05 + CondBits(cond) + Source(jx)) == Jmp(cond, jx) && Decode(0x05) == Ja
  {
  }

  predicate IsLoad(op: Op) {
    || op.LdAbs? || op.LdInd? || op.LdLen? || op.LdxLen? || op.LdxMsh?
    || op.LdImm? || op.LdxImm? || op.LdMem? || op.LdxMem?
  }

  lemma LoadRoundTrip(op: Op)
    requires IsLoad(op) && HasCode(op)
    ensures Decode(Encode(op)) == op
  {
    hide DecodeAlu, DecodeJump;
  }

  ghost predicate Faithful(code: nat, op: Op) {
    if HasCode(op) then Encode(op) == code else op == Unknown
  }

  lemma CodeRoundTrip(code: nat)
    ensures Faithful(code, Decode(code))
  {
    hide DecodeLoad, DecodeAlu, DecodeJump, Faithful;
    LoadFaithful(code);
    AluFaithful(code);
    JumpFaithful(code);
    FewFaithful(code);
  }

  lemma LoadFaithful(code: nat)
    ensures Faithful(code, DecodeLoad(code))
  {
  }

  lemma AluFaithful(code: nat)
    ensures Faithful(code, DecodeAlu(code))
  {
  }

  lemma JumpFaithful(code: nat)
    ensures Faithful(code, DecodeJump(code))
  {
  }

  lemma FewFaithful(code: nat)
    ensures Faithful(code, Unknown) && Faithful(0x02, St) && Faithful(0x03, Stx) && Faithful(0x06, RetK)
    ensures Faithful(0x16, RetA) && Faithful(0x07, Tax) && Faithful(0x87, Txa)
  {
  }

  // ---------------------------------------------------------------- arithmetic and comparisons

  // Addition and subtraction undo each other; without a carry or borrow they are those of the integers.
  lemma AddAndSub(a: U32, b: U32, wide: (U32, U32) -> U32)
    ensures AluValue(Sub, AluValue(Add, a, b, wide), b, wide) == a
    ensures AluValue(Add, AluValue(Sub, a, b, wide), b, wide) == a
    ensures AluValue(Sub, a, b, wide) == if b <= a then a - b else a - b + TWO32
    ensures AluValue(Add, a, b, wide) == if a + b < TWO32 then a + b else a + b - TWO32
  {
    WrapNear(a + b);
    WrapNear(a - b);
    WrapNear(Wrap(a + b) - b);
    WrapNear(Wrap(a - b) + b);
    hide Wrap;
  }

  lemma WrapNear(x: int)
    requires -TWO32 <= x < 2 * TWO32
    ensures Wrap(x) == if x < 0 then x + TWO32 else if x < TWO32 then x else x - TWO32
  {
  }

  lemma DivAndMul(a: U32, b: U32, wide: (U32, U32) -> U32)
    ensures b != 0 ==> var q := AluValue(Div, a, b, wide); q * b <= a < q * b + b
    ensures (AluValue(Mul, a, b, wide) - a * b) % TWO32 == 0
  {
    var q := a * b / TWO32;
    assert Wrap(a * b) - a * b == TWO32 * (0 - q);
    assert TWO32 * (0 - q) % TWO32 == 0;
  }

  function Pow2(n: nat): nat { if n == 0 then 1 else 2 * Pow2(n - 1) }

  // Shifts multiply and divide by a power of two.
  lemma {:induction false} ShiftLeftIs(a: U32, n: nat)
    ensures ShiftLeft(a, n) == Wrap(a * Pow2(n))
    decreases n
  {
    if n > 0 {
      ShiftLeftIs(Wrap(2 * a), n - 1);
      WrapTimes(2 * a, Pow2(n - 1));
      assert 2 * a * Pow2(n - 1) == a * Pow2(n);
    } else {
      WrapId(a);
    }
  }

  lemma WrapTimes(x: int, k: nat)
    ensures Wrap(Wrap(x) * k) == Wrap(x * k)
  {
    var q := x / TWO32;
    assert x == TWO32 * q + Wrap(x);
    assert x * k == Wrap(x) * k + TWO32 * (q * k);
    assert (Wrap(x) * k + TWO32 * (q * k)) % TWO32 == (Wrap(x) * k) % TWO32;
  }

  lemma {:induction false} ShiftRightIs(a: U32, n: nat)
    ensures 0 < Pow2(n) && ShiftRight(a, n) == a / Pow2(n)
    decreases n
  {
    if n > 0 {
      ShiftRightIs(a / 2, n - 1);
      HalfDiv(a, Pow2(n - 1));
    }
  }

  lemma HalfDiv(a: nat, k: nat)
    requires 0 < k
    ensures a / 2 / k == a / (2 * k)
  {
    var q := a / (2 * k);
    var r := a - 2 * k * q;
    assert 0 <= r < 2 * k;
    assert a / 2 == q * k + r / 2;
    assert 0 <= r / 2 < k;
    Quotient(a / 2, k, q, r / 2);
  }

  lemma Quotient(x: nat, k: nat, q: nat, r: nat)
    requires 0 < k && x == q * k + r && r < k
    ensures x / k == q
  {
    var p := x / k;
    assert x == p * k + x % k;
    if p < q {
      MulGap(p, q, k);
    } else if q < p {
      MulGap(q, p, k);
    }
  }

  // The comparisons are those of unsigned numbers: exactly one of greater, equal and less.
  lemma Comparisons(a: U32, b: U32)
    ensures Taken(Jeq, a, b) <==> a == b
    ensures !Taken(Jeq, a, b) ==> (Taken(Jgt, a, b) <==> !Taken(Jgt, b, a))
    ensures Taken(Jeq, a, b) ==> !Taken(Jgt, a, b) && !Taken(Jgt, b, a)
    ensures Taken(Jge, a, b) <==> !Taken(Jgt, b, a)
    ensures Taken(Jgt, a, 0) <==> a != 0
    ensures a < TWO32 - 1 ==> Taken(Jgt, a + 1, a)
  {
  }

  // Whether bit k is set in both.
  predicate CommonBit(x: bv32, y: bv32, k: bv32)
    requires k < 32
  {
    (x >> k) & (y >> k) & 1 == 1
  }

  ghost predicate ShareBit(x: bv32, y: bv32) { exists k: bv32 :: k < 32 && CommonBit(x, y, k) }

  ghost predicate SharesBit(a: U32, b: U32) { ShareBit(Bits(a), Bits(b)) }

  // A bit mask test, and the And it is a test of, look for a bit that is set in both.
  lemma MaskTest(a: U32, b: U32, wide: (U32, U32) -> U32)
    ensures Taken(Jset, a, b) <==> SharesBit(a, b)
    ensures AluValue(And, a, b, wide) != 0 <==> SharesBit(a, b)
  {
    hide Bits, Number, ShareBit;
    SomeCommonBit(Bits(a), Bits(b));
    ZeroIsZero(Bits(a) & Bits(b));
  }

  lemma ZeroIsZero(x: bv32)
    ensures Number(x) == 0 <==> x == 0
  {
  }

  predicate Bit(x: bv32, k: bv32)
    requires k < 32
  {
    (x >> k) & 1 == 1
  }

  // And and Or go bit by bit.
  lemma BitByBit(a: U32, b: U32, k: bv32, wide: (U32, U32) -> U32)
    requires k < 32
    ensures Bit(Bits(AluValue(And, a, b, wide)), k) <==> Bit(Bits(a), k) && Bit(Bits(b), k)
    ensures Bit(Bits(AluValue(Or, a, b, wide)), k) <==> Bit(Bits(a), k) || Bit(Bits(b), k)
  {
    hide Bits, Number, Bit, AluValue;
    AndAndOr(a, b, wide);
    BitsOf(Bits(a), Bits(b), k);
  }

  lemma AndAndOr(a: U32, b: U32, wide: (U32, U32) -> U32)
    ensures Bits(AluValue(And, a, b, wide)) == Bits(a) & Bits(b)
    ensures Bits(AluValue(Or, a, b, wide)) == Bits(a) | Bits(b)
  {
    hide Bits, Number, Wrap;
    BitsOfNumber(Bits(a) & Bits(b));
    BitsOfNumber(Bits(a) | Bits(b));
  }

  lemma BitsOfNumber(x: bv32)
    ensures Bits(Number(x)) == x
  {
  }

  lemma BitsOf(x: bv32, y: bv32, k: bv32)
    requires k < 32
    ensures (Bit(x & y, k) <==> Bit(x, k) && Bit(y, k)) && (Bit(x | y, k) <==> Bit(x, k) || Bit(y, k))
  {
  }

  lemma SomeCommonBit(x: bv32, y: bv32)
    ensures x & y != 0 <==> ShareBit(x, y)
  {
    if x & y != 0 {
      var k := LowestCommon(x & y);
      CommonIsBit(x, y, k);
      assert CommonBit(x, y, k);
    }
    forall k: bv32 | k < 32 && CommonBit(x, y, k) ensures x & y != 0 {
      CommonIsBit(x, y, k);
    }
    hide CommonBit;
  }

  lemma CommonIsBit(x: bv32, y: bv32, k: bv32)
    requires k < 32
    ensures CommonBit(x, y, k) <==> ((x & y) >> k) & 1 == 1
    ensures CommonBit(x, y, k) ==> x & y != 0
  {
  }

  lemma LowestCommon(z: bv32) returns (k: bv32)
    requires z != 0
    ensures k < 32 && (z >> k) & 1 == 1
  {
    k := 0;
    k := if z & 0xFFFF == 0 then 16 else 0;
    k := if (z >> k) & 0xFF == 0 then k + 8 else k;
    k := if (z >> k) & 0xF == 0 then k + 4 else k;
    k := if (z >> k) & 3 == 0 then k + 2 else k;
    k := if (z >> k) & 1 == 0 then k + 1 else k;
  }

  // ---------------------------------------------------------------- loads

  // A load inside the packet is the number its octets make, the first the most significant.
  lemma LoadIsBigEndian(pkt: Packet, k: U32)
    requires |pkt.data| < 0x8000_0000
    ensures k + 1 <= |pkt.data| ==> LoadAt(pkt, k, 1) == Got(pkt.data[k] as int)
    ensures k + 2 <= |pkt.data| ==> LoadAt(pkt, k, 2) == Got(256 * pkt.data[k] as int + pkt.data[k + 1] as int)
    ensures k + 4 <= |pkt.data| ==>
              LoadAt(pkt, k, 4) == Got(0x100_0000 * pkt.data[k] as int + 0x1_0000 * pkt.data[k + 1] as int
                                       + 0x100 * pkt.data[k + 2] as int + pkt.data[k + 3] as int)
  {
    hide PastEnd, BigEndian, Wrap;
    if k + 1 <= |pkt.data| {
      InsideIsGot(pkt, k, 1);
      BigEndianCons(pkt.data[k..k + 1]);
    }
    if k + 2 <= |pkt.data| {
      InsideIsGot(pkt, k, 2);
      BigEndian2(pkt.data[k..k + 2]);
    }
    if k + 4 <= |pkt.data| {
      InsideIsGot(pkt, k, 4);
      BigEndian4(pkt.data[k..k + 4]);
    }
  }

  lemma InsideIsGot(pkt: Packet, k: U32, size: int)
    requires |pkt.data| < 0x8000_0000 && 0 < size <= 4 && k + size <= |pkt.data|
    ensures BigEndian(pkt.data[k..k + size]) < TWO32
    ensures LoadAt(pkt, k, size) == Got(BigEndian(pkt.data[k..k + size]))
  {
    hide BigEndian;
    BigEndianBound(pkt.data[k..k + size]);
  }

  lemma BigEndianBound(s: seq<Byte>)
    requires |s| <= 4
    ensures BigEndian(s) < TWO32
  {
    if |s| == 4 {
      BigEndian4(s);
    } else if |s| == 3 {
      BigEndian2(s[..2]);
    } else if |s| == 2 {
      BigEndian2(s);
    }
  }

  lemma BigEndianCons(s: seq<Byte>)
    requires |s| == 1
    ensures BigEndian(s) == s[0] as int
  {
    assert s[..0] == [];
  }

  lemma BigEndian2(s: seq<Byte>)
    requires |s| == 2
    ensures BigEndian(s) == 256 * s[0] as int + s[1] as int
  {
    BigEndianCons(s[..1]);
  }

  lemma BigEndian4(s: seq<Byte>)
    requires |s| == 4
    ensures BigEndian(s) == 0x100_0000 * s[0] as int + 0x1_0000 * s[1] as int + 0x100 * s[2] as int + s[3] as int
  {
    BigEndian2(s[..3][..2]);
    assert s[..3][..2] == s[..2];
    assert BigEndian(s[..3]) == 256 * BigEndian(s[..3][..2]) + s[2] as int;
  }

  // ---------------------------------------------------------------- registers and scratch memory

  // What is stored in a scratch word is loaded from it again, into either register, and no other word has changed.
  lemma StoreThenLoad(m: Machine, k: nat, pkt: Packet, wide: (U32, U32) -> U32)
    requires |m.mem| == MEMWORDS && k < MEMWORDS
    ensures var a, x := Step(Insn(0x02, 0, 0, k), m, pkt, wide), Step(Insn(0x03, 0, 0, k), m, pkt, wide);
            && a.Next? && x.Next? && |a.m.mem| == |x.m.mem| == MEMWORDS
            && Step(Insn(0x60, 0, 0, k), a.m.(a := 0), pkt, wide) == Next(a.m.(pc := m.pc + 2))
            && Step(Insn(0x61, 0, 0, k), x.m.(x := 0), pkt, wide) == Next(x.m.(pc := m.pc + 2))
            && (forall j :: 0 <= j < MEMWORDS && j != k ==> a.m.mem[j] == x.m.mem[j] == m.mem[j])
            && (a.m.a, a.m.x) == (x.m.a, x.m.x) == (m.a, m.x)
  {
  }

  // The moves between the registers, the constants, the length, negation, and the header length of an IP packet.
  lemma Moves(m: Machine, k: U32, pkt: Packet, wide: (U32, U32) -> U32)
    requires |m.mem| == MEMWORDS && |pkt.data| < 0x8000_0000
    ensures Step(Insn(0x07, 0, 0, k), m, pkt, wide) == Next(m.(pc := m.pc + 1, x := m.a))
    ensures Step(Insn(0x87, 0, 0, k), m, pkt, wide) == Next(m.(pc := m.pc + 1, a := m.x))
    ensures Step(Insn(0x00, 0, 0, k), m, pkt, wide) == Next(m.(pc := m.pc + 1, a := k))
    ensures Step(Insn(0x01, 0, 0, k), m, pkt, wide) == Next(m.(pc := m.pc + 1, x := k))
    ensures Step(Insn(0x80, 0, 0, k), m, pkt, wide) == Next(m.(pc := m.pc + 1, a := pkt.wirelen))
    ensures Step(Insn(0x84, 0, 0, k), m, pkt, wide) ==
            Next(m.(pc := m.pc + 1, a := if m.a == 0 then 0 else TWO32 - m.a))
    ensures k + 1 <= |pkt.data| ==>
              Step(Insn(0xb1, 0, 0, k), m, pkt, wide) == Next(m.(pc := m.pc + 1, x := 4 * (pkt.data[k] as int % 16)))
  {
    hide LoadAt;
    LoadIsBigEndian(pkt, k);
  }

  // ---------------------------------------------------------------- a program

  // The filter for IPv4: the EtherType, at octet 12, is 0x0800.
  const IPV4 := [Insn(0x28, 0, 0, 12), Insn(0x15, 0, 1, 0x800), Insn(0x06, 0, 0, 0xFFFF), Insn(0x06, 0, 0, 0)]

  lemma IPv4IsAccepted()
    ensures Accepted(IPV4)
  {
  }

  // It accepts exactly the packets that have that EtherType.
  lemma AcceptsIPv4(pkt: Packet, wide: (U32, U32) -> U32, scratch: seq<U32>)
    requires |scratch| == MEMWORDS && |pkt.data| < 0x8000_0000
    ensures Run(IPV4, Machine(0, 0, 0, scratch), pkt, wide) ==
            Return(if 14 <= |pkt.data| && pkt.data[12] == 8 && pkt.data[13] == 0 then 0xFFFF else 0)
  {
    hide Run, LoadAt, PastEnd, AluValue;
    var m := Machine(0, 0, 0, scratch);
    RunStep(IPV4, m, pkt, wide);
    LoadStays(pkt, 12, 2);
    LoadIsBigEndian(pkt, 12);
    if 14 <= |pkt.data| {
      var v := 256 * pkt.data[12] as int + pkt.data[13] as int;
      var m1 := m.(pc := 1, a := v);
      assert Step(IPV4[0], m, pkt, wide) == Next(m1);
      RunStep(IPV4, m1, pkt, wide);
      var m2 := m1.(pc := if v == 0x800 then 2 else 3);
      RunStep(IPV4, m2, pkt, wide);
    }
  }
}
