/** What a step does, read off the bytes at rip: registers by their numbers, addresses and lengths by the
    ModR/M, SIB and REX fields, and nothing else. */
module Effects {
  import opened Words
  import opened Bits
  import opened Memory
  import opened Instructions
  import opened Execution
  import opened Manual
  import UserStrings
  import Paths
  import Lfs

  // ---------------------------------------------------------------- registers by number

  /** The registers in the order of their numbers; 11, 14 and 15 are not there. */
  function Regs(c: CpuState): (r: seq<u64>)
    ensures |r| == 16
  {
    [c.rax, c.rcx, c.rdx, c.rbx, c.rsp, c.rbp, c.rsi, c.rdi, c.r8, c.r9, c.r10, 0, c.r12, c.r13, 0, 0]
  }

  function Cpu(regs: seq<u64>, rip: u64, zf: bool, sf: bool): CpuState
    requires |regs| == 16
  {
    CpuState(rax := regs[0], rcx := regs[1], rdx := regs[2], rbx := regs[3], rsp := regs[4], rbp := regs[5],
             rsi := regs[6], rdi := regs[7], r8 := regs[8], r9 := regs[9], r10 := regs[10], r12 := regs[12],
             r13 := regs[13], rip := rip, zf := zf, sf := sf)
  }

  function Number(r: Reg): nat {
    match r
    case RAX => 0 case RCX => 1 case RDX => 2 case RBX => 3 case RSP => 4 case RBP => 5 case RSI => 6 case RDI => 7
    case R8 => 8 case R9 => 9 case R10 => 10 case R12 => 12 case R13 => 13
  }

  lemma {:induction false} NumbersAgree(n: int, r: Reg)
    requires Numbered(n) == Some(r)
    ensures Number(r) == n
  {
  }

  lemma {:induction false} SetByNumber(c: CpuState, r: Reg, v: u64, rip: u64)
    ensures Get(c, r) == Regs(c)[Number(r)]
    ensures Set(c, r, v).(rip := rip) == Cpu(Regs(c)[Number(r) := v], rip, c.zf, c.sf)
  {
  }

  /** The machine after register n has received v and rip has moved on by len. */
  function Wrote(m: Machine, n: nat, v: u64, len: nat): Machine
    requires n < 16
  {
    Machine(Cpu(Regs(m.cpu)[n := v], (m.cpu.rip + len) % 0x1_0000_0000_0000_0000, m.cpu.zf, m.cpu.sf), m.mem)
  }

  /** The machine after nothing but rip has moved on by len. */
  function Passed(m: Machine, len: nat): Machine {
    Machine(Cpu(Regs(m.cpu), (m.cpu.rip + len) % 0x1_0000_0000_0000_0000, m.cpu.zf, m.cpu.sf), m.mem)
  }

  // ---------------------------------------------------------------- which encodings there are

  /** The interpreter's encodings. */
  predicate Supported(b: window) {
    if b[0] == 0x48 then
      || (b[1] == 0x63 && b[2] == 0xC6)
      || (b[1] == 0x89 && b[2] in {0xC5, 0xE5, 0xEC, 0xC7, 0xF8, 0xD7, 0xD6, 0xE7, 0xE2, 0xE6})
      || (b[1] in {0x89, 0x8B, 0x8D} && b[2] == 0x7C && b[3] == 0xC2 && b[4] == 0x08)
      || (b[1] == 0x8D && ((b[2] / 64 == 1 && b[2] % 8 != 4) || b[2] in {0x3D, 0x35}))
      || (b[1] == 0x8B && b[2] == 0x37)
      || (b[1] == 0x83 && ((b[2] / 64 == 3 && b[2] / 8 % 8 in {0, 1, 5}) || b[2] == 0xE4))
      || (b[1] == 0x81 && b[2] / 64 == 3 && b[2] / 8 % 8 in {0, 1, 5})
      || (b[1] == 0x31 && b[2] == 0xED) || (b[1] == 0x85 && b[2] in {0xC0, 0xD2})
      || (b[1] == 0x0F && b[2] == 0x49 && b[3] == 0xD0) || (b[1] == 0xC7 && b[2] in {0xC0, 0xC7, 0xC6, 0xC2})
    else if b[0] == 0x4C then
      || (b[1] == 0x89 && b[2] in {0xC2, 0xCE})
      || (b[1] == 0x8D && ((b[2] / 64 == 1 && b[2] % 8 != 4) || (b[2] == 0x4C && b[3] == 0x24) || b[2] in {0x05, 0x0D}))
    else if b[0] == 0x49 then b[1] == 0x89 && b[2] in {0xFD, 0xD1, 0xD0}
    else if b[0] == 0x41 then b[1] in {0x55, 0x5D, 0x54, 0x5C} || 0xB8 <= b[1] <= 0xBF
    else if b[0] == 0x43 then b[1] == 0x8A && b[2] == 0x44 && b[3] == 0x01 && b[4] == 0xFF
    else if b[0] == 0x45 then b[1] == 0x31 && b[2] in {0xC0, 0xC9, 0xD2}
    else if b[0] == 0x8B then b[1] % 8 != 4 && (b[1] / 64 == 1 || (b[1] / 64 == 0 && b[1] % 8 != 5))
    else if b[0] == 0xC7 then
      (b[1] / 64 == 1 && b[1] / 8 % 8 == 0 && b[1] % 8 != 4) || (b[1] == 0x44 && b[2] == 0x24)
    else if b[0] == 0x31 then b[1] in {0xED, 0xC9, 0xD2, 0xC0, 0xFF}
    else if b[0] == 0x0F then b[1] == 0x05
    else if b[0] == 0xFF then b[1] == 0x15
    else if b[0] == 0xF3 then b[1] == 0x0F && b[2] == 0x1E && b[3] == 0xFA
    else b[0] in {0x90, 0xC3, 0xF4, 0x53, 0x5B, 0x55, 0x5D, 0x50, 0x54, 0x5E, 0x3C, 0xE8, 0xE9, 0xEB, 0x74}
         || 0xB8 <= b[0] <= 0xBF
  }

  lemma {:induction false} SupportedW(b: window)
    requires b[0] == 0x48
    ensures DecodeRexW(b).Op? <==> Supported(b)
  {
    hide Imm32;
  }

  /** Exactly these are decoded. */
  lemma {:induction false} SupportedExactly(b: window)
    ensures Decode(b).Op? <==> Supported(b)
  {
    if b[0] == 0x48 {
      SupportedW(b);
    }
    hide Imm32, DecodeRexW, DecodeMovW, DecodeLeaW;
  }

  /** The length of an encoding: prefix, opcode, ModR/M, SIB, displacement and immediate. */
  function Length(b: window): nat {
    var p, o := Start(b), Opcode(b);
    if o / 16 == 5 || o in {0x90, 0xC3, 0xF4} then p + 1
    else if o in {0xEB, 0x74, 0x3C} then p + 2
    else if o / 8 == 0xB8 / 8 || o in {0xE8, 0xE9} then p + 5
    else if o == 0xF3 then 4
    else if o == 0x0F then if p == 1 then 4 else 2
    else
      var mod, rm := ModRm(b) / 64, ModRm(b) % 8;
      p + 2 + (if mod != 3 && rm == 4 then 1 else 0)
      + (if mod == 1 then 1 else if mod == 0 && rm == 5 then 4 else 0)
      + (if o == 0x83 then 1 else if o in {0x81, 0xC7} then 4 else 0)
  }

  /** The last four bytes are an immediate or a displacement that is read from memory on its own. */
  predicate HasLong(b: window) {
    var o := Opcode(b);
    o in {0x81, 0xC7, 0xE8, 0xE9, 0xFF} || o / 8 == 0xB8 / 8 || (o == 0x8D && ModRm(b) / 64 == 0)
  }

  lemma {:induction false} LengthW(b: window)
    requires b[0] == 0x48 && DecodeRexW(b).Op?
    ensures DecodeRexW(b).len == Length(b) && DecodeRexW(b).full == HasLong(b)
  {
    hide Imm32;
  }

  /** The decoder measures as the manual does. */
  lemma {:induction false} LengthExactly(b: window)
    requires Decode(b).Op?
    ensures Decode(b).len == Length(b) && Decode(b).full == HasLong(b)
  {
    if b[0] == 0x48 {
      LengthW(b);
    }
    hide Imm32, DecodeRexW, DecodeMovW, DecodeLeaW;
  }

  lemma {:induction false} Parts(b: window)
    ensures !(0x40 <= b[0] <= 0x4F) ==>
              Start(b) == 0 && Opcode(b) == b[0] && ModRm(b) == b[1] && Sib(b) == b[2] && RexX(b) == 0 && RexB(b) == 0
    ensures 0x40 <= b[0] <= 0x4F ==> Start(b) == 1 && Opcode(b) == b[1] && ModRm(b) == b[2] && Sib(b) == b[3]
    ensures b[0] == 0x48 ==> RexX(b) == 0 && RexB(b) == 0 && RexR(b) == 0
  {
  }

  // ---------------------------------------------------------------- fetching

  /** b is the eight bytes at rip, zero where memory ends. */
  predicate Fetched(base: u64, m: Machine, b: window) {
    && base <= m.cpu.rip < base + |m.mem|
    && forall k :: 0 <= k < 8 ==>
                     b[k] == if m.cpu.rip - base + k < |m.mem| then m.mem[m.cpu.rip - base + k] else 0
  }

  /** The last four of len bytes at rip are in memory, and their address does not wrap. */
  predicate LongReadable(base: u64, m: Machine, len: nat) {
    m.cpu.rip - base + len <= |m.mem| && m.cpu.rip + len < 0x1_0000_0000_0000_0004
  }

  predicate Ready(base: u64, m: Machine, b: window) {
    Fetched(base, m, b) && Supported(b) && (HasLong(b) ==> LongReadable(base, m, Length(b)))
  }

  lemma {:induction false} FetchedIsWindow(base: u64, m: Machine, b: window)
    requires Fetched(base, m, b)
    ensures VaToIndex(base, |m.mem|, m.cpu.rip) == Some(m.cpu.rip - base) && b == Window(m.mem, m.cpu.rip - base)
  {
    assert b == Window(m.mem, m.cpu.rip - base);
  }

  /** Outside memory a step fails. */
  lemma {:induction false} OutsideMeaning(base: u64, m: Machine, reply: Reply)
    requires !(base <= m.cpu.rip < base + |m.mem|)
    ensures Step(base, m, reply) == Fault(AddressOutOfRange)
  {
  }

  /** So it does on an immediate that cannot be read. */
  lemma {:induction false} TruncatedMeaning(base: u64, m: Machine, b: window, reply: Reply)
    requires Fetched(base, m, b) && Supported(b) && HasLong(b) && !LongReadable(base, m, Length(b))
    ensures Step(base, m, reply) == Fault(AddressOutOfRange)
  {
    hide *;
    SupportedExactly(b);
    LengthExactly(b);
    StepCarries(base, m, b, reply);
    CarryRefuses(base, m, m.cpu.rip - base, b, Decode(b), reply);
  }

  lemma {:induction false} CarryRefuses(base: u64, m: Machine, i: nat, b: window, d: Decoded, reply: Reply)
    requires m.cpu.rip >= base && i == m.cpu.rip - base
    ensures d.Op? && d.full && !LongReadable(base, m, d.len) ==>
              Carry(base, m, i, b, d, reply) == Fault(AddressOutOfRange)
    ensures d.Unknown? ==>
              Carry(base, m, i, b, d, reply) ==
              if d.full && !LongReadable(base, m, 7) then Fault(AddressOutOfRange)
              else Fault(UnsupportedInstruction(m.cpu.rip, b))
  {
    hide Execute;
  }

  /** And on every other encoding, naming the address and the bytes; one group reads its immediate first. */
  lemma {:induction false} UnsupportedMeaning(base: u64, m: Machine, b: window, reply: Reply)
    requires Fetched(base, m, b) && !Supported(b)
    ensures Step(base, m, reply) ==
            if b[0] == 0x48 && b[1] == 0x81 && b[2] / 64 == 3 && !LongReadable(base, m, 7)
            then Fault(AddressOutOfRange) else Fault(UnsupportedInstruction(m.cpu.rip, b))
  {
    hide *;
    SupportedExactly(b);
    UnknownLong(b);
    StepCarries(base, m, b, reply);
    CarryRefuses(base, m, m.cpu.rip - base, b, Decode(b), reply);
  }

  lemma {:induction false} UnknownLongW(b: window)
    requires b[0] == 0x48 && !DecodeRexW(b).Op?
    ensures DecodeRexW(b) == Unknown(b[1] == 0x81 && b[2] / 64 == 3)
  {
    hide Imm32;
  }

  lemma {:induction false} UnknownLong(b: window)
    requires !Decode(b).Op?
    ensures Decode(b) == Unknown(b[0] == 0x48 && b[1] == 0x81 && b[2] / 64 == 3)
  {
    if b[0] == 0x48 {
      UnknownLongW(b);
    }
    hide Imm32, DecodeRexW;
  }

  lemma {:induction false} ReadyParts(base: u64, m: Machine, b: window)
    requires Ready(base, m, b)
    ensures Fetched(base, m, b) && Supported(b) && (HasLong(b) ==> LongReadable(base, m, Length(b)))
  {
    hide Fetched, Supported, HasLong, LongReadable, Length;
  }

  /** A step carries out the decoded window. */
  lemma {:induction false} StepCarries(base: u64, m: Machine, b: window, reply: Reply)
    requires Fetched(base, m, b)
    ensures m.cpu.rip >= base
    ensures Step(base, m, reply) == Carry(base, m, m.cpu.rip - base, b, Decode(b), reply)
  {
    FetchedIsWindow(base, m, b);
    hide Carry, Decode, Window;
  }

  lemma {:induction false} CarryExecutes(base: u64, m: Machine, i: nat, b: window, d: Decoded, reply: Reply)
    requires m.cpu.rip >= base && i == m.cpu.rip - base && d.Op? && (d.full ==> LongReadable(base, m, d.len))
    ensures Carry(base, m, i, b, d, reply) == Execute(base, m, d.instr, Wrap64(m.cpu.rip + d.len), reply)
  {
    hide Execute;
  }

  lemma {:induction false} StepExecutes(base: u64, m: Machine, b: window, reply: Reply)
    requires Ready(base, m, b)
    ensures Supported(b) && Decode(b).Op? && Follows(b, Decode(b).instr)
    ensures Step(base, m, reply) == Execute(base, m, Decode(b).instr, Wrap64(m.cpu.rip + Length(b)), reply)
  {
    hide *;
    ReadyParts(base, m, b);
    SupportedExactly(b);
    LengthExactly(b);
    DecodeFollows(b);
    StepCarries(base, m, b, reply);
    CarryExecutes(base, m, m.cpu.rip - base, b, Decode(b), reply);
  }

  // ---------------------------------------------------------------- operands

  function RegNumber(b: window): (n: nat)
    ensures n < 16
  {
    ModRm(b) / 8 % 8 + 8 * RexR(b)
  }

  function RmNumber(b: window): (n: nat)
    ensures n < 16
  {
    ModRm(b) % 8 + 8 * RexB(b)
  }

  function OpcodeNumber(b: window): (n: nat)
    ensures n < 16
  {
    Opcode(b) % 8 + 8 * RexB(b)
  }

  function Sx8(x: byte): int { if x < 0x80 then x else x - 0x100 }
  function Sx32(x: u32): int { if x < 0x8000_0000 then x else x - 0x1_0000_0000 }

  function Le32(b: window, o: nat): u32
    requires o + 4 <= 8
  {
    (b[o] as int) + 0x100 * (b[o + 1] as int) + 0x1_0000 * (b[o + 2] as int) + 0x100_0000 * (b[o + 3] as int)
  }

  function Mod64(x: int): u64 { x % 0x1_0000_0000_0000_0000 }

  /** The address a memory operand denotes. */
  function Address(c: CpuState, b: window): u64 {
    var mod, rm, p := ModRm(b) / 64, ModRm(b) % 8, Start(b);
    var r := Regs(c);
    if mod == 0 && rm == 5 then Mod64(c.rip + Length(b) + Sx32(Le32(b, p + 2)))
    else if mod == 0 then r[RmNumber(b)]
    else if rm != 4 then Mod64(r[RmNumber(b)] + Sx8(b[p + 2]))
    else
      var scale, index := Sib(b) / 64, Sib(b) / 8 % 8 + 8 * RexX(b);
      var at := r[Sib(b) % 8 + 8 * RexB(b)];
      Mod64(at + (if index == 4 then 0 else r[index] * [1, 2, 4, 8][scale]) + Sx8(b[p + 3]))
  }

  // ---------------------------------------------------------------- the instruction behind an opcode

  /** The decoded instruction of an opcode with two register operands. */
  lemma {:induction false} RegisterForms(b: window)
    requires Supported(b) && Decode(b).Op? && Follows(b, Decode(b).instr)
    ensures Opcode(b) == 0x89 && ModRm(b) / 64 == 3 ==>
              var i := Decode(b).instr;
              i.Mov? && Number(i.dst) == RmNumber(b) && Number(i.src) == RegNumber(b) && Length(b) == 3
    ensures Opcode(b) == 0x31 ==> var i := Decode(b).instr; i.Zero? && Number(i.dst) == RmNumber(b)
    ensures Opcode(b) == 0x85 ==>
              var i := Decode(b).instr; i.Test? && Number(i.src) == RmNumber(b) && Length(b) == 3
    ensures Opcode(b) == 0x63 ==> Decode(b).instr == SignExtendEsi && Length(b) == 3
  {
    hide Decode, Supported, Imm32;
  }

  /** And of an opcode that names its register itself. */
  lemma {:induction false} OpcodeForms(b: window)
    requires Supported(b) && Decode(b).Op? && Follows(b, Decode(b).instr)
    ensures Opcode(b) / 8 == 0x50 / 8 ==> var i := Decode(b).instr; i.Push? && Number(i.src) == OpcodeNumber(b)
    ensures Opcode(b) / 8 == 0x58 / 8 ==> var i := Decode(b).instr; i.Pop? && Number(i.dst) == OpcodeNumber(b)
    ensures Opcode(b) == 0x90 || Opcode(b) == 0xF3 ==> Decode(b).instr == Nop
    ensures Opcode(b) == 0xC3 || Opcode(b) == 0xF4 ==> Decode(b).instr == Stop
    ensures Opcode(b) == 0x3C ==> Decode(b).instr == CmpAl(b[1])
    ensures Opcode(b) == 0x0F && b[0] == 0x48 ==> Decode(b).instr == MoveIfNotSign && Length(b) == 4
    ensures Opcode(b) == 0x0F && b[0] == 0x0F ==> Decode(b).instr == Syscall && Length(b) == 2
  {
    hide Decode, Imm32;
  }

  lemma {:induction false} ImmediatesAgree(b: window, o: nat)
    requires o + 4 <= 8
    ensures Imm32(b, o) == Le32(b, o) && Signed32(Imm32(b, o)) == Sx32(Le32(b, o))
    ensures forall x: byte :: Signed8(x) == Sx8(x)
  {
  }

  /** The immediate operand of opcodes 83 and 81. */
  function AluImmediate(b: window): int {
    if Opcode(b) == 0x83 then Sx8(b[3]) else Sx32(Le32(b, 3))
  }

  lemma {:induction false} AluForms(b: window)
    requires Supported(b) && Decode(b).Op? && Follows(b, Decode(b).instr) && Opcode(b) in {0x83, 0x81}
    ensures b[0] == 0x48
    ensures var i, digit := Decode(b).instr, ModRm(b) / 8 % 8;
            if digit == 4 then i == AndRsp(AluImmediate(b)) && RmNumber(b) == 4
            else && i.Alu? && digit == (match i.op case Add => 0 case Or => 1 case Sub => 5)
                 && Number(i.dst) == RmNumber(b) && i.imm == AluImmediate(b)
  {
    ImmediatesAgree(b, 3);
    hide Decode, Imm32, Signed32, Sx32, Le32, Signed8, Sx8;
  }

  /** The registers to which no lea, immediate move or 32-bit load stores. */
  predicate LeaDrops(n: nat) { n in {1, 3, 4} || n >= 10 }
  predicate MoveDrops(n: nat) { n == 3 || n >= 10 }
  predicate LoadDrops(n: nat) { n in {3, 4, 5} }

  /** Some(register of number n), unless it is dropped. */
  predicate Targets(to: Option<Reg>, n: nat, dropped: bool) {
    if dropped then to == None else to.Some? && Number(to.value) == n
  }

  lemma {:induction false} LeaForms(b: window)
    requires Supported(b) && Decode(b).Op? && Follows(b, Decode(b).instr) && Opcode(b) == 0x8D
    ensures RexX(b) == 0 && RexB(b) == 0 && Start(b) == 1
    ensures var i, mod, rm := Decode(b).instr, ModRm(b) / 64, ModRm(b) % 8;
            if b[2] == 0x7C && b[0] == 0x48 then i == LeaTable && b[3] == 0xC2 && b[4] == 0x08 && RegNumber(b) == 7
            else if mod == 0 then
              && rm == 5 && i.LeaRip? && Number(i.dst) == RegNumber(b) && i.disp == Sx32(Le32(b, 3))
              && !LeaDrops(RegNumber(b))
            else if rm == 4 then
              mod == 1 && b[3] == 0x24 && RegNumber(b) == 9 && i == Lea(Some(R9), RSP, Sx8(b[4]))
            else
              && mod == 1 && i.Lea? && Targets(i.to, RegNumber(b), LeaDrops(RegNumber(b)))
              && Number(i.at) == RmNumber(b) && i.disp == Sx8(b[3])
  {
    ImmediatesAgree(b, 3);
    hide Imm32, Signed32, Sx32, Le32, DecodeMovW, DecodeLoad32, DecodeStore32, DecodePlain, DecodeRexOther;
  }

  lemma {:induction false} LoadForms(b: window)
    requires Supported(b) && Decode(b).Op? && Follows(b, Decode(b).instr) && Opcode(b) == 0x8B
    ensures RexX(b) == 0 && RexB(b) == 0 && RexR(b) == 0
    ensures var i, mod, rm := Decode(b).instr, ModRm(b) / 64, ModRm(b) % 8;
            if b[0] == 0x48 && b[2] == 0x7C then i == LoadTable && b[3] == 0xC2 && b[4] == 0x08
            else if b[0] == 0x48 then i == Load64(RSI, RDI) && b[2] == 0x37
            else
              && b[0] == 0x8B && i.Load32? && rm != 4 && (mod == 1 || (mod == 0 && rm != 5))
              && Targets(i.to, RegNumber(b), LoadDrops(RegNumber(b))) && Number(i.at) == RmNumber(b)
              && i.disp == if mod == 1 then Sx8(b[2]) else 0
  {
    ImmediatesAgree(b, 3);
    hide Imm32, Signed32, Sx32, Le32, DecodeMovW, DecodeLeaW, DecodeStore32, DecodePlain, DecodeRexOther, DecodeRexWR;
  }

  lemma {:induction false} StoreForms(b: window)
    requires Supported(b) && Decode(b).Op? && Follows(b, Decode(b).instr)
    ensures Opcode(b) == 0x89 && ModRm(b) / 64 == 1 ==>
              Decode(b).instr == StoreTable && b[0] == 0x48 && b[2] == 0x7C && b[3] == 0xC2 && b[4] == 0x08
    ensures b[0] == 0xC7 ==>
              var i := Decode(b).instr;
              && i.Store32? && i.word == Le32(b, Length(b) - 4)
              && (if b[1] % 8 == 4 then i.at == RSP && i.disp == Sx8(b[3]) && b[1] == 0x44 && b[2] == 0x24
                  else b[1] / 64 == 1 && Number(i.at) == b[1] % 8 && i.disp == Sx8(b[2]))
  {
    ImmediatesAgree(b, 3);
    ImmediatesAgree(b, 4);
    hide Imm32, Signed32, Sx32, Le32, DecodeLeaW, DecodePlain, DecodeRexOther, DecodeLoad32;
  }

  lemma {:induction false} ImmediateForms(b: window)
    requires Supported(b) && Decode(b).Op? && Follows(b, Decode(b).instr)
    ensures Opcode(b) / 8 == 0xB8 / 8 ==>
              var i := Decode(b).instr;
              && i.MovImm? && i.word == Le32(b, Start(b) + 1)
              && Targets(i.to, OpcodeNumber(b), MoveDrops(OpcodeNumber(b)))
    ensures b[0] == 0x48 && b[1] == 0xC7 ==>
              var i := Decode(b).instr;
              i.MovImm? && i.word == Le32(b, 3) && i.to.Some? && Number(i.to.value) == RmNumber(b)
  {
    ImmediatesAgree(b, 1);
    ImmediatesAgree(b, 2);
    ImmediatesAgree(b, 3);
    hide Imm32, Signed32, Sx32, Le32, DecodeMovW, DecodeLeaW, DecodeStore32, DecodeLoad32, DecodeRexWR;
  }

  lemma {:induction false} BranchForms(b: window)
    requires Supported(b) && Decode(b).Op? && Follows(b, Decode(b).instr)
    ensures Opcode(b) == 0xE8 ==> Decode(b).instr == Call(Sx32(Le32(b, 1)))
    ensures Opcode(b) == 0xE9 ==> Decode(b).instr == Jump(Sx32(Le32(b, 1)))
    ensures Opcode(b) == 0xEB ==> Decode(b).instr == Jump(Sx8(b[1]))
    ensures Opcode(b) == 0x74 ==> Decode(b).instr == JumpIfZero(Sx8(b[1]))
    ensures Opcode(b) == 0xFF ==> Decode(b).instr == CallIndirect(Sx32(Le32(b, 2)))
    ensures Opcode(b) == 0x8A ==> Decode(b).instr == LoadAl
  {
    ImmediatesAgree(b, 1);
    ImmediatesAgree(b, 2);
    hide Imm32, Signed32, Sx32, Le32, Decode;
  }

  // ---------------------------------------------------------------- executing by number

  lemma {:induction false} WrapIsMod(a: int)
    ensures Wrap64(a) == Mod64(a)
  {
  }

  lemma {:induction false} WrapAgain(a: int, b: int)
    ensures Wrap64(Wrap64(a) + b) == Mod64(a + b)
  {
  }

  /** An instruction that writes one register, in terms of its number. */
  lemma {:induction false} ExecuteSet(base: u64, m: Machine, i: Instr, len: nat, reply: Reply, r: Reg, v: u64)
    requires KindOf(i) == Computes && Compute(m.cpu, i, Wrap64(m.cpu.rip + len)) == Set(m.cpu, r, v)
    ensures Execute(base, m, i, Wrap64(m.cpu.rip + len), reply) == Running(Wrote(m, Number(r), v, len))
  {
    SetByNumber(m.cpu, r, v, Wrap64(m.cpu.rip + len));
    hide Compute, Set, Regs, Cpu;
  }

  lemma {:induction false} ExecuteNothing(base: u64, m: Machine, i: Instr, len: nat, reply: Reply)
    requires KindOf(i) == Computes && Compute(m.cpu, i, Wrap64(m.cpu.rip + len)) == m.cpu
    ensures Execute(base, m, i, Wrap64(m.cpu.rip + len), reply) == Running(Passed(m, len))
  {
    hide Compute;
  }

  /** A load into a register, or into none. */
  lemma {:induction false} ExecuteLoad(
    base: u64, m: Machine, i: Instr, len: nat, reply: Reply, v: Option<u64>, to: Option<Reg>)
    requires KindOf(i) == Loads && Load(base, m.mem, m.cpu, i) == Loaded(m.cpu, v, to)
    ensures Execute(base, m, i, Wrap64(m.cpu.rip + len), reply) ==
            if v == None then Fault(AddressOutOfRange)
            else if to == None then Running(Passed(m, len))
            else Running(Wrote(m, Number(to.value), v.value, len))
  {
    if v.Some? && to.Some? {
      SetByNumber(m.cpu, to.value, v.value, Wrap64(m.cpu.rip + len));
      hide Load, Regs, Cpu, Set;
    } else {
      hide Load, Set;
    }
  }

  /** The machine after v has been stored below rsp and execution goes on at rip; a fault if it cannot be. */
  function Pushed(base: u64, m: Machine, v: u64, rip: u64): Outcome {
    if m.cpu.rsp < 8 then Fault(AddressOutOfRange)
    else match WriteWord(base, m.mem, m.cpu.rsp - 8, 8, v)
    case None => Fault(AddressOutOfRange)
    case Some(mem') => Running(Machine(Cpu(Regs(m.cpu)[4 := m.cpu.rsp - 8], rip, m.cpu.zf, m.cpu.sf), mem'))
  }

  lemma {:induction false} PushByNumber(base: u64, m: Machine, v: u64, rip: u64)
    ensures PushAnd(base, m, v, rip) == Pushed(base, m, v, rip)
  {
    hide WriteWord;
  }

  // ---------------------------------------------------------------- moves and arithmetic

  /** The register an instruction writes, and the value. */
  lemma {:induction false} SetsMove(c: CpuState, i: Instr, next: u64)
    ensures i.Mov? ==> KindOf(i) == Computes && Compute(c, i, next) == Set(c, i.dst, Get(c, i.src))
    ensures i.Zero? ==> KindOf(i) == Computes && Compute(c, i, next) == Set(c, i.dst, 0)
    ensures i.Alu? ==>
              KindOf(i) == Computes && Compute(c, i, next) == Set(c, i.dst, AluResult(i.op, Get(c, i.dst), i.imm))
    ensures i.AndRsp? ==> KindOf(i) == Computes && Compute(c, i, next) == Set(c, RSP, And64(c.rsp, Wrap64(i.imm)))
    ensures i.MovImm? ==> KindOf(i) == Computes && Compute(c, i, next) == SetIf(c, i.to, i.word)
    ensures i == SignExtendEsi ==>
              KindOf(i) == Computes && Compute(c, i, next) == Set(c, RAX, Wrap64(Signed32(c.rsi % TWO32)))
  {
    hide Set, Get, And64, AluResult;
  }

  /** mov r64, r64. */
  lemma {:induction false} MoveMeaning(base: u64, m: Machine, b: window, reply: Reply)
    requires Ready(base, m, b) && Opcode(b) == 0x89 && ModRm(b) / 64 == 3
    ensures Step(base, m, reply) == Running(Wrote(m, RmNumber(b), Regs(m.cpu)[RegNumber(b)], 3))
  {
    hide *;
    Parts(b);
    StepExecutes(base, m, b, reply);
    RegisterForms(b);
    var i := Decode(b).instr;
    SetByNumber(m.cpu, i.src, 0, 0);
    SetsMove(m.cpu, i, Wrap64(m.cpu.rip + 3));
    ExecuteSet(base, m, i, 3, reply, i.dst, Get(m.cpu, i.src));
  }

  /** xor of a register with itself. */
  lemma {:induction false} ZeroMeaning(base: u64, m: Machine, b: window, reply: Reply)
    requires Ready(base, m, b) && Opcode(b) == 0x31
    ensures Step(base, m, reply) == Running(Wrote(m, RmNumber(b), 0, Length(b)))
  {
    hide *;
    Parts(b);
    StepExecutes(base, m, b, reply);
    RegisterForms(b);
    SetsMove(m.cpu, Decode(b).instr, Wrap64(m.cpu.rip + Length(b)));
    ExecuteSet(base, m, Decode(b).instr, Length(b), reply, Decode(b).instr.dst, 0);
  }

  lemma {:induction false} SignExtended(x: u64)
    ensures Wrap64(Signed32(x % TWO32)) == Mod64(Sx32(x % 0x1_0000_0000)) && Number(RAX) == 0
  {
  }

  lemma {:induction false} ExecuteSignExtend(base: u64, m: Machine, reply: Reply)
    ensures Execute(base, m, SignExtendEsi, Wrap64(m.cpu.rip + 3), reply) ==
            Running(Wrote(m, 0, Mod64(Sx32(m.cpu.rsi % 0x1_0000_0000)), 3))
  {
    SetsMove(m.cpu, SignExtendEsi, Wrap64(m.cpu.rip + 3));
    SignExtended(m.cpu.rsi);
    ExecuteSet(base, m, SignExtendEsi, 3, reply, RAX, Wrap64(Signed32(m.cpu.rsi % TWO32)));
    hide Execute, Wrote;
  }

  /** movsxd rax, esi. */
  lemma {:induction false} SignExtendMeaning(base: u64, m: Machine, b: window, reply: Reply)
    requires Ready(base, m, b) && Opcode(b) == 0x63
    ensures Step(base, m, reply) == Running(Wrote(m, 0, Mod64(Sx32(m.cpu.rsi % 0x1_0000_0000)), 3))
  {
    hide *;
    Parts(b);
    StepExecutes(base, m, b, reply);
    RegisterForms(b);
    ExecuteSignExtend(base, m, reply);
  }

  function AluValue(digit: int, x: u64, imm: int): u64 {
    if digit == 0 then Mod64(x + imm)
    else if digit == 5 then Mod64(x - imm)
    else if digit == 1 then Or64(x, Mod64(imm))
    else And64(x, Mod64(imm))
  }

  lemma {:induction false} AluAgrees(op: AluOp, x: u64, imm: int)
    ensures AluResult(op, x, imm) == AluValue(match op case Add => 0 case Or => 1 case Sub => 5, x, imm)
  {
    hide Or64, And64;
  }

  lemma {:induction false} StackNumber(c: CpuState)
    ensures Number(RSP) == 4 && Get(c, RSP) == c.rsp
  {
  }

  lemma {:induction false} AndAgrees(x: u64, imm: int)
    ensures And64(x, Wrap64(imm)) == AluValue(4, x, imm)
  {
    hide And64;
  }

  /** add, or, and, sub with an immediate; no flag changes. */
  lemma {:induction false} AluMeaning(base: u64, m: Machine, b: window, reply: Reply)
    requires Ready(base, m, b) && Opcode(b) in {0x83, 0x81}
    ensures var v := AluValue(ModRm(b) / 8 % 8, Regs(m.cpu)[RmNumber(b)], AluImmediate(b));
            Step(base, m, reply) == Running(Wrote(m, RmNumber(b), v, Length(b)))
  {
    hide *;
    Parts(b);
    StepExecutes(base, m, b, reply);
    AluForms(b);
    var i := Decode(b).instr;
    SetsMove(m.cpu, i, Wrap64(m.cpu.rip + Length(b)));
    if i.Alu? {
      SetByNumber(m.cpu, i.dst, 0, 0);
      AluAgrees(i.op, Get(m.cpu, i.dst), i.imm);
      ExecuteSet(base, m, i, Length(b), reply, i.dst, AluResult(i.op, Get(m.cpu, i.dst), i.imm));
    } else {
      AndAgrees(m.cpu.rsp, i.imm);
      SetByNumber(m.cpu, RSP, 0, 0);
      StackNumber(m.cpu);
      ExecuteSet(base, m, i, Length(b), reply, RSP, And64(m.cpu.rsp, Wrap64(i.imm)));
    }
  }

  /** The machine with other flags, after len bytes. */
  function Flagged(m: Machine, zf: bool, sf: bool, len: nat): Machine {
    Machine(Cpu(Regs(m.cpu), Mod64(m.cpu.rip + len), zf, sf), m.mem)
  }

  lemma {:induction false} ExecuteTest(base: u64, m: Machine, i: Instr, reply: Reply)
    ensures i.Test? ==>
              Execute(base, m, i, Wrap64(m.cpu.rip + 3), reply) ==
              Running(Flagged(m, Get(m.cpu, i.src) == 0, Get(m.cpu, i.src) >= 0x8000_0000_0000_0000, 3))
    ensures i.CmpAl? ==>
              Execute(base, m, i, Wrap64(m.cpu.rip + 2), reply) ==
              Running(Flagged(m, m.cpu.rax % 0x100 == i.byteImm, (m.cpu.rax % 0x100 - i.byteImm) % 0x100 >= 0x80, 2))
  {
    hide Get;
  }

  /** test of a register with itself: the zero flag and the sign flag. */
  lemma {:induction false} TestMeaning(base: u64, m: Machine, b: window, reply: Reply)
    requires Ready(base, m, b) && Opcode(b) == 0x85
    ensures var x := Regs(m.cpu)[RmNumber(b)];
            Step(base, m, reply) ==
            Running(Flagged(m, x == 0, x >= 0x8000_0000_0000_0000, 3))
  {
    hide *;
    Parts(b);
    StepExecutes(base, m, b, reply);
    RegisterForms(b);
    SetByNumber(m.cpu, Decode(b).instr.src, 0, 0);
    ExecuteTest(base, m, Decode(b).instr, reply);
  }

  /** cmp al, imm8. */
  lemma {:induction false} CompareMeaning(base: u64, m: Machine, b: window, reply: Reply)
    requires Ready(base, m, b) && b[0] == 0x3C
    ensures var al := m.cpu.rax % 0x100;
            Step(base, m, reply) ==
            Running(Flagged(m, al == b[1], (al - b[1]) % 0x100 >= 0x80, 2))
  {
    hide *;
    Parts(b);
    StepExecutes(base, m, b, reply);
    OpcodeForms(b);
    JumpLength(b);
    ExecuteTest(base, m, CmpAl(b[1]), reply);
  }

  lemma {:induction false} ExecuteConditional(base: u64, m: Machine, reply: Reply)
    ensures Execute(base, m, MoveIfNotSign, Wrap64(m.cpu.rip + 4), reply) ==
            Running(if m.cpu.sf then Passed(m, 4) else Wrote(m, 2, m.cpu.rax, 4))
  {
    hide Execute;
    if m.cpu.sf {
      ExecuteNothing(base, m, MoveIfNotSign, 4, reply);
    } else {
      ExecuteSet(base, m, MoveIfNotSign, 4, reply, RDX, m.cpu.rax);
    }
  }

  /** cmovns rdx, rax. */
  lemma {:induction false} ConditionalMoveMeaning(base: u64, m: Machine, b: window, reply: Reply)
    requires Ready(base, m, b) && Opcode(b) == 0x0F && b[0] == 0x48
    ensures Step(base, m, reply) == Running(if m.cpu.sf then Passed(m, 4) else Wrote(m, 2, m.cpu.rax, 4))
  {
    hide *;
    Parts(b);
    StepExecutes(base, m, b, reply);
    OpcodeForms(b);
    ExecuteConditional(base, m, reply);
  }

  lemma {:induction false} MovesTo(to: Option<Reg>, n: nat, dropped: bool)
    requires Targets(to, n, dropped)
    ensures if dropped then to == None else to.Some? && Number(to.value) == n
  {
  }

  lemma {:induction false} ExecuteMovImm(base: u64, m: Machine, i: Instr, len: nat, reply: Reply)
    requires i.MovImm?
    ensures Execute(base, m, i, Wrap64(m.cpu.rip + len), reply) ==
            Running(if i.to == None then Passed(m, len) else Wrote(m, Number(i.to.value), i.word, len))
  {
    SetsMove(m.cpu, i, Wrap64(m.cpu.rip + len));
    hide Execute, Wrote, Passed;
    if i.to.Some? {
      ExecuteSet(base, m, i, len, reply, i.to.value, i.word);
    } else {
      ExecuteNothing(base, m, i, len, reply);
    }
  }

  /** Immediate moves. A 64-bit one keeps its 32 bits unsigned, and some registers drop it. */
  lemma {:induction false} ImmediateMeaning(base: u64, m: Machine, b: window, reply: Reply)
    requires Ready(base, m, b)
    ensures Opcode(b) / 8 == 0xB8 / 8 ==>
              Step(base, m, reply) ==
              Running(if MoveDrops(OpcodeNumber(b)) then Passed(m, Length(b))
                      else Wrote(m, OpcodeNumber(b), Le32(b, Start(b) + 1), Length(b)))
    ensures b[0] == 0x48 && b[1] == 0xC7 ==>
              Step(base, m, reply) == Running(Wrote(m, RmNumber(b), Le32(b, 3), Length(b)))
  {
    hide *;
    Parts(b);
    StepExecutes(base, m, b, reply);
    ImmediateForms(b);
    var i := Decode(b).instr;
    if i.MovImm? {
      ExecuteMovImm(base, m, i, Length(b), reply);
      if Opcode(b) / 8 == 0xB8 / 8 {
        MovesTo(i.to, OpcodeNumber(b), MoveDrops(OpcodeNumber(b)));
      }
    }
  }

  /** The address a decoded lea or load computes. */
  lemma {:induction false} BaseAddress(c: CpuState, b: window, at: Reg, disp: int)
    requires ModRm(b) % 8 != 4 && Number(at) == RmNumber(b)
    requires (ModRm(b) / 64 == 1 && disp == Sx8(b[Start(b) + 2]))
             || (ModRm(b) / 64 == 0 && ModRm(b) % 8 != 5 && disp == 0)
    ensures Ea(c, at, disp) == Address(c, b)
  {
    SetByNumber(c, at, 0, 0);
    hide Set, Get, Regs, RmNumber, Sx8, Length, Le32, Sx32;
  }

  lemma {:induction false} TableAddress(c: CpuState, b: window)
    requires Start(b) == 1 && b[2] == 0x7C && b[3] == 0xC2 && RexX(b) == 0 && RexB(b) == 0 && b[4] == 0x08
    ensures TableEa(c) == Address(c, b)
  {
    hide Length, Le32, Sx32;
  }

  lemma {:induction false} RipAddress(c: CpuState, b: window)
    requires Start(b) == 1 && b[2] / 64 == 0 && b[2] % 8 == 5 && Length(b) == 7
    ensures Wrap64(Wrap64(c.rip + 7) + Sx32(Le32(b, 3))) == Address(c, b)
  {
    WrapAgain(c.rip + 7, Sx32(Le32(b, 3)));
    hide Le32, Sx32;
  }

  lemma {:induction false} StackAddress(c: CpuState, b: window)
    requires ModRm(b) / 64 == 1 && ModRm(b) % 8 == 4 && Sib(b) == 0x24 && RexX(b) == 0 && RexB(b) == 0
    ensures Ea(c, RSP, Sx8(b[Start(b) + 3])) == Address(c, b)
  {
    hide Length, Le32, Sx32;
  }

  lemma {:induction false} LeaLength(b: window)
    requires Supported(b) && Opcode(b) == 0x8D && ModRm(b) / 64 == 0
    ensures Length(b) == 7 && ModRm(b) % 8 == 5
  {
  }

  lemma {:induction false} LeaOf(base: u64, m: Machine, i: Instr, at: u64, k: nat, len: nat, reply: Reply)
    requires k < 16 && Leas(m.cpu, i, at, k, len)
    ensures Execute(base, m, i, Wrap64(m.cpu.rip + len), reply) ==
            Running(if LeaDrops(k) then Passed(m, len) else Wrote(m, k, at, len))
  {
    hide Ea, TableEa, Execute, Wrote, Passed;
    match i {
      case Lea(to, _, _) =>
        if to.Some? {
          ExecuteSet(base, m, i, len, reply, to.value, at);
        } else {
          ExecuteNothing(base, m, i, len, reply);
        }
      case LeaRip(dst, _) => ExecuteSet(base, m, i, len, reply, dst, at);
      case LeaTable => ExecuteSet(base, m, i, len, reply, RDI, at);
    }
  }

  /** lea, which some registers drop. */
  lemma {:induction false} LeaMeaning(base: u64, m: Machine, b: window, reply: Reply)
    requires Ready(base, m, b) && Opcode(b) == 0x8D
    ensures Step(base, m, reply) ==
            Running(if LeaDrops(RegNumber(b)) then Passed(m, Length(b))
                    else Wrote(m, RegNumber(b), Address(m.cpu, b), Length(b)))
  {
    hide *;
    Parts(b);
    StepExecutes(base, m, b, reply);
    var i := Decode(b).instr;
    LeaAddress(m.cpu, b, i);
    LeaOf(base, m, i, Address(m.cpu, b), RegNumber(b), Length(b), reply);
  }

  /** What a decoded lea computes, and where it goes. */
  predicate Leas(c: CpuState, i: Instr, at: u64, k: nat, len: nat) {
    match i
    case Lea(to, r, disp) => at == Ea(c, r, disp) && Targets(to, k, LeaDrops(k))
    case LeaRip(dst, disp) => at == Wrap64(Wrap64(c.rip + len) + disp) && Number(dst) == k && !LeaDrops(k)
    case LeaTable => at == TableEa(c) && k == 7
    case _ => false
  }

  lemma {:induction false} LeaAddress(c: CpuState, b: window, i: Instr)
    requires Supported(b) && Decode(b).Op? && Follows(b, Decode(b).instr) && Opcode(b) == 0x8D && i == Decode(b).instr
    ensures Leas(c, i, Address(c, b), RegNumber(b), Length(b))
  {
    LeaForms(b);
    if ModRm(b) / 64 == 0 {
      LeaLength(b);
      RipAddress(c, b);
    } else if b[2] == 0x7C && b[0] == 0x48 {
      TableAddress(c, b);
    } else if ModRm(b) % 8 == 4 {
      StackAddress(c, b);
    } else {
      BaseAddress(c, b, i.at, i.disp);
    }
    hide Supported, Decode, Follows, Address, Ea, TableEa, Length, Sx8, Sx32, Le32;
  }

  // ---------------------------------------------------------------- memory

  lemma {:induction false} ReadWords(base: u64, mem: bytes, va: u64)
    ensures ReadU64(base, mem, va) == ReadWord(base, mem, va, 8)
    ensures ReadU32(base, mem, va) == ReadWord(base, mem, va, 4)
  {
    hide ReadWord;
  }

  lemma {:induction false} PlainEa(c: CpuState)
    ensures Ea(c, RDI, 0) == c.rdi
  {
  }

  /** What a load of n bytes at an address does to register number k, or to none. */
  function LoadFrom(base: u64, m: Machine, at: u64, n: nat, k: nat, dropped: bool, len: nat): Outcome
    requires k < 16 && n <= 8
  {
    Widths(n);
    match ReadWord(base, m.mem, at, n)
    case None => Fault(AddressOutOfRange)
    case Some(v) => if dropped then Running(Passed(m, len)) else Running(Wrote(m, k, v, len))
  }

  lemma {:induction false} Widths(n: nat)
    requires n <= 8
    ensures Power256(n) <= TWO64
    decreases 8 - n
  {
    if n < 8 {
      Widths(n + 1);
    } else {
      Powers();
    }
  }

  lemma {:induction false} LoadWide(base: u64, m: Machine, i: Instr, at: u64, k: nat, len: nat, reply: Reply)
    requires k < 16
    requires (i == LoadTable && at == TableEa(m.cpu) && k == 7) || (i == Load64(RSI, RDI) && at == m.cpu.rdi && k == 6)
    ensures Execute(base, m, i, Wrap64(m.cpu.rip + len), reply) == LoadFrom(base, m, at, 8, k, false, len)
  {
    ReadWords(base, m.mem, at);
    ExecuteLoad(base, m, i, len, reply, ReadU64(base, m.mem, at), Some(if k == 7 then RDI else RSI));
    hide ReadWord, ReadU64, Execute, TableEa, Wrote, Passed;
  }

  lemma {:induction false} LoadNarrow(
    base: u64, m: Machine, i: Instr, at: u64, k: nat, dropped: bool, len: nat, reply: Reply)
    requires k < 16 && i.Load32? && at == Ea(m.cpu, i.at, i.disp) && Targets(i.to, k, dropped)
    ensures Execute(base, m, i, Wrap64(m.cpu.rip + len), reply) == LoadFrom(base, m, at, 4, k, dropped, len)
  {
    ReadWords(base, m.mem, at);
    ExecuteLoad(base, m, i, len, reply, ReadU32(base, m.mem, at), i.to);
    hide ReadWord, ReadU32, Execute, Ea, Wrote, Passed;
  }

  /** Loads of 32 bits, which some registers drop after the access. */
  lemma {:induction false} LoadMeaning(base: u64, m: Machine, b: window, reply: Reply)
    requires Ready(base, m, b) && b[0] == 0x8B
    ensures Step(base, m, reply) ==
            LoadFrom(base, m, Address(m.cpu, b), 4, RegNumber(b), LoadDrops(RegNumber(b)), Length(b))
  {
    hide *;
    Parts(b);
    StepExecutes(base, m, b, reply);
    LoadForms(b);
    var i := Decode(b).instr;
    BaseAddress(m.cpu, b, i.at, i.disp);
    LoadNarrow(base, m, i, Address(m.cpu, b), RegNumber(b), LoadDrops(RegNumber(b)), Length(b), reply);
  }

  /** Loads of 64 bits. */
  lemma {:induction false} LoadWideMeaning(base: u64, m: Machine, b: window, reply: Reply)
    requires Ready(base, m, b) && b[0] == 0x48 && b[1] == 0x8B
    ensures Step(base, m, reply) == LoadFrom(base, m, Address(m.cpu, b), 8, RegNumber(b), false, Length(b))
  {
    hide *;
    Parts(b);
    StepExecutes(base, m, b, reply);
    LoadForms(b);
    WideNumbers(b);
    if Decode(b).instr == LoadTable {
      TableAddress(m.cpu, b);
      LoadWide(base, m, LoadTable, Address(m.cpu, b), RegNumber(b), Length(b), reply);
    } else {
      BaseAddress(m.cpu, b, RDI, 0);
      PlainEa(m.cpu);
      LoadWide(base, m, Load64(RSI, RDI), Address(m.cpu, b), RegNumber(b), Length(b), reply);
    }
  }

  lemma {:induction false} WideNumbers(b: window)
    requires b[0] == 0x48 && b[1] == 0x8B
    ensures b[2] == 0x7C ==> RegNumber(b) == 7
    ensures b[2] == 0x37 ==> RegNumber(b) == 6 && RmNumber(b) == Number(RDI)
  {
  }

  lemma {:induction false} ByteAddress(c: CpuState, b: window)
    requires Supported(b) && Opcode(b) == 0x8A
    ensures Address(c, b) == Mod64(c.r9 + c.r8 - 1) && Length(b) == 5
  {
  }

  /** What the load of a byte into the low byte of rax does. */
  function LoadByteFrom(base: u64, m: Machine, at: u64, len: nat): Outcome {
    match ReadU8(base, m.mem, at)
    case None => Fault(AddressOutOfRange)
    case Some(v) => Running(Wrote(m, 0, m.cpu.rax - m.cpu.rax % 0x100 + v, len))
  }

  lemma {:induction false} ExecuteLoadByte(base: u64, m: Machine, len: nat, reply: Reply)
    ensures Execute(base, m, LoadAl, Wrap64(m.cpu.rip + len), reply) ==
            LoadByteFrom(base, m, Mod64(m.cpu.r9 + m.cpu.r8 - 1), len)
  {
    hide ReadU8;
  }

  /** mov al, [r9 + r8 - 1]. */
  lemma {:induction false} LoadByteMeaning(base: u64, m: Machine, b: window, reply: Reply)
    requires Ready(base, m, b) && Opcode(b) == 0x8A
    ensures Step(base, m, reply) == LoadByteFrom(base, m, Address(m.cpu, b), Length(b))
    ensures Address(m.cpu, b) == Mod64(m.cpu.r9 + m.cpu.r8 - 1)
  {
    hide *;
    Parts(b);
    StepExecutes(base, m, b, reply);
    BranchForms(b);
    ByteAddress(m.cpu, b);
    ExecuteLoadByte(base, m, 5, reply);
  }

  lemma {:induction false} ExecuteIsStore(base: u64, m: Machine, i: Instr, next: u64, reply: Reply)
    ensures i.Store32? ==>
              Execute(base, m, i, next, reply) == StoreAt(base, m, Ea(m.cpu, i.at, i.disp), 4, i.word, next)
    ensures i == StoreTable ==> Execute(base, m, i, next, reply) == StoreAt(base, m, TableEa(m.cpu), 8, m.cpu.rdi, next)
    ensures i.Push? ==> Execute(base, m, i, next, reply) == PushAnd(base, m, Get(m.cpu, i.src), next)
  {
    hide WriteWord, Get;
  }

  lemma {:induction false} TableRegister(c: CpuState, b: window)
    requires b[0] == 0x48 && b[2] == 0x7C
    ensures Regs(c)[RegNumber(b)] == c.rdi
  {
  }

  /** What a store of the n low bytes of v at an address does. */
  function StoreTo(base: u64, m: Machine, at: u64, n: nat, v: nat, len: nat): Outcome {
    match WriteWord(base, m.mem, at, n, v)
    case None => Fault(AddressOutOfRange)
    case Some(mem') => Running(Passed(Machine(m.cpu, mem'), len))
  }

  lemma {:induction false} StoreOf(base: u64, m: Machine, i: Instr, at: u64, n: nat, v: nat, len: nat, reply: Reply)
    requires (i.Store32? && at == Ea(m.cpu, i.at, i.disp) && n == 4 && v == i.word)
             || (i == StoreTable && at == TableEa(m.cpu) && n == 8 && v == m.cpu.rdi)
    ensures Execute(base, m, i, Wrap64(m.cpu.rip + len), reply) == StoreTo(base, m, at, n, v, len)
  {
    ExecuteIsStore(base, m, i, Wrap64(m.cpu.rip + len), reply);
    hide Ea, TableEa, Execute, WriteWord;
  }

  lemma {:induction false} RmNumberPlain(b: window)
    requires !(0x40 <= b[0] <= 0x4F)
    ensures RmNumber(b) == b[1] % 8
  {
  }

  /** mov of a 32-bit immediate to memory. */
  lemma {:induction false} StoreMeaning(base: u64, m: Machine, b: window, reply: Reply)
    requires Ready(base, m, b) && b[0] == 0xC7
    ensures Step(base, m, reply) == StoreTo(base, m, Address(m.cpu, b), 4, Le32(b, Length(b) - 4), Length(b))
  {
    hide *;
    Parts(b);
    StepExecutes(base, m, b, reply);
    StoreForms(b);
    var i, at := Decode(b).instr, Address(m.cpu, b);
    if b[1] % 8 == 4 {
      StackAddress(m.cpu, b);
    } else {
      RmNumberPlain(b);
      BaseAddress(m.cpu, b, i.at, i.disp);
    }
    StoreOf(base, m, i, at, 4, i.word, Length(b), reply);
  }

  /** mov of a 64-bit register to memory. */
  lemma {:induction false} StoreWideMeaning(base: u64, m: Machine, b: window, reply: Reply)
    requires Ready(base, m, b) && Opcode(b) == 0x89 && ModRm(b) / 64 == 1
    ensures Step(base, m, reply) == StoreTo(base, m, Address(m.cpu, b), 8, Regs(m.cpu)[RegNumber(b)], Length(b))
  {
    hide *;
    Parts(b);
    StepExecutes(base, m, b, reply);
    StoreForms(b);
    TableAddress(m.cpu, b);
    TableRegister(m.cpu, b);
    StoreOf(base, m, StoreTable, Address(m.cpu, b), 8, m.cpu.rdi, Length(b), reply);
  }

  lemma {:induction false} PushMeaning(base: u64, m: Machine, b: window, reply: Reply)
    requires Ready(base, m, b) && Opcode(b) / 8 == 0x50 / 8
    ensures Step(base, m, reply) ==
            Pushed(base, m, Regs(m.cpu)[OpcodeNumber(b)], Mod64(m.cpu.rip + Length(b)))
  {
    hide *;
    Parts(b);
    StepExecutes(base, m, b, reply);
    OpcodeForms(b);
    var i, next := Decode(b).instr, Wrap64(m.cpu.rip + Length(b));
    SetByNumber(m.cpu, i.src, 0, 0);
    ExecuteIsStore(base, m, i, next, reply);
    PushByNumber(base, m, Get(m.cpu, i.src), next);
    WrapIsMod(m.cpu.rip + Length(b));
  }

  lemma {:induction false} PopIs(base: u64, mem: bytes, sp: u64)
    ensures var v := ReadWord(base, mem, sp, 8);
            if v == None || sp + 8 >= TWO64 then PopU64(base, mem, sp) == None
            else PopU64(base, mem, sp) == Some((v.value, sp + 8))
  {
    ReadWords(base, mem, sp);
    hide ReadWord, ReadU64;
  }

  lemma {:induction false} ExecutePop(base: u64, m: Machine, dst: Reg, len: nat, reply: Reply)
    ensures Execute(base, m, Pop(dst), Wrap64(m.cpu.rip + len), reply) == Popped(base, m, Number(dst), len)
  {
    var v := PopU64(base, m.mem, m.cpu.rsp);
    PopIs(base, m.mem, m.cpu.rsp);
    if v.Some? {
      SetByNumber(m.cpu.(rsp := m.cpu.rsp + 8), dst, v.value.0, Wrap64(m.cpu.rip + len));
    }
    hide ReadWord, PopU64, Regs, Cpu, Set;
  }

  /** The machine after the word at rsp has gone to register number k. */
  function Popped(base: u64, m: Machine, k: nat, len: nat): Outcome
    requires k < 16
  {
    Widths(8);
    match ReadWord(base, m.mem, m.cpu.rsp, 8)
    case None => Fault(AddressOutOfRange)
    case Some(v) =>
      if m.cpu.rsp + 8 >= 0x1_0000_0000_0000_0000 then Fault(AddressOutOfRange)
      else Running(Wrote(Machine(m.cpu.(rsp := m.cpu.rsp + 8), m.mem), k, v, len))
  }

  lemma {:induction false} PopMeaning(base: u64, m: Machine, b: window, reply: Reply)
    requires Ready(base, m, b) && Opcode(b) / 8 == 0x58 / 8
    ensures Step(base, m, reply) == Popped(base, m, OpcodeNumber(b), Length(b))
  {
    hide *;
    Parts(b);
    StepExecutes(base, m, b, reply);
    OpcodeForms(b);
    ExecutePop(base, m, Decode(b).instr.dst, Length(b), reply);
  }

  // ---------------------------------------------------------------- the flow of control

  lemma {:induction false} ExecuteJump(base: u64, m: Machine, i: Instr, next: u64, reply: Reply)
    ensures i.Jump? ==>
              Execute(base, m, i, next, reply) == Running(m.(cpu := m.cpu.(rip := Wrap64(next + i.rel))))
    ensures i.JumpIfZero? ==>
              Execute(base, m, i, next, reply) ==
              Running(m.(cpu := m.cpu.(rip := if m.cpu.zf then Wrap64(next + i.rel) else next)))
    ensures i.Call? ==> Execute(base, m, i, next, reply) == Pushed(base, m, next, Wrap64(next + i.rel))
    ensures i.CallIndirect? ==>
              var target, end := ReadU64(base, m.mem, Wrap64(next + i.disp)), Wrap64(base + |m.mem|);
              Execute(base, m, i, next, reply) ==
              if target == None then Fault(AddressOutOfRange)
              else if !(base <= target.value < end) && base <= m.cpu.rdi < end
              then Running(m.(cpu := m.cpu.(rip := m.cpu.rdi)))
              else Pushed(base, m, next, target.value)
  {
    hide ReadU64, PushAnd, Pushed;
    if i.Call? {
      PushByNumber(base, m, next, Wrap64(next + i.rel));
    } else if i.CallIndirect? {
      var target := ReadU64(base, m.mem, Wrap64(next + i.disp));
      if target.Some? {
        PushByNumber(base, m, next, target.value);
      }
    }
  }

  /** jmp rel32. */
  lemma {:induction false} JumpMeaning(base: u64, m: Machine, b: window, reply: Reply)
    requires Ready(base, m, b) && b[0] == 0xE9
    ensures Step(base, m, reply) == Running(m.(cpu := m.cpu.(rip := Mod64(m.cpu.rip + 5 + Sx32(Le32(b, 1))))))
  {
    hide *;
    Parts(b);
    StepExecutes(base, m, b, reply);
    BranchForms(b);
    JumpLength(b);
    WrapIsMod(m.cpu.rip + 5);
    WrapAgain(m.cpu.rip + 5, Sx32(Le32(b, 1)));
    ExecuteJump(base, m, Jump(Sx32(Le32(b, 1))), Wrap64(m.cpu.rip + 5), reply);
  }

  /** jmp rel8. */
  lemma {:induction false} ShortJumpMeaning(base: u64, m: Machine, b: window, reply: Reply)
    requires Ready(base, m, b) && b[0] == 0xEB
    ensures Step(base, m, reply) == Running(m.(cpu := m.cpu.(rip := Mod64(m.cpu.rip + 2 + Sx8(b[1])))))
  {
    hide *;
    Parts(b);
    StepExecutes(base, m, b, reply);
    BranchForms(b);
    JumpLength(b);
    WrapIsMod(m.cpu.rip + 2);
    WrapAgain(m.cpu.rip + 2, Sx8(b[1]));
    ExecuteJump(base, m, Jump(Sx8(b[1])), Wrap64(m.cpu.rip + 2), reply);
  }

  /** je rel8: taken exactly when the zero flag is set. */
  lemma {:induction false} JumpIfZeroMeaning(base: u64, m: Machine, b: window, reply: Reply)
    requires Ready(base, m, b) && b[0] == 0x74
    ensures Step(base, m, reply) ==
            Running(m.(cpu := m.cpu.(rip := Mod64(m.cpu.rip + 2 + if m.cpu.zf then Sx8(b[1]) else 0))))
  {
    hide *;
    Parts(b);
    StepExecutes(base, m, b, reply);
    BranchForms(b);
    JumpLength(b);
    WrapIsMod(m.cpu.rip + 2);
    WrapAgain(m.cpu.rip + 2, Sx8(b[1]));
    ExecuteJump(base, m, JumpIfZero(Sx8(b[1])), Wrap64(m.cpu.rip + 2), reply);
  }

  lemma {:induction false} JumpLength(b: window)
    ensures b[0] == 0xE9 || b[0] == 0xE8 ==> Length(b) == 5
    ensures b[0] == 0xEB || b[0] == 0x74 || b[0] == 0x3C ==> Length(b) == 2
  {
  }

  /** call rel32: the address of the next instruction is pushed. */
  lemma {:induction false} CallMeaning(base: u64, m: Machine, b: window, reply: Reply)
    requires Ready(base, m, b) && b[0] == 0xE8
    ensures Step(base, m, reply) ==
            Pushed(base, m, Mod64(m.cpu.rip + 5), Mod64(m.cpu.rip + 5 + Sx32(Le32(b, 1))))
  {
    hide *;
    Parts(b);
    StepExecutes(base, m, b, reply);
    BranchForms(b);
    JumpLength(b);
    WrapIsMod(m.cpu.rip + 5);
    WrapAgain(m.cpu.rip + 5, Sx32(Le32(b, 1)));
    ExecuteJump(base, m, Call(Sx32(Le32(b, 1))), Wrap64(m.cpu.rip + 5), reply);
  }

  lemma {:induction false} CallAddress(c: CpuState, b: window)
    requires Supported(b) && Opcode(b) == 0xFF
    ensures Length(b) == 6 && Address(c, b) == Mod64(c.rip + 6 + Sx32(Le32(b, 2)))
  {
    hide Le32, Sx32;
  }

  /** What a call through the word at an address does. */
  function CallThrough(base: u64, m: Machine, at: u64, next: u64): Outcome {
    Widths(8);
    var end := Mod64(base + |m.mem|);
    match ReadWord(base, m.mem, at, 8)
    case None => Fault(AddressOutOfRange)
    case Some(target) =>
      if !(base <= target < end) && base <= m.cpu.rdi < end then Running(m.(cpu := m.cpu.(rip := m.cpu.rdi)))
      else Pushed(base, m, next, target)
  }

  lemma {:induction false} ExecuteCallThrough(base: u64, m: Machine, disp: int, at: u64, next: u64, reply: Reply)
    requires at == Wrap64(next + disp)
    ensures Execute(base, m, CallIndirect(disp), next, reply) == CallThrough(base, m, at, next)
  {
    ExecuteJump(base, m, CallIndirect(disp), next, reply);
    ReadWords(base, m.mem, at);
    hide ReadU64, ReadWord, Execute, Pushed;
  }

  /** call [rip + disp32]: a target outside memory gives way to rdi, without a push, when rdi is inside. */
  lemma {:induction false} CallIndirectMeaning(base: u64, m: Machine, b: window, reply: Reply)
    requires Ready(base, m, b) && Opcode(b) == 0xFF
    ensures Step(base, m, reply) == CallThrough(base, m, Address(m.cpu, b), Mod64(m.cpu.rip + 6))
  {
    hide *;
    Parts(b);
    StepExecutes(base, m, b, reply);
    BranchForms(b);
    CallAddress(m.cpu, b);
    WrapIsMod(m.cpu.rip + 6);
    WrapAgain(m.cpu.rip + 6, Sx32(Le32(b, 2)));
    ExecuteCallThrough(base, m, Decode(b).instr.disp, Address(m.cpu, b), Wrap64(m.cpu.rip + 6), reply);
  }

  lemma {:induction false} ExecutePlain(base: u64, m: Machine, len: nat, reply: Reply)
    ensures Execute(base, m, Nop, Wrap64(m.cpu.rip + len), reply) == Running(Passed(m, len))
    ensures Execute(base, m, Stop, Wrap64(m.cpu.rip + len), reply) == Finished(m)
  {
  }

  /** nop and endbr64 do nothing; ret and hlt end the program. */
  lemma {:induction false} PlainMeaning(base: u64, m: Machine, b: window, reply: Reply)
    requires Ready(base, m, b)
    ensures Opcode(b) in {0x90, 0xF3} ==> Step(base, m, reply) == Running(Passed(m, Length(b)))
    ensures Opcode(b) in {0xC3, 0xF4} ==> Step(base, m, reply) == Finished(m)
  {
    hide *;
    Parts(b);
    StepExecutes(base, m, b, reply);
    OpcodeForms(b);
    ExecutePlain(base, m, Length(b), reply);
  }

  // ---------------------------------------------------------------- system calls

  lemma {:induction false} SyscallStep(base: u64, m: Machine, b: window, reply: Reply)
    requires Ready(base, m, b) && b[0] == 0x0F
    ensures Step(base, m, reply) == AtRip(HandleSyscall(base, m, reply), Mod64(m.cpu.rip + 2))
  {
    hide *;
    Parts(b);
    StepExecutes(base, m, b, reply);
    OpcodeForms(b);
    WrapIsMod(m.cpu.rip + 2);
    ExecuteSyscall(base, m, Wrap64(m.cpu.rip + 2), reply);
  }

  lemma {:induction false} ExecuteSyscall(base: u64, m: Machine, next: u64, reply: Reply)
    ensures Execute(base, m, Syscall, next, reply) == AtRip(HandleSyscall(base, m, reply), next)
  {
    hide HandleSyscall;
  }

  /** What a call leaves: rax, memory, and rip past the instruction. */
  lemma {:induction false} RaxWrote(m: Machine, v: u64, mem: bytes)
    ensures AtRip(Running(Machine(m.cpu.(rax := v), mem)), Mod64(m.cpu.rip + 2)) ==
            Running(Wrote(Machine(m.cpu, mem), 0, v, 2))
    ensures AtRip(Finished(Machine(m.cpu.(rax := v), mem)), Mod64(m.cpu.rip + 2)) ==
            Finished(Wrote(Machine(m.cpu, mem), 0, v, 2))
  {
  }

  /** exit (60) and exit_group (231) end the program with rax 0. */
  lemma {:induction false} ExitMeaning(base: u64, m: Machine, b: window, reply: Reply)
    requires Ready(base, m, b) && b[0] == 0x0F && (m.cpu.rax == 60 || m.cpu.rax == 231)
    ensures Step(base, m, reply) == Finished(Wrote(m, 0, 0, 2))
  {
    SyscallStep(base, m, b, reply);
    RaxWrote(m, 0, m.mem);
    RaxWrote(m, reply.rax, m.mem);
    hide Ready, Wrote;
  }

  /** A call that is not read, write, execve or exit puts the kernel's answer into rax. */
  lemma {:induction false} ForwardMeaning(base: u64, m: Machine, b: window, reply: Reply)
    requires Ready(base, m, b) && b[0] == 0x0F && m.cpu.rax !in {0, 1, 59, 60, 231}
    ensures Step(base, m, reply) == Running(Wrote(m, 0, reply.rax, 2))
  {
    SyscallStep(base, m, b, reply);
    RaxWrote(m, 0, m.mem);
    RaxWrote(m, reply.rax, m.mem);
    hide Ready, Wrote;
  }

  /** write (1): the buffer must lie in memory. */
  lemma {:induction false} WriteMeaning(base: u64, m: Machine, b: window, reply: Reply)
    requires Ready(base, m, b) && b[0] == 0x0F && m.cpu.rax == 1
    ensures Step(base, m, reply) ==
            if base <= m.cpu.rsi < base + |m.mem| && m.cpu.rsi + m.cpu.rdx <= base + |m.mem|
            then Running(Wrote(m, 0, reply.rax, 2)) else Fault(AddressOutOfRange)
  {
    SyscallStep(base, m, b, reply);
    RaxWrote(m, 0, m.mem);
    RaxWrote(m, reply.rax, m.mem);
    hide Ready, Wrote;
  }

  /** The machine after got has been stored at the buffer and rax set. */
  function Received(base: u64, m: Machine, got: bytes, ret: u64): Outcome
    requires base <= m.cpu.rsi && m.cpu.rsi - base + |got| <= |m.mem|
  {
    var at := m.cpu.rsi - base;
    Running(Wrote(Machine(m.cpu, m.mem[..at] + got + m.mem[at + |got|..]), 0, ret, 2))
  }

  /** How much of the buffer of a read lies inside memory. */
  function Capacity(base: u64, m: Machine): nat
    requires base <= m.cpu.rsi < base + |m.mem|
  {
    Min(m.cpu.rdx, base + |m.mem| - m.cpu.rsi)
  }

  /** read (0): from the keyboard (descriptor 0) a line arrives, from elsewhere at most 256 bytes or an error, and
      never more than the buffer's part inside memory. */
  function ReadOutcome(base: u64, m: Machine, reply: Reply): Outcome {
    if !(base <= m.cpu.rsi < base + |m.mem|) then Fault(AddressOutOfRange)
    else
      var cap := Capacity(base, m);
      if cap == 0 then Received(base, m, [], 0)
      else if m.cpu.rdi == 0 then Received(base, m, Line(reply.data, cap), Mod64(|Line(reply.data, cap)|))
      else if reply.rax >= 0x8000_0000_0000_0000 then Received(base, m, [], reply.rax)
      else
        var n := Min(|reply.data|, Min(cap, 256));
        Received(base, m, reply.data[..n], n)
  }

  lemma {:induction false} ReceivedIs(base: u64, m: Machine, got: bytes, ret: u64)
    requires base <= m.cpu.rsi && m.cpu.rsi - base + |got| <= |m.mem|
    ensures AtRip(Running(Machine(m.cpu.(rax := ret), Splice(m.mem, m.cpu.rsi - base, got))), Mod64(m.cpu.rip + 2)) ==
            Received(base, m, got, ret)
  {
    RaxWrote(m, ret, Splice(m.mem, m.cpu.rsi - base, got));
    hide Wrote;
  }

  lemma {:induction false} NothingReceived(base: u64, m: Machine, ret: u64)
    requires base <= m.cpu.rsi <= base + |m.mem|
    ensures AtRip(Running(m.(cpu := m.cpu.(rax := ret))), Mod64(m.cpu.rip + 2)) == Received(base, m, [], ret)
  {
    SpliceNothing(m.mem, m.cpu.rsi - base);
    ReceivedIs(base, m, [], ret);
    hide Received;
  }

  lemma {:induction false} ReadAgrees(base: u64, m: Machine, reply: Reply)
    ensures AtRip(SysRead(base, m, reply), Mod64(m.cpu.rip + 2)) == ReadOutcome(base, m, reply)
  {
    hide Line, Received, Wrote, AtRip;
    if base <= m.cpu.rsi < base + |m.mem| {
      var cap := Capacity(base, m);
      if cap == 0 {
        NothingReceived(base, m, 0);
      } else if m.cpu.rdi == 0 {
        ReceivedIs(base, m, Line(reply.data, cap), Wrap64(|Line(reply.data, cap)|));
      } else if reply.rax >= TWO63 {
        NothingReceived(base, m, reply.rax);
      } else {
        var n := Min(|reply.data|, Min(cap, 256));
        ReceivedIs(base, m, reply.data[..n], n);
      }
    } else {
      FaultStays(Mod64(m.cpu.rip + 2));
    }
  }

  lemma {:induction false} FaultStays(rip: u64)
    ensures AtRip(Fault(AddressOutOfRange), rip) == Fault(AddressOutOfRange)
  {
  }

  lemma {:induction false} ReadMeaning(base: u64, m: Machine, b: window, reply: Reply)
    requires Ready(base, m, b) && b[0] == 0x0F && m.cpu.rax == 0
    ensures Step(base, m, reply) == ReadOutcome(base, m, reply)
  {
    hide *;
    SyscallStep(base, m, b, reply);
    Dispatch(base, m, reply);
    ReadAgrees(base, m, reply);
  }

  predicate EndsLine(x: byte) { x == 10 || x == 13 }

  /** A keyboard line: the input up to and with the first line end, which becomes a newline, cut to the buffer. */
  lemma {:induction false} LineMeaning(input: bytes, cap: nat)
    ensures var l := Line(input, cap);
            && |l| <= cap && |l| <= |input|
            && (forall k :: 0 <= k < |l| ==> l[k] == if input[k] == 13 then 10 else input[k])
            && (forall k :: 0 <= k < |l| - 1 ==> !EndsLine(input[k]))
            && (|l| < cap && |l| < |input| ==> |l| > 0 && EndsLine(input[|l| - 1]))
    decreases |input|
  {
    if cap > 0 && input != [] && !EndsLine(input[0]) {
      LineMeaning(input[1..], cap - 1);
    }
  }

  /** execve (59): unreadable strings fail, a null path gives EFAULT, a path to no file ENOENT, a program that
      fails ENOEXEC, and a program that ran ends this one. */
  function ExecveOutcome(base: u64, m: Machine, reply: Reply): Outcome {
    match UserStrings.Cstr(base, m.mem, m.cpu.rdi)
    case None => Fault(AddressOutOfRange)
    case Some(None) => Running(Wrote(m, 0, 0x1_0000_0000_0000_0000 - 14, 2))
    case Some(Some(path)) =>
      if UserStrings.StrArray(base, m.mem, m.cpu.rsi, 64) == None
         || UserStrings.StrArray(base, m.mem, m.cpu.rdx, 64) == None then Fault(AddressOutOfRange)
      else if !NamesFile(path, reply.root) then Running(Wrote(m, 0, 0x1_0000_0000_0000_0000 - 2, 2))
      else if reply.execed then Finished(Wrote(m, 0, 0, 2))
      else Running(Wrote(m, 0, 0x1_0000_0000_0000_0000 - 8, 2))
  }

  predicate NamesFile(path: bytes, root: Option<bytes>) {
    Paths.ExecName(path).Some? && root.Some? && Lfs.Open(root.value, Paths.ExecName(path).value).Ok?
  }

  lemma {:induction false} FilesAgree(path: bytes, root: Option<bytes>)
    ensures ProgramExists(path, root) == NamesFile(path, root)
  {
    hide Paths.ExecName, Lfs.Open;
  }

  lemma {:induction false} ExecveAgrees(base: u64, m: Machine, reply: Reply)
    ensures AtRip(SysExecve(base, m, reply), Mod64(m.cpu.rip + 2)) == ExecveOutcome(base, m, reply)
  {
    RaxWrote(m, TWO64 - EFAULT, m.mem);
    RaxWrote(m, TWO64 - ENOENT, m.mem);
    RaxWrote(m, TWO64 - ENOEXEC, m.mem);
    RaxWrote(m, 0, m.mem);
    hide UserStrings.Cstr, UserStrings.StrArray, ProgramExists, NamesFile, Wrote;
    match UserStrings.Cstr(base, m.mem, m.cpu.rdi)
    case Some(Some(path)) => FilesAgree(path, reply.root);
    case _ =>
  }

  lemma {:induction false} Dispatch(base: u64, m: Machine, reply: Reply)
    ensures m.cpu.rax == 59 ==> HandleSyscall(base, m, reply) == SysExecve(base, m, reply)
    ensures m.cpu.rax == 0 ==> HandleSyscall(base, m, reply) == SysRead(base, m, reply)
  {
    hide SysExecve, SysRead;
  }

  lemma {:induction false} ExecveMeaning(base: u64, m: Machine, b: window, reply: Reply)
    requires Ready(base, m, b) && b[0] == 0x0F && m.cpu.rax == 59
    ensures Step(base, m, reply) == ExecveOutcome(base, m, reply)
  {
    hide *;
    SyscallStep(base, m, b, reply);
    Dispatch(base, m, reply);
    ExecveAgrees(base, m, reply);
  }
}
