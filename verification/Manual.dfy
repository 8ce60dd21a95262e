/** The decoder against the encoding rules of the Intel 64 and IA-32 Software Developer's Manual, volume 2A:
    ModR/M and SIB bytes (section 2.1.3) and the REX prefix (section 2.2.1). */
module Manual {
  import opened Words
  import opened Instructions
  import Execution

  // ---------------------------------------------------------------- fields of an encoding

  predicate Prefixed(b: window) { 0x40 <= b[0] <= 0x4F }

  function Rex(b: window): int { if Prefixed(b) then b[0] - 0x40 else 0 }
  function RexW(b: window): int { Rex(b) / 8 }
  function RexR(b: window): int { Rex(b) / 4 % 2 }
  function RexX(b: window): int { Rex(b) / 2 % 2 }
  function RexB(b: window): int { Rex(b) % 2 }

  /** Where the opcode stands. */
  function Start(b: window): nat { if Prefixed(b) then 1 else 0 }

  function Opcode(b: window): byte { b[Start(b)] }
  function ModRm(b: window): byte { b[Start(b) + 1] }
  function Sib(b: window): byte { b[Start(b) + 2] }

  /** The register of a four-bit number; the processor model has no r11, r14 and r15. */
  function Numbered(n: int): Option<Reg> {
    if 0 <= n < 8 then Some(GeneralReg(n))
    else if n == 8 then Some(R8) else if n == 9 then Some(R9) else if n == 10 then Some(R10)
    else if n == 12 then Some(R12) else if n == 13 then Some(R13) else None
  }

  function RegOperand(b: window): Option<Reg> { Numbered(RegField(ModRm(b)) + 8 * RexR(b)) }
  function RmOperand(b: window): Option<Reg> { Numbered(RmField(ModRm(b)) + 8 * RexB(b)) }
  function OpcodeReg(b: window): Option<Reg> { Numbered(Opcode(b) % 8 + 8 * RexB(b)) }
  function IndexOperand(b: window): Option<Reg> { Numbered(Sib(b) / 8 % 8 + 8 * RexX(b)) }
  function BaseOperand(b: window): Option<Reg> { Numbered(Sib(b) % 8 + 8 * RexB(b)) }

  /** A memory operand [at + disp8]: by the rm field, or by a SIB byte without index. */
  predicate BasePlus(b: window, at: Reg, disp: int) {
    && Mode(ModRm(b)) == 1
    && (if RmField(ModRm(b)) != 4 then RmOperand(b) == Some(at) && disp == Signed8(b[Start(b) + 2])
        else Sib(b) / 8 % 8 + 8 * RexX(b) == 4 && BaseOperand(b) == Some(at) && disp == Signed8(b[Start(b) + 3]))
  }

  /** A memory operand [base + index * 2^scale + disp8]. */
  predicate Indexed(b: window, base: Reg, index: Reg, scale: int, disp: int) {
    && Mode(ModRm(b)) == 1 && RmField(ModRm(b)) == 4
    && Sib(b) / 64 == scale && IndexOperand(b) == Some(index) && BaseOperand(b) == Some(base)
    && disp == Signed8(b[Start(b) + 3])
  }

  /** Both operands are registers. */
  predicate Registers(b: window, rm: Reg, reg: Reg) {
    Mode(ModRm(b)) == 3 && RmOperand(b) == Some(rm) && RegOperand(b) == Some(reg)
  }

  /** An operand relative to the next instruction. */
  predicate RipRelative(b: window, disp: int) {
    Mode(ModRm(b)) == 0 && RmField(ModRm(b)) == 5 && disp == Signed32(Imm32(b, Start(b) + 2))
  }

  /** The destination an encoding names, where the interpreter has it. */
  predicate Names(to: Option<Reg>, operand: Option<Reg>) {
    to.Some? ==> to == operand
  }

  // ---------------------------------------------------------------- the rules

  /** b encodes the operation and the operands of i. */
  predicate Follows(b: window, i: Instr) {
    match i
    case Nop => Opcode(b) == 0x90 || b[..4] == [0xF3, 0x0F, 0x1E, 0xFA]
    case Stop => Opcode(b) == 0xC3 || Opcode(b) == 0xF4
    case Push(src) => Opcode(b) / 8 == 0x50 / 8 && OpcodeReg(b) == Some(src)
    case Pop(dst) => Opcode(b) / 8 == 0x58 / 8 && OpcodeReg(b) == Some(dst)
    case Mov(dst, src) => RexW(b) == 1 && Opcode(b) == 0x89 && Registers(b, dst, src)
    case Zero(dst) => Opcode(b) == 0x31 && Registers(b, dst, dst)
    case SignExtendEsi => RexW(b) == 1 && Opcode(b) == 0x63 && Registers(b, RSI, RAX)
    case LeaTable => RexW(b) == 1 && Opcode(b) == 0x8D && RegOperand(b) == Some(RDI) && Indexed(b, RDX, RAX, 3, 8)
    case StoreTable => RexW(b) == 1 && Opcode(b) == 0x89 && RegOperand(b) == Some(RDI) && Indexed(b, RDX, RAX, 3, 8)
    case LoadTable => RexW(b) == 1 && Opcode(b) == 0x8B && RegOperand(b) == Some(RDI) && Indexed(b, RDX, RAX, 3, 8)
    case Alu(op, dst, imm) =>
      && RexW(b) == 1 && Mode(ModRm(b)) == 3 && RmOperand(b) == Some(dst)
      && RegField(ModRm(b)) == (match op case Add => 0 case Or => 1 case Sub => 5)
      && Immediate(b, imm)
    case AndRsp(imm) =>
      && RexW(b) == 1 && Mode(ModRm(b)) == 3 && RmOperand(b) == Some(RSP) && RegField(ModRm(b)) == 4
      && Immediate(b, imm)
    case Load32(to, at, disp) =>
      && !Prefixed(b) && Opcode(b) == 0x8B && Names(to, RegOperand(b))
      && (if Mode(ModRm(b)) == 0 then RmField(ModRm(b)) !in {4, 5} && RmOperand(b) == Some(at) && disp == 0
          else BasePlus(b, at, disp))
    case Load64(dst, at) =>
      && RexW(b) == 1 && Opcode(b) == 0x8B && RegOperand(b) == Some(dst)
      && Mode(ModRm(b)) == 0 && RmField(ModRm(b)) !in {4, 5} && RmOperand(b) == Some(at)
    case Lea(to, at, disp) => RexW(b) == 1 && Opcode(b) == 0x8D && Names(to, RegOperand(b)) && BasePlus(b, at, disp)
    case LeaRip(dst, disp) =>
      RexW(b) == 1 && Opcode(b) == 0x8D && RegOperand(b) == Some(dst) && RipRelative(b, disp)
    case Test(src) => RexW(b) == 1 && Opcode(b) == 0x85 && Registers(b, src, src)
    case MoveIfNotSign =>
      && RexW(b) == 1 && Opcode(b) == 0x0F && b[2] == 0x49
      && Mode(b[3]) == 3 && RegField(b[3]) == 2 && RmField(b[3]) == 0
    case LoadAl =>
      Opcode(b) == 0x8A && RexW(b) == 0 && RegOperand(b) == Some(RAX) && Indexed(b, R9, R8, 0, -1)
    case CmpAl(imm) => Opcode(b) == 0x3C && imm == b[Start(b) + 1]
    case MovImm(to, word) =>
      if Opcode(b) == 0xC7 then
        RexW(b) == 1 && Mode(ModRm(b)) == 3 && RegField(ModRm(b)) == 0 && to == RmOperand(b)
        && word == Imm32(b, Start(b) + 2)
      else
        Opcode(b) / 8 == 0xB8 / 8 && RexW(b) == 0 && Names(to, OpcodeReg(b)) && word == Imm32(b, Start(b) + 1)
    case Store32(at, disp, word) =>
      && !Prefixed(b) && Opcode(b) == 0xC7 && RegField(ModRm(b)) == 0 && BasePlus(b, at, disp)
      && word == Imm32(b, if RmField(ModRm(b)) == 4 then 4 else 3)
    case Syscall => b[..2] == [0x0F, 0x05]
    case Call(rel) => Opcode(b) == 0xE8 && rel == Signed32(Imm32(b, 1))
    case Jump(rel) =>
      (Opcode(b) == 0xE9 && rel == Signed32(Imm32(b, 1))) || (Opcode(b) == 0xEB && rel == Signed8(b[1]))
    case JumpIfZero(rel) => Opcode(b) == 0x74 && rel == Signed8(b[1])
    case CallIndirect(disp) => Opcode(b) == 0xFF && RegField(ModRm(b)) == 2 && RipRelative(b, disp)
  }

  /** The immediate of opcodes 83 and 81. */
  predicate Immediate(b: window, imm: int) {
    || (Opcode(b) == 0x83 && imm == Signed8(b[Start(b) + 2]))
    || (Opcode(b) == 0x81 && imm == Signed32(Imm32(b, Start(b) + 2)))
  }

  // ---------------------------------------------------------------- the decoder follows them

  lemma {:induction false} MovWFollows(b: window)
    requires b[0] == 0x48 && b[1] == 0x89 && DecodeMovW(b).Op?
    ensures Follows(b, DecodeMovW(b).instr)
  {
    if b[2] < 0xE0 {
      LowMovFollows(b);
    } else {
      HighMovFollows(b);
    }
  }

  lemma {:induction false} LowMovFollows(b: window)
    requires b[0] == 0x48 && b[1] == 0x89 && b[2] < 0xE0 && DecodeMovW(b).Op?
    ensures Follows(b, DecodeMovW(b).instr)
  {
    hide Imm32, Immediate, RipRelative, BasePlus;
  }

  lemma {:induction false} HighMovFollows(b: window)
    requires b[0] == 0x48 && b[1] == 0x89 && b[2] >= 0xE0 && DecodeMovW(b).Op?
    ensures Follows(b, DecodeMovW(b).instr)
  {
    hide Imm32, Immediate, RipRelative, BasePlus, Indexed;
  }

  lemma {:induction false} LeaWFollows(b: window)
    requires b[0] == 0x48 && b[1] == 0x8D && DecodeLeaW(b).Op?
    ensures Follows(b, DecodeLeaW(b).instr)
  {
    hide Imm32;
  }

  lemma {:induction false} RexWFollows(b: window)
    requires b[0] == 0x48 && DecodeRexW(b).Op?
    ensures Follows(b, DecodeRexW(b).instr)
  {
    if b[1] == 0x89 {
      hide Follows;
      MovWFollows(b);
    } else if b[1] == 0x8D {
      hide Follows;
      LeaWFollows(b);
    } else if b[1] == 0x83 || b[1] == 0x81 {
      hide Follows;
      AluWFollows(b);
    } else {
      hide Follows;
      RestWFollows(b);
    }
  }

  lemma {:induction false} AluWFollows(b: window)
    requires b[0] == 0x48 && (b[1] == 0x83 || b[1] == 0x81) && DecodeRexW(b).Op?
    ensures Follows(b, DecodeRexW(b).instr)
  {
    hide Imm32, DecodeMovW, DecodeLeaW, RipRelative, BasePlus, Indexed;
  }

  lemma {:induction false} RestWFollows(b: window)
    requires b[0] == 0x48 && b[1] !in {0x89, 0x8D, 0x83, 0x81} && DecodeRexW(b).Op?
    ensures Follows(b, DecodeRexW(b).instr)
  {
    hide Imm32, DecodeMovW, DecodeLeaW, RipRelative, BasePlus, Immediate;
  }

  lemma {:induction false} RexWRFollows(b: window)
    requires b[0] == 0x4C && DecodeRexWR(b).Op?
    ensures Follows(b, DecodeRexWR(b).instr)
  {
    hide Imm32;
  }

  lemma {:induction false} RexOtherFollows(b: window)
    requires (b[0] == 0x49 || b[0] == 0x41 || b[0] == 0x43 || b[0] == 0x45) && DecodeRexOther(b).Op?
    ensures Follows(b, DecodeRexOther(b).instr)
  {
    hide Imm32;
  }

  lemma {:induction false} Load32Follows(b: window)
    requires b[0] == 0x8B && DecodeLoad32(b).Op?
    ensures Follows(b, DecodeLoad32(b).instr)
  {
    hide Imm32;
  }

  lemma {:induction false} Store32Follows(b: window)
    requires b[0] == 0xC7 && DecodeStore32(b).Op?
    ensures Follows(b, DecodeStore32(b).instr)
  {
    hide Imm32;
  }

  lemma {:induction false} PlainFollows(b: window)
    requires !Prefixed(b) && DecodePlain(b).Op?
    ensures Follows(b, DecodePlain(b).instr)
  {
    hide Imm32;
  }

  /** Whatever the interpreter executes is what its bytes encode: operation, operands and immediate. */
  lemma {:induction false} DecodeFollows(b: window)
    requires Decode(b).Op?
    ensures Follows(b, Decode(b).instr)
  {
    hide Follows, DecodeRexW, DecodeRexWR, DecodeRexOther, DecodeLoad32, DecodeStore32, DecodePlain;
    if b[0] == 0x48 {
      RexWFollows(b);
    } else if b[0] == 0x4C {
      RexWRFollows(b);
    } else if b[0] == 0x49 || b[0] == 0x41 || b[0] == 0x43 || b[0] == 0x45 {
      RexOtherFollows(b);
    } else if b[0] == 0x8B {
      Load32Follows(b);
    } else if b[0] == 0xC7 {
      Store32Follows(b);
    } else {
      PlainNotPrefixed(b);
      PlainFollows(b);
    }
  }

  lemma {:induction false} PlainNotPrefixed(b: window)
    requires DecodePlain(b).Op?
    ensures !Prefixed(b)
  {
    hide Imm32;
  }

  // ---------------------------------------------------------------- destinations the interpreter lacks

  /** The number of the destination register an encoding names. */
  function DestinationNumber(b: window, i: Instr): int {
    if i.MovImm? then Opcode(b) % 8 + 8 * RexB(b) else RegField(ModRm(b)) + 8 * RexR(b)
  }

  /** The destinations that immediate moves, 32-bit loads and leas drop. */
  predicate Drops(i: Instr, n: int) {
    match i
    case MovImm(_, _) => n == 3 || n >= 10
    case Load32(_, _, _) => 3 <= n <= 5
    case Lea(_, _, _) => n == 1 || n == 3 || n == 4 || n >= 10
    case _ => false
  }

  /** Exactly for these destinations the result is dropped. */
  lemma {:induction false} DroppedExactly(b: window)
    requires Decode(b).Op? && (Decode(b).instr.Load32? || Decode(b).instr.Lea? || Decode(b).instr.MovImm?)
    requires Opcode(b) != 0xC7
    ensures Decode(b).instr.to == None <==> Drops(Decode(b).instr, DestinationNumber(b, Decode(b).instr))
  {
    MovesOnly(b);
    hide Imm32, DecodeMovW, AluOf;
  }

  lemma {:induction false} MovesOnly(b: window)
    ensures DecodeMovW(b).Op? ==> DecodeMovW(b).instr.Mov? || DecodeMovW(b).instr.StoreTable?
  {
  }

  /** For one, `mov ebx, 7` changes nothing but rip. */
  lemma {:induction false} DropHappens(base: u64, m: Machine, next: u64, reply: Execution.Reply)
    ensures var b: window := [0xBB, 7, 0, 0, 0, 0x90, 0x90, 0x90];
            && Decode(b) == Op(MovImm(None, 7), 5, true) && OpcodeReg(b) == Some(RBX)
            && Execution.Execute(base, m, Decode(b).instr, next, reply) ==
               Execution.Running(m.(cpu := m.cpu.(rip := next)))
  {
  }
}
