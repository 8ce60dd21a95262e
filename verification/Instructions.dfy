/** The x86-64 subset of the interpreter: machine states, instructions, their decoding from an
    eight-byte window, and their meaning. Instruction meaning follows the interpreter where it
    departs from the processor manual (arithmetic leaves the flags alone; 48 C7 zero-extends). */
module Instructions {
  import opened Words

  datatype CpuState = CpuState(
    rax: u64, rbp: u64, rbx: u64, rsp: u64, rdi: u64, rsi: u64, rdx: u64, rcx: u64,
    r8: u64, r9: u64, r10: u64, r12: u64, r13: u64, rip: u64, zf: bool, sf: bool)

  datatype Machine = Machine(cpu: CpuState, mem: bytes)

  datatype Reg = RAX | RCX | RDX | RBX | RSP | RBP | RSI | RDI | R8 | R9 | R10 | R12 | R13

  function Get(c: CpuState, r: Reg): u64 {
    match r
    case RAX => c.rax case RCX => c.rcx case RDX => c.rdx case RBX => c.rbx
    case RSP => c.rsp case RBP => c.rbp case RSI => c.rsi case RDI => c.rdi
    case R8 => c.r8 case R9 => c.r9 case R10 => c.r10 case R12 => c.r12 case R13 => c.r13
  }

  function Set(c: CpuState, r: Reg, v: u64): (s: CpuState)
    ensures s.rip == c.rip
  {
    match r
    case RAX => c.(rax := v) case RCX => c.(rcx := v) case RDX => c.(rdx := v) case RBX => c.(rbx := v)
    case RSP => c.(rsp := v) case RBP => c.(rbp := v) case RSI => c.(rsi := v) case RDI => c.(rdi := v)
    case R8 => c.(r8 := v) case R9 => c.(r9 := v) case R10 => c.(r10 := v)
    case R12 => c.(r12 := v) case R13 => c.(r13 := v)
  }

  /** A destination the interpreter does not implement drops the value. */
  function SetIf(c: CpuState, r: Option<Reg>, v: u64): CpuState {
    if r.Some? then Set(c, r.value, v) else c
  }

  datatype AluOp = Add | Or | Sub

  datatype Instr =
    | Nop
    | Stop
    | Push(src: Reg)
    | Pop(dst: Reg)
    | Mov(dst: Reg, src: Reg)
    | Zero(dst: Reg)
    | SignExtendEsi
    | LeaTable
    | StoreTable
    | LoadTable
    | Alu(op: AluOp, dst: Reg, imm: int)
    | AndRsp(imm: int)
    | Load32(to: Option<Reg>, at: Reg, disp: int)
    | Load64(dst: Reg, at: Reg)
    | Lea(to: Option<Reg>, at: Reg, disp: int)
    | LeaRip(dst: Reg, disp: int)
    | Test(src: Reg)
    | MoveIfNotSign
    | LoadAl
    | CmpAl(byteImm: byte)
    | MovImm(to: Option<Reg>, word: u32)
    | Store32(at: Reg, disp: int, word: u32)
    | Syscall
    | Call(rel: int)
    | Jump(rel: int)
    | JumpIfZero(rel: int)
    | CallIndirect(disp: int)

  // ---------------------------------------------------------------- decoding

  /** full: the immediate is fetched from memory, so all len bytes must lie inside it. */
  datatype Decoded = Op(instr: Instr, len: nat, full: bool) | Unknown(full: bool)

  type window = s: bytes | |s| == 8 witness [0, 0, 0, 0, 0, 0, 0, 0]

  function Imm32(b: window, o: nat): u32
    requires o + 4 <= 8
  {
    b[o] + TWO8 * b[o + 1] + TWO16 * b[o + 2] + TWO16 * TWO8 * b[o + 3]
  }

  function GeneralReg(n: int): Reg
    requires 0 <= n < 8
  {
    match n
    case 0 => RAX case 1 => RCX case 2 => RDX case 3 => RBX
    case 4 => RSP case 5 => RBP case 6 => RSI case _ => RDI
  }

  function Mode(modrm: byte): int { modrm / 64 }
  function RegField(modrm: byte): int { modrm / 8 % 8 }
  function RmField(modrm: byte): int { modrm % 8 }

  /** Registers that 32-bit loads, REX.W lea and REX.WR lea can target. */
  function LoadTarget(n: int): Option<Reg> {
    if n == 0 then Some(RAX) else if n == 1 then Some(RCX) else if n == 2 then Some(RDX)
    else if n == 6 then Some(RSI) else if n == 7 then Some(RDI) else None
  }

  function LeaTarget(n: int): Option<Reg> {
    if n == 0 then Some(RAX) else if n == 2 then Some(RDX) else if n == 5 then Some(RBP)
    else if n == 6 then Some(RSI) else if n == 7 then Some(RDI) else None
  }

  function HighTarget(n: int): Option<Reg> {
    if n == 0 then Some(R8) else if n == 1 then Some(R9) else None
  }

  function ImmTarget(n: int): Option<Reg> {
    if n == 3 || n < 0 || n > 7 then None else Some(GeneralReg(n))
  }

  function AluOf(n: int): Option<AluOp> {
    if n == 0 then Some(Add) else if n == 1 then Some(Or) else if n == 5 then Some(Sub) else None
  }

  /** 48 89 /r between registers, and the table store. */
  function DecodeMovW(b: window): Decoded {
    if b[2] == 0x7C && b[3] == 0xC2 && b[4] == 0x08 then Op(StoreTable, 5, false)
    else if b[2] == 0xC5 then Op(Mov(RBP, RAX), 3, false)
    else if b[2] == 0xE5 then Op(Mov(RBP, RSP), 3, false)
    else if b[2] == 0xEC then Op(Mov(RSP, RBP), 3, false)
    else if b[2] == 0xC7 then Op(Mov(RDI, RAX), 3, false)
    else if b[2] == 0xF8 then Op(Mov(RAX, RDI), 3, false)
    else if b[2] == 0xD7 then Op(Mov(RDI, RDX), 3, false)
    else if b[2] == 0xD6 then Op(Mov(RSI, RDX), 3, false)
    else if b[2] == 0xE7 then Op(Mov(RDI, RSP), 3, false)
    else if b[2] == 0xE2 then Op(Mov(RDX, RSP), 3, false)
    else if b[2] == 0xE6 then Op(Mov(RSI, RSP), 3, false)
    else Unknown(false)
  }

  /** 48 8D /r. */
  function DecodeLeaW(b: window): Decoded {
    if b[2] == 0x7C && b[3] == 0xC2 && b[4] == 0x08 then Op(LeaTable, 5, false)
    else if Mode(b[2]) == 1 && RmField(b[2]) != 4 then
      Op(Lea(LeaTarget(RegField(b[2])), GeneralReg(RmField(b[2])), Signed8(b[3])), 4, false)
    else if b[2] == 0x3D then Op(LeaRip(RDI, Signed32(Imm32(b, 3))), 7, true)
    else if b[2] == 0x35 then Op(LeaRip(RSI, Signed32(Imm32(b, 3))), 7, true)
    else Unknown(false)
  }

  function DecodeRexW(b: window): Decoded {
    if b[1] == 0x63 then if b[2] == 0xC6 then Op(SignExtendEsi, 3, false) else Unknown(false)
    else if b[1] == 0x89 then DecodeMovW(b)
    else if b[1] == 0x8D then DecodeLeaW(b)
    else if b[1] == 0x8B then
      if b[2] == 0x7C && b[3] == 0xC2 && b[4] == 0x08 then Op(LoadTable, 5, false)
      else if b[2] == 0x37 then Op(Load64(RSI, RDI), 3, false)
      else Unknown(false)
    else if b[1] == 0x83 then
      if Mode(b[2]) == 3 && AluOf(RegField(b[2])).Some? then
        Op(Alu(AluOf(RegField(b[2])).value, GeneralReg(RmField(b[2])), Signed8(b[3])), 4, false)
      else if b[2] == 0xE4 then Op(AndRsp(Signed8(b[3])), 4, false)
      else Unknown(false)
    else if b[1] == 0x81 then
      if Mode(b[2]) != 3 then Unknown(false)
      else if AluOf(RegField(b[2])).Some? then
        Op(Alu(AluOf(RegField(b[2])).value, GeneralReg(RmField(b[2])), Signed32(Imm32(b, 3))), 7, true)
      else Unknown(true)
    else if b[1] == 0x31 then if b[2] == 0xED then Op(Zero(RBP), 3, false) else Unknown(false)
    else if b[1] == 0x85 then
      if b[2] == 0xC0 then Op(Test(RAX), 3, false)
      else if b[2] == 0xD2 then Op(Test(RDX), 3, false)
      else Unknown(false)
    else if b[1] == 0x0F then if b[2] == 0x49 && b[3] == 0xD0 then Op(MoveIfNotSign, 4, false) else Unknown(false)
    else if b[1] == 0xC7 then
      if b[2] == 0xC0 then Op(MovImm(Some(RAX), Imm32(b, 3)), 7, true)
      else if b[2] == 0xC7 then Op(MovImm(Some(RDI), Imm32(b, 3)), 7, true)
      else if b[2] == 0xC6 then Op(MovImm(Some(RSI), Imm32(b, 3)), 7, true)
      else if b[2] == 0xC2 then Op(MovImm(Some(RDX), Imm32(b, 3)), 7, true)
      else Unknown(false)
    else Unknown(false)
  }

  /** Prefix 4C: r8 and r9 as the register operand. */
  function DecodeRexWR(b: window): Decoded {
    if b[1] == 0x89 then
      if b[2] == 0xC2 then Op(Mov(RDX, R8), 3, false)
      else if b[2] == 0xCE then Op(Mov(RSI, R9), 3, false)
      else Unknown(false)
    else if b[1] == 0x8D then
      if Mode(b[2]) == 1 && RmField(b[2]) != 4 then
        Op(Lea(HighTarget(RegField(b[2])), GeneralReg(RmField(b[2])), Signed8(b[3])), 4, false)
      else if b[2] == 0x4C && b[3] == 0x24 then Op(Lea(Some(R9), RSP, Signed8(b[4])), 5, false)
      else if b[2] == 0x05 then Op(LeaRip(R8, Signed32(Imm32(b, 3))), 7, true)
      else if b[2] == 0x0D then Op(LeaRip(R9, Signed32(Imm32(b, 3))), 7, true)
      else Unknown(false)
    else Unknown(false)
  }

  /** Prefixes 49, 41, 43 and 45. */
  function DecodeRexOther(b: window): Decoded {
    if b[0] == 0x49 then
      if b[1] == 0x89 && b[2] == 0xFD then Op(Mov(R13, RDI), 3, false)
      else if b[1] == 0x89 && b[2] == 0xD1 then Op(Mov(R9, RDX), 3, false)
      else if b[1] == 0x89 && b[2] == 0xD0 then Op(Mov(R8, RDX), 3, false)
      else Unknown(false)
    else if b[0] == 0x41 then
      if b[1] == 0x55 then Op(Push(R13), 2, false)
      else if b[1] == 0x5D then Op(Pop(R13), 2, false)
      else if b[1] == 0x54 then Op(Push(R12), 2, false)
      else if b[1] == 0x5C then Op(Pop(R12), 2, false)
      else if 0xB8 <= b[1] <= 0xBF then Op(MovImm(HighTarget(b[1] - 0xB8), Imm32(b, 2)), 6, true)
      else Unknown(false)
    else if b[0] == 0x43 then
      if b[1] == 0x8A && b[2] == 0x44 && b[3] == 0x01 && b[4] == 0xFF then Op(LoadAl, 5, false) else Unknown(false)
    else if b[0] == 0x45 && b[1] == 0x31 then
      if b[2] == 0xC0 then Op(Zero(R8), 3, false)
      else if b[2] == 0xC9 then Op(Zero(R9), 3, false)
      else if b[2] == 0xD2 then Op(Zero(R10), 3, false)
      else Unknown(false)
    else Unknown(false)
  }

  function DecodeLoad32(b: window): Decoded {
    if RmField(b[1]) == 4 then Unknown(false)
    else if Mode(b[1]) == 0 && RmField(b[1]) != 5 then
      Op(Load32(LoadTarget(RegField(b[1])), GeneralReg(RmField(b[1])), 0), 2, false)
    else if Mode(b[1]) == 1 then
      Op(Load32(LoadTarget(RegField(b[1])), GeneralReg(RmField(b[1])), Signed8(b[2])), 3, false)
    else Unknown(false)
  }

  function DecodeStore32(b: window): Decoded {
    if RegField(b[1]) == 0 && Mode(b[1]) == 1 && RmField(b[1]) != 4 then
      Op(Store32(GeneralReg(RmField(b[1])), Signed8(b[2]), Imm32(b, 3)), 7, true)
    else if b[1] == 0x44 && b[2] == 0x24 then Op(Store32(RSP, Signed8(b[3]), Imm32(b, 4)), 8, true)
    else Unknown(false)
  }

  function DecodePlain(b: window): Decoded {
    if b[0] == 0x90 then Op(Nop, 1, false)
    else if b[0] == 0xC3 || b[0] == 0xF4 then Op(Stop, 1, false)
    else if b[0] == 0x53 then Op(Push(RBX), 1, false)
    else if b[0] == 0x5B then Op(Pop(RBX), 1, false)
    else if b[0] == 0x55 then Op(Push(RBP), 1, false)
    else if b[0] == 0x5D then Op(Pop(RBP), 1, false)
    else if b[0] == 0x50 then Op(Push(RAX), 1, false)
    else if b[0] == 0x54 then Op(Push(RSP), 1, false)
    else if b[0] == 0x5E then Op(Pop(RSI), 1, false)
    else if b[0] == 0x31 then
      if b[1] == 0xED then Op(Zero(RBP), 2, false)
      else if b[1] == 0xC9 then Op(Zero(RCX), 2, false)
      else if b[1] == 0xD2 then Op(Zero(RDX), 2, false)
      else if b[1] == 0xC0 then Op(Zero(RAX), 2, false)
      else if b[1] == 0xFF then Op(Zero(RDI), 2, false)
      else Unknown(false)
    else if b[0] == 0x3C then Op(CmpAl(b[1]), 2, false)
    else if 0xB8 <= b[0] <= 0xBF then Op(MovImm(ImmTarget(b[0] - 0xB8), Imm32(b, 1)), 5, true)
    else if b[0] == 0x0F then if b[1] == 0x05 then Op(Syscall, 2, false) else Unknown(false)
    else if b[0] == 0xE8 then Op(Call(Signed32(Imm32(b, 1))), 5, true)
    else if b[0] == 0xE9 then Op(Jump(Signed32(Imm32(b, 1))), 5, true)
    else if b[0] == 0xEB then Op(Jump(Signed8(b[1])), 2, false)
    else if b[0] == 0x74 then Op(JumpIfZero(Signed8(b[1])), 2, false)
    else if b[0] == 0xFF then if b[1] == 0x15 then Op(CallIndirect(Signed32(Imm32(b, 2))), 6, true) else Unknown(false)
    else if b[0] == 0xF3 then
      if b[1] == 0x0F && b[2] == 0x1E && b[3] == 0xFA then Op(Nop, 4, false) else Unknown(false)
    else Unknown(false)
  }

  function Decode(b: window): Decoded {
    if b[0] == 0x48 then DecodeRexW(b)
    else if b[0] == 0x4C then DecodeRexWR(b)
    else if b[0] == 0x49 || b[0] == 0x41 || b[0] == 0x43 || b[0] == 0x45 then DecodeRexOther(b)
    else if b[0] == 0x8B then DecodeLoad32(b)
    else if b[0] == 0xC7 then DecodeStore32(b)
    else DecodePlain(b)
  }

  lemma {:induction false} Imm32Local(b: window, b': window, o: nat)
    requires o + 4 <= 8 && b[..o + 4] == b'[..o + 4]
    ensures Imm32(b, o) == Imm32(b', o)
  {
    assert b[o..o + 4] == b[..o + 4][o..] == b'[..o + 4][o..] == b'[o..o + 4];
  }

  /** The windows agree on their first n bytes, and so on the immediates within them. */
  predicate Agree(b: window, b': window, n: nat) {
    && n <= 8
    && (forall k :: 0 <= k < n ==> b[k] == b'[k])
    && (forall k :: 1 <= k <= n - 4 ==> Imm32(b, k) == Imm32(b', k))
  }

  lemma {:induction false} SameBytes(b: window, b': window, n: nat)
    requires n <= 8 && b[..n] == b'[..n]
    ensures Agree(b, b', n)
  {
    forall k | 0 <= k < n ensures b[k] == b'[k] {
      assert b[..n][k] == b'[..n][k];
    }
    forall k | 1 <= k <= n - 4 ensures Imm32(b, k) == Imm32(b', k) {
      assert b[..k + 4] == b[..n][..k + 4] == b'[..n][..k + 4] == b'[..k + 4];
      Imm32Local(b, b', k);
    }
  }

  lemma {:induction false} DecodeMovWLocal(b: window, b': window)
    requires DecodeMovW(b).Op? && Agree(b, b', DecodeMovW(b).len)
    ensures DecodeMovW(b') == DecodeMovW(b) && DecodeMovW(b).len >= 3
  {
    hide Imm32, RegField, RmField, Mode, GeneralReg, AluOf, LeaTarget, LoadTarget, HighTarget, ImmTarget;
  }

  lemma {:induction false} DecodeLeaWLocal(b: window, b': window)
    requires DecodeLeaW(b).Op? && Agree(b, b', DecodeLeaW(b).len)
    ensures DecodeLeaW(b') == DecodeLeaW(b) && DecodeLeaW(b).len >= 3
  {
    hide Imm32, RegField, GeneralReg, LeaTarget;
  }

  lemma {:induction false} DecodeRexWLocal(b: window, b': window)
    requires DecodeRexW(b).Op? && Agree(b, b', DecodeRexW(b).len)
    ensures DecodeRexW(b') == DecodeRexW(b)
  {
    hide Imm32, RegField, RmField, Mode, GeneralReg, AluOf, DecodeMovW, DecodeLeaW;
    if b[1] == 0x89 {
      DecodeMovWLocal(b, b');
    } else if b[1] == 0x8D {
      DecodeLeaWLocal(b, b');
    }
  }

  lemma {:induction false} DecodeRexWRLocal(b: window, b': window)
    requires DecodeRexWR(b).Op? && Agree(b, b', DecodeRexWR(b).len)
    ensures DecodeRexWR(b') == DecodeRexWR(b)
  {
    hide Imm32, RegField, RmField, Mode, GeneralReg, AluOf, LeaTarget, LoadTarget, HighTarget, ImmTarget;
  }

  lemma {:induction false} DecodeRexOtherLocal(b: window, b': window)
    requires DecodeRexOther(b).Op? && Agree(b, b', DecodeRexOther(b).len)
    ensures DecodeRexOther(b') == DecodeRexOther(b)
  {
    hide Imm32, RegField, RmField, Mode, GeneralReg, AluOf, LeaTarget, LoadTarget, HighTarget, ImmTarget;
  }

  lemma {:induction false} DecodeLoad32Local(b: window, b': window)
    requires DecodeLoad32(b).Op? && Agree(b, b', DecodeLoad32(b).len)
    ensures DecodeLoad32(b') == DecodeLoad32(b)
  {
    hide Imm32, RegField, RmField, Mode, GeneralReg, AluOf, LeaTarget, LoadTarget, HighTarget, ImmTarget;
  }

  lemma {:induction false} DecodeStore32Local(b: window, b': window)
    requires DecodeStore32(b).Op? && Agree(b, b', DecodeStore32(b).len)
    ensures DecodeStore32(b') == DecodeStore32(b)
  {
    hide Imm32, RegField, RmField, Mode, GeneralReg, AluOf, LeaTarget, LoadTarget, HighTarget, ImmTarget;
  }

  lemma {:induction false} DecodePlainLocal(b: window, b': window)
    requires DecodePlain(b).Op? && Agree(b, b', DecodePlain(b).len)
    ensures DecodePlain(b') == DecodePlain(b)
  {
    hide Imm32, RegField, RmField, Mode, GeneralReg, AluOf, LeaTarget, LoadTarget, HighTarget, ImmTarget;
  }

  /** The bytes after an instruction have no say in how it is decoded. */
  lemma {:induction false} DecodeIsLocal(b: window, b': window)
    requires Decode(b).Op? && Decode(b).len <= 8 && b[..Decode(b).len] == b'[..Decode(b).len]
    ensures Decode(b') == Decode(b)
  {
    DecodeLength(b);
    hide DecodeRexW, DecodeRexWR, DecodeRexOther, DecodeLoad32, DecodeStore32, DecodePlain;
    SameBytes(b, b', Decode(b).len);
    if b[0] == 0x48 {
      DecodeRexWLocal(b, b');
    } else if b[0] == 0x4C {
      DecodeRexWRLocal(b, b');
    } else if b[0] == 0x49 || b[0] == 0x41 || b[0] == 0x43 || b[0] == 0x45 {
      DecodeRexOtherLocal(b, b');
    } else if b[0] == 0x8B {
      DecodeLoad32Local(b, b');
    } else if b[0] == 0xC7 {
      DecodeStore32Local(b, b');
    } else {
      DecodePlainLocal(b, b');
    }
  }

  lemma {:induction false} DecodeLength(b: window)
    ensures Decode(b).Op? ==> 1 <= Decode(b).len <= 8
  {
    hide Imm32;
  }
}
