/**
 testbench/riscv_inst.h: the instruction decoder and encoder of the test bench, on 32-bit words,
 against the bit patterns and immediate macros of ISA.svh. The instruction formats are those of
 sections 2.2 and 2.3 of the RISC-V Unprivileged ISA manual, version 20191213.
 */
module RiscvInst {

  datatype Op =
    | LUI | ADDI | SLTI | SLTIU | ANDI | ORI | XORI | SLLI | SRLI | SRAI | AUIPC | ADD | SLT | SLTU | AND | OR
    | XOR | SLL | SRL | SRA | SUB | NOP | JAL | JALR | BEQ | BNE | BLT | BLTU | BGE | BGEU | LB | LH | LW | LBU
    | LHU | SB | SH | SW | MUL | MULH | MULHU | MULHSU | WFI | INVALID | NUM_OP_T

  datatype Format = RType | IType | SType | UType | PType

  datatype ImmKind = Rimm | Iimm | Simm | Bimm | Uimm | Jimm

  // ----- fields of a word -----

  function Opcode(w: bv32): bv32 { w & 0x7f }
  function Rd(w: bv32): bv32 { (w >> 7) & 0x1f }
  function Funct3(w: bv32): bv32 { (w >> 12) & 0x7 }
  function Rs1(w: bv32): bv32 { (w >> 15) & 0x1f }
  function Rs2(w: bv32): bv32 { (w >> 20) & 0x1f }
  function Funct7(w: bv32): bv32 { w >> 25 }
  function Funct12(w: bv32): bv32 { w >> 20 }
  predicate Sign(w: bv32) { (w >> 31) & 0x1 == 1 }

  // ----- ISA.svh: instruction patterns and immediate macros -----

  datatype Pattern =
    | RPattern(opcode: bv32, funct3: bv32, funct7: bv32)
    | IPattern(opcode: bv32, funct3: bv32)
    | SPattern(opcode: bv32, funct3: bv32)
    | UPattern(opcode: bv32)
    | WordPattern(word: bv32)
    | NoPattern

  /** The groups of ISA.svh that share an opcode and a layout. */
  datatype Group =
    | Upper | Jump | JumpRegister | Branch | Load | Store | Immediate | Shift | Arithmetic | System | NoGroup

  function GroupOf(op: Op): Group {
    match op
    case LUI | AUIPC => Upper
    case ADDI | SLTI | SLTIU | ANDI | ORI | XORI => Immediate
    case SLLI | SRLI | SRAI => Shift
    case ADD | SLT | SLTU | AND | OR | XOR | SLL | SRL | SRA | SUB | MUL | MULH | MULHU | MULHSU => Arithmetic
    case JAL => Jump
    case JALR => JumpRegister
    case BEQ | BNE | BLT | BLTU | BGE | BGEU => Branch
    case LB | LH | LW | LBU | LHU => Load
    case SB | SH | SW => Store
    case WFI => System
    case _ => NoGroup
  }

  function BranchFunct3(op: Op): bv32
    requires GroupOf(op) == Branch
  {
    match op
    case BEQ => 0
    case BNE => 1
    case BLT => 4
    case BLTU => 6
    case BGE => 5
    case BGEU => 7
  }

  function LoadFunct3(op: Op): bv32
    requires GroupOf(op) == Load
  {
    match op
    case LB => 0
    case LH => 1
    case LW => 2
    case LBU => 4
    case LHU => 5
  }

  function StoreFunct3(op: Op): bv32
    requires GroupOf(op) == Store
  {
    match op
    case SB => 0
    case SH => 1
    case SW => 2
  }

  function ImmediateFunct3(op: Op): bv32
    requires GroupOf(op) == Immediate
  {
    match op
    case ADDI => 0
    case SLTI => 2
    case SLTIU => 3
    case ANDI => 7
    case ORI => 6
    case XORI => 4
  }

  function ShiftFunct3(op: Op): bv32
    requires GroupOf(op) == Shift
  {
    match op
    case SLLI => 1
    case SRLI | SRAI => 5
  }

  function ShiftFunct7(op: Op): bv32
    requires GroupOf(op) == Shift
  {
    match op
    case SLLI | SRLI => 0
    case SRAI => 0x20
  }

  function ArithmeticFunct3(op: Op): bv32
    requires GroupOf(op) == Arithmetic
  {
    match op
    case ADD | SUB | MUL => 0
    case SLT | MULHSU => 2
    case SLTU | MULHU => 3
    case AND => 7
    case OR => 6
    case XOR => 4
    case SLL | MULH => 1
    case SRL | SRA => 5
  }

  function ArithmeticFunct7(op: Op): bv32
    requires GroupOf(op) == Arithmetic
  {
    match op
    case ADD | SLT | SLTU | AND | OR | XOR | SLL | SRL => 0
    case SRA | SUB => 0x20
    case MUL | MULH | MULHU | MULHSU => 1
  }

  function IsaPattern(op: Op): Pattern {
    match GroupOf(op)
    case Upper => UPattern(if op.LUI? then 0x37 else 0x17)
    case Jump => UPattern(0x6f)
    case JumpRegister => IPattern(0x67, 0)
    case Branch => SPattern(0x63, BranchFunct3(op))
    case Load => IPattern(0x03, LoadFunct3(op))
    case Store => SPattern(0x23, StoreFunct3(op))
    case Immediate => IPattern(0x13, ImmediateFunct3(op))
    case Shift => RPattern(0x13, ShiftFunct3(op), ShiftFunct7(op))
    case Arithmetic => RPattern(0x33, ArithmeticFunct3(op), ArithmeticFunct7(op))
    case System => WordPattern(0x1050_0073)
    case NoGroup => NoPattern
  }

  predicate Matches(w: bv32, p: Pattern) {
    match p
    case RPattern(opcode, funct3, funct7) => Opcode(w) == opcode && Funct3(w) == funct3 && Funct7(w) == funct7
    case IPattern(opcode, funct3) => Opcode(w) == opcode && Funct3(w) == funct3
    case SPattern(opcode, funct3) => Opcode(w) == opcode && Funct3(w) == funct3
    case UPattern(opcode) => Opcode(w) == opcode
    case WordPattern(word) => w == word
    case NoPattern => false
  }

  /** Copies of bit 31 in every position of the mask. */
  function SignFill(w: bv32, mask: bv32): bv32 { if Sign(w) then mask else 0 }

  function LowI(w: bv32): bv32 { (w >> 20) & 0x7ff }

  function LowS(w: bv32): bv32 { (((w >> 25) & 0x3f) << 5) | ((w >> 7) & 0x1f) }

  function LowB(w: bv32): bv32 { (((w >> 7) & 0x1) << 11) | (((w >> 25) & 0x3f) << 5) | (((w >> 8) & 0xf) << 1) }

  function LowJ(w: bv32): bv32 {
    (((w >> 12) & 0xff) << 12) | (((w >> 20) & 0x1) << 11) | (((w >> 21) & 0x3ff) << 1)
  }

  function SignextI(w: bv32): bv32 { SignFill(w, 0xffff_f800) | LowI(w) }

  function SignextS(w: bv32): bv32 { SignFill(w, 0xffff_f800) | LowS(w) }

  function SignextB(w: bv32): bv32 { SignFill(w, 0xffff_f000) | LowB(w) }

  function SignextU(w: bv32): bv32 { (w >> 12) << 12 }

  function SignextJ(w: bv32): bv32 { SignFill(w, 0xfff0_0000) | LowJ(w) }

  // ----- what decode recognises -----

  predicate HasCase(op: Op) { GroupOf(op) != NoGroup }

  /** JALR is recognised whatever its funct3, WFI whatever its rd and rs1; all others exactly by their pattern. */
  predicate Accepts(op: Op, w: bv32) {
    if op.JALR? then Opcode(w) == 0x67
    else if op.WFI? then Opcode(w) == 0x73 && Funct3(w) == 0 && Funct12(w) == 0x105
    else Matches(w, IsaPattern(op))
  }

  /** op is an answer to w: an op that accepts it, or INVALID if there is none. */
  ghost predicate Answers(op: Op, w: bv32) {
    if op == INVALID then forall o :: HasCase(o) ==> !Accepts(o, w) else HasCase(op) && Accepts(op, w)
  }

  /** The op that accepts the word; no word is accepted by two. */
  ghost function OpOf(w: bv32): Op {
    if exists o :: HasCase(o) && Accepts(o, w) then
      var o :| HasCase(o) && Accepts(o, w); o
    else INVALID
  }

  lemma OpAnswers(w: bv32)
    ensures Answers(OpOf(w), w)
  {
    hide Accepts, GroupOf;
    OtherOps(INVALID);
  }

  /** The format and immediate kind decode stores; an unknown opcode leaves the previous ones in place. */
  function FormatOf(w: bv32, previous: Format): Format {
    var opcode := Opcode(w);
    if opcode == 0x37 || opcode == 0x17 || opcode == 0x6f then UType
    else if opcode == 0x67 || opcode == 0x03 || opcode == 0x13 then IType
    else if opcode == 0x63 || opcode == 0x23 then SType
    else if opcode == 0x33 then RType
    else if opcode == 0x73 then PType
    else previous
  }

  function ImmKindOf(w: bv32, previous: ImmKind): ImmKind {
    var opcode := Opcode(w);
    if opcode == 0x37 || opcode == 0x17 then Uimm
    else if opcode == 0x6f then Jimm
    else if opcode == 0x67 || opcode == 0x03 || opcode == 0x13 then Iimm
    else if opcode == 0x63 then Bimm
    else if opcode == 0x23 then Simm
    else if opcode == 0x33 || opcode == 0x73 then Rimm
    else previous
  }

  /** The immediate by the macros of ISA.svh; U is kept unshifted, and shifts take only their amount. */
  function ImmediateOf(w: bv32, kind: ImmKind, previous: bv32): bv32 {
    match kind
    case Iimm => if Opcode(w) == 0x13 && (Funct3(w) == 1 || Funct3(w) == 5) then Rs2(w) else SignextI(w)
    case Simm => SignextS(w)
    case Bimm => SignextB(w)
    case Uimm => w >> 12
    case Jimm => SignextJ(w)
    case Rimm => previous
  }

  datatype Fields = Fields(
    opcode: bv32, funct3: bv32, funct7: bv32, funct12: bv32, rs1: bv32, rs2: bv32, rd: bv32,
    immValue: bv32, op: Op, riscv: Format, imm: ImmKind)

  ghost function DecodeFields(w: bv32, previous: Fields): Fields {
    var kind := ImmKindOf(w, previous.imm);
    Fields(Opcode(w), Funct3(w), Funct7(w), Funct12(w), Rs1(w), Rs2(w), Rd(w),
           ImmediateOf(w, kind, previous.immValue), OpOf(w), FormatOf(w, previous.riscv), kind)
  }

  // ----- the words of each format -----

  function WordR(opcode: bv32, rd: bv32, f3: bv32, rs1: bv32, rs2: bv32, f7: bv32): bv32 {
    opcode | (rd << 7) | (f3 << 12) | (rs1 << 15) | (rs2 << 20) | (f7 << 25)
  }

  function WordI(opcode: bv32, rd: bv32, f3: bv32, rs1: bv32, imm: bv32): bv32 {
    opcode | (rd << 7) | (f3 << 12) | (rs1 << 15) | (imm << 20)
  }

  function WordS(opcode: bv32, f3: bv32, rs1: bv32, rs2: bv32, imm: bv32): bv32 {
    opcode | (f3 << 12) | (rs1 << 15) | (rs2 << 20) | ((imm & 0x1f) << 7) | (((imm >> 5) & 0x3f) << 25)
  }

  function WordB(opcode: bv32, f3: bv32, rs1: bv32, rs2: bv32, imm: bv32): bv32 {
    opcode | (f3 << 12) | (rs1 << 15) | (rs2 << 20)
    | (((imm >> 11) & 0x1) << 7) | (((imm >> 1) & 0xf) << 8) | (((imm >> 5) & 0x3f) << 25) | (((imm >> 12) & 0x1) << 31)
  }

  function WordU(opcode: bv32, rd: bv32, imm: bv32): bv32 { opcode | (rd << 7) | ((imm & 0xfffff) << 12) }

  function WordJ(opcode: bv32, rd: bv32, imm: bv32): bv32 {
    opcode | (rd << 7)
    | (((imm >> 12) & 0xff) << 12) | (((imm >> 11) & 0x1) << 20)
    | (((imm >> 1) & 0x3ff) << 21) | (((imm >> 20) & 0x1) << 31)
  }

  predicate IsShiftImmediate(op: Op) { op.SLLI? || op.SRLI? || op.SRAI? }

  function EncodeFields(f: Fields): bv32 {
    match f.riscv
    case RType => WordR(f.opcode, f.rd, f.funct3, f.rs1, f.rs2, f.funct7)
    case IType =>
      if IsShiftImmediate(f.op) then WordR(f.opcode, f.rd, f.funct3, f.rs1, f.immValue & 0x1f, f.funct7)
      else WordI(f.opcode, f.rd, f.funct3, f.rs1, f.immValue)
    case SType =>
      if f.imm == Simm then WordS(f.opcode, f.funct3, f.rs1, f.rs2, f.immValue)
      else if f.imm == Bimm then WordB(f.opcode, f.funct3, f.rs1, f.rs2, f.immValue)
      else f.opcode | (f.funct3 << 12) | (f.rs1 << 15) | (f.rs2 << 20)
    case UType =>
      if f.imm == Uimm then WordU(f.opcode, f.rd, f.immValue)
      else if f.imm == Jimm then WordJ(f.opcode, f.rd, f.immValue)
      else f.opcode | (f.rd << 7)
    case PType => WordI(f.opcode, f.rd, f.funct3, f.rs1, f.funct12)
  }

  /** The fields select chooses; the others it leaves undefined. */
  datatype Selected = Selected(riscv: Format, imm: ImmKind, opcode: bv32, funct3: bv32, funct7: bv32, funct12: bv32)

  /** The selection agrees with the pattern of ISA.svh wherever that pattern fixes bits. */
  predicate SelectedFor(op: Op, s: Selected) { Agrees(IsaPattern(op), s) }

  predicate Agrees(p: Pattern, s: Selected) {
    match p
    case RPattern(opcode, f3, f7) =>
      s.opcode == opcode && s.funct3 == f3 && s.funct7 == f7
      && if opcode == 0x33 then s.riscv == RType && s.imm == Rimm else s.riscv == IType && s.imm == Iimm
    case IPattern(opcode, f3) => s.opcode == opcode && s.funct3 == f3 && s.riscv == IType && s.imm == Iimm
    case SPattern(opcode, f3) =>
      s.opcode == opcode && s.funct3 == f3 && s.riscv == SType && s.imm == if opcode == 0x63 then Bimm else Simm
    case UPattern(opcode) => s.opcode == opcode && s.riscv == UType && s.imm == Uimm
    case WordPattern(word) =>
      s.opcode == Opcode(word) && s.funct3 == Funct3(word) && s.funct12 == Funct12(word)
      && s.riscv == PType && s.imm == Rimm
    case NoPattern => false
  }

  /** The masks of analyze: ones from bit 11, 12 or 20 up. */
  const IMASK: bv32 := ((1 << 22) - 1) << 11
  const BMASK: bv32 := ((1 << 21) - 1) << 12
  const JMASK: bv32 := ((1 << 13) - 1) << 20

  // The members of each group.

  lemma BranchOps(op: Op)
    ensures GroupOf(op) == Branch <==> op.BEQ? || op.BNE? || op.BLT? || op.BLTU? || op.BGE? || op.BGEU?
  {
  }

  lemma LoadOps(op: Op)
    ensures GroupOf(op) == Load <==> op.LB? || op.LH? || op.LW? || op.LBU? || op.LHU?
  {
  }

  lemma StoreOps(op: Op)
    ensures GroupOf(op) == Store <==> op.SB? || op.SH? || op.SW?
  {
  }

  lemma ArithmeticOps(op: Op)
    ensures GroupOf(op) == Arithmetic <==>
      || op.ADD? || op.SLT? || op.SLTU? || op.AND? || op.OR? || op.XOR? || op.SLL? || op.SRL?
      || op.SRA? || op.SUB? || op.MUL? || op.MULH? || op.MULHU? || op.MULHSU?
  {
  }

  lemma ImmediateOps(op: Op)
    ensures GroupOf(op) == Immediate <==> op.ADDI? || op.SLTI? || op.SLTIU? || op.ANDI? || op.ORI? || op.XORI?
  {
  }

  lemma ShiftOps(op: Op)
    ensures GroupOf(op) == Shift <==> op.SLLI? || op.SRLI? || op.SRAI?
  {
  }

  lemma FieldBounds(w: bv32)
    ensures Funct3(w) < 8 && Funct7(w) < 128 && Rs1(w) < 32 && Rs2(w) < 32 && Rd(w) < 32 && Opcode(w) < 128
  {
  }

  /** The combined key of the arithmetic switch keeps funct7 and funct3 apart. */
  lemma KeyParts(f7: bv32, f3: bv32)
    requires f7 < 128 && f3 < 8
    ensures ((f7 << 4) | f3) >> 4 == f7 && ((f7 << 4) | f3) & 0x7 == f3
  {
  }

  /** funct7 and funct3 of an arithmetic op, as its switch combines them. */
  function Key(op: Op): bv32
    requires GroupOf(op) == Arithmetic
  {
    (ArithmeticFunct7(op) << 4) | ArithmeticFunct3(op)
  }

  lemma ArithmeticKey(op: Op)
    requires GroupOf(op) == Arithmetic
    ensures var key := Key(op);
      || (op.ADD? && key == 0x000) || (op.SLL? && key == 0x001) || (op.SLT? && key == 0x002)
      || (op.SLTU? && key == 0x003) || (op.XOR? && key == 0x004) || (op.SRL? && key == 0x005)
      || (op.OR? && key == 0x006) || (op.AND? && key == 0x007) || (op.MUL? && key == 0x010)
      || (op.MULH? && key == 0x011) || (op.MULHSU? && key == 0x012) || (op.MULHU? && key == 0x013)
      || (op.SUB? && key == 0x200) || (op.SRA? && key == 0x205)
  {
    hide GroupOf;
    ArithmeticOps(op);
  }

  lemma ArithmeticBounds(op: Op)
    requires GroupOf(op) == Arithmetic
    ensures ArithmeticFunct3(op) < 8 && ArithmeticFunct7(op) < 128
  {
    hide GroupOf;
    ArithmeticOps(op);
  }

  lemma KeyFields(op: Op, f3: bv32, f7: bv32)
    requires f3 < 8 && f7 < 128 && GroupOf(op) == Arithmetic
    ensures Key(op) == (f7 << 4) | f3 <==> ArithmeticFunct3(op) == f3 && ArithmeticFunct7(op) == f7
  {
    hide GroupOf, ArithmeticFunct3, ArithmeticFunct7;
    ArithmeticBounds(op);
    KeyParts(f7, f3);
    KeyParts(ArithmeticFunct7(op), ArithmeticFunct3(op));
  }

  lemma KeyAnswers(answer: Op, f3: bv32, f7: bv32)
    requires f3 < 8 && f7 < 128
    requires answer != INVALID ==> GroupOf(answer) == Arithmetic && Key(answer) == (f7 << 4) | f3
    requires answer == INVALID ==> forall o :: GroupOf(o) == Arithmetic ==> Key(o) != (f7 << 4) | f3
    ensures AnswersIn(answer, Arithmetic, f3, f7)
  {
    hide GroupOf, Key, BranchFunct3, LoadFunct3, StoreFunct3, ImmediateFunct3;
    hide ShiftFunct3, ShiftFunct7, ArithmeticFunct3, ArithmeticFunct7;
    if answer != INVALID {
      KeyFields(answer, f3, f7);
    } else {
      forall o ensures !Has(o, Arithmetic, f3, f7) {
        if GroupOf(o) == Arithmetic { KeyFields(o, f3, f7); }
      }
    }
  }

  lemma OtherOps(op: Op)
    ensures GroupOf(op) == Upper <==> op.LUI? || op.AUIPC?
    ensures GroupOf(op) == Jump <==> op.JAL?
    ensures GroupOf(op) == JumpRegister <==> op.JALR?
    ensures GroupOf(op) == System <==> op.WFI?
    ensures op.INVALID? ==> GroupOf(op) == NoGroup
  {
  }

  /** The rows of the pattern table, one group at a time. */
  lemma PatternRows(op: Op)
    ensures GroupOf(op) == Branch ==> IsaPattern(op) == SPattern(0x63, BranchFunct3(op))
    ensures GroupOf(op) == Load ==> IsaPattern(op) == IPattern(0x03, LoadFunct3(op))
    ensures GroupOf(op) == Store ==> IsaPattern(op) == SPattern(0x23, StoreFunct3(op))
    ensures GroupOf(op) == Immediate ==> IsaPattern(op) == IPattern(0x13, ImmediateFunct3(op))
    ensures GroupOf(op) == Shift ==> IsaPattern(op) == RPattern(0x13, ShiftFunct3(op), ShiftFunct7(op))
    ensures GroupOf(op) == Arithmetic ==> IsaPattern(op) == RPattern(0x33, ArithmeticFunct3(op), ArithmeticFunct7(op))
    ensures op.LUI? ==> IsaPattern(op) == UPattern(0x37)
    ensures op.AUIPC? ==> IsaPattern(op) == UPattern(0x17)
    ensures op.JAL? ==> IsaPattern(op) == UPattern(0x6f)
    ensures op.JALR? ==> IsaPattern(op) == IPattern(0x67, 0)
    ensures op.WFI? ==> IsaPattern(op) == WordPattern(0x1050_0073)
    ensures !HasCase(op) ==> IsaPattern(op) == NoPattern
  {
    hide GroupOf;
    hide BranchFunct3, LoadFunct3, StoreFunct3, ImmediateFunct3;
    hide ShiftFunct3, ShiftFunct7, ArithmeticFunct3, ArithmeticFunct7;
    OtherOps(op);
  }

  /** op is the member of group g with these funct fields. */
  predicate Has(op: Op, g: Group, f3: bv32, f7: bv32) {
    && GroupOf(op) == g
    && match g
       case Branch => BranchFunct3(op) == f3
       case Load => LoadFunct3(op) == f3
       case Store => StoreFunct3(op) == f3
       case Immediate => ImmediateFunct3(op) == f3
       case Shift => ShiftFunct3(op) == f3 && ShiftFunct7(op) == f7
       case Arithmetic => ArithmeticFunct3(op) == f3 && ArithmeticFunct7(op) == f7
       case _ => true
  }

  function OpcodeOf(op: Op): bv32 {
    match GroupOf(op)
    case Upper => if op.LUI? then 0x37 else 0x17
    case Jump => 0x6f
    case JumpRegister => 0x67
    case Branch => 0x63
    case Load => 0x03
    case Store => 0x23
    case Immediate | Shift => 0x13
    case Arithmetic => 0x33
    case System => 0x73
    case NoGroup => 0
  }

  /** What an op accepts: its opcode with its funct fields, and for WFI the one code of its kind. */
  lemma AcceptRow(op: Op, w: bv32)
    requires HasCase(op)
    ensures Accepts(op, w) <==>
      && Opcode(w) == OpcodeOf(op) && Has(op, GroupOf(op), Funct3(w), Funct7(w))
      && (op.WFI? ==> Funct3(w) == 0 && Funct12(w) == 0x105)
  {
    hide IsaPattern, GroupOf, Opcode, Funct3, Funct7, Funct12;
    hide BranchFunct3, LoadFunct3, StoreFunct3, ImmediateFunct3;
    hide ShiftFunct3, ShiftFunct7, ArithmeticFunct3, ArithmeticFunct7;
    PatternRows(op);
    OtherOps(op);
  }

  /** op answers within group g: its member with these funct fields, or INVALID if there is none. */
  ghost predicate AnswersIn(op: Op, g: Group, f3: bv32, f7: bv32) {
    if op == INVALID then forall o :: !Has(o, g, f3, f7) else Has(op, g, f3, f7)
  }

  /** Within a group that has an opcode to itself, the inner switch decides. */
  lemma GroupAnswers(op: Op, g: Group, w: bv32)
    requires AnswersIn(op, g, Funct3(w), Funct7(w))
    requires match g case Branch => Opcode(w) == 0x63 case Load => Opcode(w) == 0x03 case Store => Opcode(w) == 0x23
      case Arithmetic => Opcode(w) == 0x33 case _ => false
    ensures Answers(op, w)
  {
    hide Accepts, GroupOf, Opcode, Funct3, Funct7, Funct12;
    hide BranchFunct3, LoadFunct3, StoreFunct3, ImmediateFunct3;
    hide ShiftFunct3, ShiftFunct7, ArithmeticFunct3, ArithmeticFunct7;
    OtherOps(op);
    if op == INVALID {
      forall o | HasCase(o) ensures !Accepts(o, w) {
        AcceptRow(o, w);
      }
    } else {
      AcceptRow(op, w);
    }
  }

  lemma ImmediateGroup(op: Op)
    ensures OpcodeOf(op) == 0x13 <==> GroupOf(op) == Immediate || GroupOf(op) == Shift
  {
    hide GroupOf;
  }

  lemma GroupOfMember(op: Op, f3: bv32, f7: bv32)
    requires Has(op, Immediate, f3, f7) || Has(op, Shift, f3, f7)
    ensures Has(op, GroupOf(op), f3, f7) && (GroupOf(op) == Immediate || GroupOf(op) == Shift)
  {
    hide GroupOf;
  }

  lemma ImmediateAnswers(op: Op, w: bv32)
    requires Opcode(w) == 0x13
    requires if op == INVALID then
        AnswersIn(op, Immediate, Funct3(w), Funct7(w)) && AnswersIn(op, Shift, Funct3(w), Funct7(w))
      else
        Has(op, Immediate, Funct3(w), Funct7(w)) || Has(op, Shift, Funct3(w), Funct7(w))
    ensures Answers(op, w)
  {
    hide Accepts, GroupOf, OpcodeOf, Has, Opcode, Funct3, Funct7, Funct12;
    OtherOps(op);
    if op == INVALID {
      forall o | HasCase(o) ensures !Accepts(o, w) {
        AcceptRow(o, w);
        ImmediateGroup(o);
      }
    } else {
      GroupOfMember(op, Funct3(w), Funct7(w));
      AcceptRow(op, w);
      ImmediateGroup(op);
    }
  }

  /** The opcodes without an inner switch on funct3, and those without a case. */
  lemma OtherAnswers(op: Op, w: bv32)
    requires
      var opcode := Opcode(w);
      && opcode != 0x63 && opcode != 0x03 && opcode != 0x23 && opcode != 0x13 && opcode != 0x33
      && op == if opcode == 0x37 then LUI else if opcode == 0x17 then AUIPC
           else if opcode == 0x6f then JAL else if opcode == 0x67 then JALR
           else if opcode == 0x73 && Funct3(w) == 0 && Funct12(w) == 0x105 then WFI else INVALID
    ensures Answers(op, w)
  {
    hide Accepts, GroupOf, Opcode, Funct3, Funct7, Funct12;
    hide BranchFunct3, LoadFunct3, StoreFunct3, ImmediateFunct3;
    hide ShiftFunct3, ShiftFunct7, ArithmeticFunct3, ArithmeticFunct7;
    OtherOps(op);
    if op == INVALID {
      forall o | HasCase(o) ensures !Accepts(o, w) {
        AcceptRow(o, w);
        OtherOps(o);
      }
    } else {
      AcceptRow(op, w);
    }
  }

  // ----- no two ops of a group share their funct fields -----

  lemma BranchesDiffer(a: Op, b: Op)
    requires GroupOf(a) == GroupOf(b) == Branch && BranchFunct3(a) == BranchFunct3(b)
    ensures a == b
  {
  }

  lemma LoadsDiffer(a: Op, b: Op)
    requires GroupOf(a) == GroupOf(b) == Load && LoadFunct3(a) == LoadFunct3(b)
    ensures a == b
  {
  }

  lemma StoresDiffer(a: Op, b: Op)
    requires GroupOf(a) == GroupOf(b) == Store && StoreFunct3(a) == StoreFunct3(b)
    ensures a == b
  {
  }

  lemma ImmediatesDiffer(a: Op, b: Op)
    requires GroupOf(a) == GroupOf(b) == Immediate && ImmediateFunct3(a) == ImmediateFunct3(b)
    ensures a == b
  {
  }

  lemma ShiftsDiffer(a: Op, b: Op)
    requires GroupOf(a) == GroupOf(b) == Shift
    requires ShiftFunct3(a) == ShiftFunct3(b) && ShiftFunct7(a) == ShiftFunct7(b)
    ensures a == b
  {
  }

  lemma ArithmeticsDiffer(a: Op, b: Op)
    requires GroupOf(a) == GroupOf(b) == Arithmetic
    requires ArithmeticFunct3(a) == ArithmeticFunct3(b) && ArithmeticFunct7(a) == ArithmeticFunct7(b)
    ensures a == b
  {
  }

  lemma ImmediateIsNoShift(a: Op, b: Op)
    requires GroupOf(a) == Immediate && GroupOf(b) == Shift
    ensures ImmediateFunct3(a) != ShiftFunct3(b)
  {
  }

  /** Only the immediate and shift groups share an opcode; upper ops have one each. */
  lemma SameOpcode(a: Op, b: Op)
    requires HasCase(a) && HasCase(b) && OpcodeOf(a) == OpcodeOf(b)
    ensures || GroupOf(a) == GroupOf(b) || (GroupOf(a) == Immediate && GroupOf(b) == Shift)
            || (GroupOf(a) == Shift && GroupOf(b) == Immediate)
    ensures GroupOf(a) == Upper || GroupOf(a) == Jump || GroupOf(a) == JumpRegister || GroupOf(a) == System ==> a == b
  {
    hide GroupOf;
    OtherOps(a);
    OtherOps(b);
  }

  lemma SameFields(a: Op, b: Op, f3: bv32, f7: bv32)
    requires HasCase(a) && HasCase(b) && OpcodeOf(a) == OpcodeOf(b)
    requires Has(a, GroupOf(a), f3, f7) && Has(b, GroupOf(b), f3, f7)
    ensures a == b
  {
    hide GroupOf, OpcodeOf;
    hide BranchFunct3, LoadFunct3, StoreFunct3, ImmediateFunct3;
    hide ShiftFunct3, ShiftFunct7, ArithmeticFunct3, ArithmeticFunct7;
    SameOpcode(a, b);
    if GroupOf(a) != GroupOf(b) {
      if GroupOf(a) == Immediate { ImmediateIsNoShift(a, b); } else { ImmediateIsNoShift(b, a); }
    } else {
      match GroupOf(a)
      case Branch => BranchesDiffer(a, b);
      case Load => LoadsDiffer(a, b);
      case Store => StoresDiffer(a, b);
      case Immediate => ImmediatesDiffer(a, b);
      case Shift => ShiftsDiffer(a, b);
      case Arithmetic => ArithmeticsDiffer(a, b);
      case _ =>
    }
  }

  /** No word is accepted by two ops. */
  lemma OneAccepts(a: Op, b: Op, w: bv32)
    ensures HasCase(a) && HasCase(b) && Accepts(a, w) && Accepts(b, w) ==> a == b
  {
    hide *;
    if HasCase(a) && HasCase(b) && Accepts(a, w) && Accepts(b, w) {
      AcceptRow(a, w);
      AcceptRow(b, w);
      SameFields(a, b, Funct3(w), Funct7(w));
    }
  }

  /** A word has one answer. */
  lemma OneAnswer(op: Op, w: bv32)
    ensures Answers(op, w) <==> op == OpOf(w)
  {
    hide Accepts, HasCase, OpOf;
    OpAnswers(w);
    if op != INVALID && OpOf(w) != INVALID {
      OneAccepts(op, OpOf(w), w);
    }
  }

  // ----- the class -----

  class Inst {
    var isValid: bool
    var opcode: bv32
    var funct3: bv32
    var funct7: bv32
    var funct12: bv32
    var rs1: bv32
    var rs2: bv32
    var rd: bv32
    var immValue: bv32
    var inst: bv32
    var op: Op
    var riscv: Format
    var imm: ImmKind

    ghost function Contents(): Fields
      reads this
    {
      Fields(opcode, funct3, funct7, funct12, rs1, rs2, rd, immValue, op, riscv, imm)
    }

    /** Opcode, funct fields, op, riscv and imm of the instruction are left undefined. */
    constructor ()
      ensures !isValid && rs1 == rs2 == rd == immValue == 0
    {
      isValid := false;
      rs1, rs2, rd, immValue := 0, 0, 0, 0;
      opcode, funct3, funct7, funct12, inst, op, riscv, imm := *, *, *, *, *, *, *, *;
    }

    method Decode(w: bv32)
      modifies this
      ensures isValid && inst == w
      ensures Contents() == DecodeFields(w, old(Contents()))
    {
      LoadAndSwitch(w);
      Analyze();
    }

    /** Everything in decode before the call of analyze. */
    method LoadAndSwitch(w: bv32)
      modifies this
      ensures isValid && inst == w
      ensures opcode == Opcode(w) && funct3 == Funct3(w) && funct7 == Funct7(w) && funct12 == Funct12(w)
      ensures op == OpOf(w) && riscv == FormatOf(w, old(riscv)) && imm == ImmKindOf(w, old(imm))
      ensures immValue == old(immValue)
    {
      LoadWord(w);
      DecodeOpcode();
      OneAnswer(op, w);
    }

    /** The assignments in front of the switch. */
    method LoadWord(w: bv32)
      modifies this`isValid, this`inst, this`opcode, this`funct3, this`funct7, this`funct12, this`op
      ensures isValid && inst == w && op == INVALID
      ensures opcode == Opcode(w) && funct3 == Funct3(w) && funct7 == Funct7(w) && funct12 == Funct12(w)
    {
      isValid := true;
      inst := w;
      opcode, funct3, funct7, funct12 := w & 0x7f, (w >> 12) & 0x7, w >> 25, w >> 20;
      op := INVALID;
    }

    /** The outer switch of decode. */
    method DecodeOpcode()
      requires opcode == Opcode(inst) && funct3 == Funct3(inst) && funct7 == Funct7(inst) && funct12 == Funct12(inst)
      requires op == INVALID
      modifies this`op, this`riscv, this`imm
      ensures Answers(op, inst)
      ensures riscv == FormatOf(inst, old(riscv)) && imm == ImmKindOf(inst, old(imm))
    {
      hide Answers, AnswersIn, Has, HasCase, Accepts, GroupOf, OpcodeOf, OpOf;
      hide Opcode, Funct3, Funct7, Funct12, Rs1, Rs2, Rd;
      FieldBounds(inst);
      var code, f3, f7, w := opcode, funct3, funct7, inst;
      if code == 0x37 {
        op, riscv, imm := LUI, UType, Uimm;
      } else if code == 0x17 {
        op, riscv, imm := AUIPC, UType, Uimm;
      } else if code == 0x6f {
        op, riscv, imm := JAL, UType, Jimm;
      } else if code == 0x67 {
        op, riscv, imm := JALR, IType, Iimm;
      } else if code == 0x63 {
        riscv, imm := SType, Bimm;
        op := Inst.DecodeBranch(f3, f7);
        GroupAnswers(op, Branch, w);
      } else if code == 0x03 {
        riscv, imm := IType, Iimm;
        op := Inst.DecodeLoad(f3, f7);
        GroupAnswers(op, Load, w);
      } else if code == 0x23 {
        riscv, imm := SType, Simm;
        op := Inst.DecodeStore(f3, f7);
        GroupAnswers(op, Store, w);
      } else if code == 0x13 {
        riscv, imm := IType, Iimm;
        op := Inst.DecodeImmediate(f3, f7);
        ImmediateAnswers(op, w);
      } else if code == 0x33 {
        riscv, imm := RType, Rimm;
        op := Inst.DecodeArithmetic(f3, f7);
        GroupAnswers(op, Arithmetic, w);
      } else if code == 0x73 {
        riscv, imm := PType, Rimm;
        DecodeSystem();
      }
      if code != 0x63 && code != 0x03 && code != 0x23 && code != 0x13 && code != 0x33 {
        OtherAnswers(op, w);
      }
    }

    /** The inner switches of opcode 0x73: every other system instruction is INVALID. */
    method DecodeSystem()
      requires opcode == Opcode(inst) == 0x73 && funct3 == Funct3(inst) && funct12 == Funct12(inst) && op == INVALID
      modifies this`op
      ensures op == if funct3 == 0 && funct12 == 0x105 then WFI else INVALID
    {
      if funct3 == 0 && funct12 == 0x105 {
        op := WFI;
      }
    }

    /** The inner switch of opcode 0x63. */
    static method DecodeBranch(f3: bv32, ghost f7: bv32) returns (answer: Op)
      ensures AnswersIn(answer, Group.Branch, f3, f7)
    {
      hide GroupOf, LoadFunct3, StoreFunct3, ImmediateFunct3;
      hide ShiftFunct3, ShiftFunct7, ArithmeticFunct3, ArithmeticFunct7;
      if f3 == 0 {
        answer := BEQ;
      } else if f3 == 1 {
        answer := BNE;
      } else if f3 == 4 {
        answer := BLT;
      } else if f3 == 5 {
        answer := BGE;
      } else if f3 == 6 {
        answer := BLTU;
      } else if f3 == 7 {
        answer := BGEU;
      } else {
        answer := INVALID;
      }
      if answer == INVALID {
        forall o ensures !Has(o, Group.Branch, f3, f7) {
          BranchOps(o);
        }
      } else {
        BranchOps(answer);
      }
    }

    /** The inner switch of opcode 0x03. */
    static method DecodeLoad(f3: bv32, ghost f7: bv32) returns (answer: Op)
      ensures AnswersIn(answer, Group.Load, f3, f7)
    {
      hide GroupOf, BranchFunct3, StoreFunct3, ImmediateFunct3;
      hide ShiftFunct3, ShiftFunct7, ArithmeticFunct3, ArithmeticFunct7;
      if f3 == 0 {
        answer := LB;
      } else if f3 == 1 {
        answer := LH;
      } else if f3 == 2 {
        answer := LW;
      } else if f3 == 4 {
        answer := LBU;
      } else if f3 == 5 {
        answer := LHU;
      } else {
        answer := INVALID;
      }
      if answer == INVALID {
        forall o ensures !Has(o, Group.Load, f3, f7) {
          LoadOps(o);
        }
      } else {
        LoadOps(answer);
      }
    }

    /** The inner switch of opcode 0x23. */
    static method DecodeStore(f3: bv32, ghost f7: bv32) returns (answer: Op)
      ensures AnswersIn(answer, Group.Store, f3, f7)
    {
      hide GroupOf, BranchFunct3, LoadFunct3, ImmediateFunct3;
      hide ShiftFunct3, ShiftFunct7, ArithmeticFunct3, ArithmeticFunct7;
      if f3 == 0 {
        answer := SB;
      } else if f3 == 1 {
        answer := SH;
      } else if f3 == 2 {
        answer := SW;
      } else {
        answer := INVALID;
      }
      if answer == INVALID {
        forall o ensures !Has(o, Group.Store, f3, f7) {
          StoreOps(o);
        }
      } else {
        StoreOps(answer);
      }
    }

    /** The inner switch of opcode 0x13. */
    static method DecodeImmediate(f3: bv32, f7: bv32) returns (answer: Op)
      requires f3 < 8
      ensures if answer == INVALID then
          AnswersIn(answer, Group.Immediate, f3, f7) && AnswersIn(answer, Group.Shift, f3, f7)
        else
          Has(answer, Group.Immediate, f3, f7) || Has(answer, Group.Shift, f3, f7)
    {
      hide GroupOf, BranchFunct3, LoadFunct3, StoreFunct3, ArithmeticFunct3, ArithmeticFunct7;
      answer := INVALID;
      if f3 == 1 {
        answer := if f7 == 0 then SLLI else INVALID;
      } else if f3 == 5 {
        answer := if f7 == 0 then SRLI else if f7 == 0x20 then SRAI else INVALID;
      } else {
        if f3 == 0 {
          answer := ADDI;
        } else if f3 == 2 {
          answer := SLTI;
        } else if f3 == 3 {
          answer := SLTIU;
        } else if f3 == 4 {
          answer := XORI;
        } else if f3 == 6 {
          answer := ORI;
        } else if f3 == 7 {
          answer := ANDI;
        }
      }
      if answer == INVALID {
        forall o ensures !Has(o, Group.Immediate, f3, f7) && !Has(o, Group.Shift, f3, f7) {
          ImmediateOps(o);
          ShiftOps(o);
        }
      } else {
        ImmediateOps(answer);
        ShiftOps(answer);
      }
    }

    /** The inner switch of opcode 0x33, on funct7 and funct3 together. */
    static method DecodeArithmetic(f3: bv32, f7: bv32) returns (answer: Op)
      requires f3 < 8 && f7 < 128
      ensures AnswersIn(answer, Group.Arithmetic, f3, f7)
    {
      hide AnswersIn, Key, GroupOf;
      answer := DecodeKey((f7 << 4) | f3);
      KeyAnswers(answer, f3, f7);
    }

    static method DecodeKey(key: bv32) returns (answer: Op)
      ensures answer != INVALID ==> GroupOf(answer) == Group.Arithmetic && Key(answer) == key
      ensures answer == INVALID ==> forall o :: GroupOf(o) == Group.Arithmetic ==> Key(o) != key
    {
      hide GroupOf, Key;
      if key == 0x000 {
        answer := ADD;
      } else if key == 0x200 {
        answer := SUB;
      } else if key == 0x001 {
        answer := SLL;
      } else if key == 0x002 {
        answer := SLT;
      } else if key == 0x003 {
        answer := SLTU;
      } else if key == 0x004 {
        answer := XOR;
      } else if key == 0x005 {
        answer := SRL;
      } else if key == 0x205 {
        answer := SRA;
      } else if key == 0x006 {
        answer := OR;
      } else if key == 0x007 {
        answer := AND;
      } else if key == 0x010 {
        answer := MUL;
      } else if key == 0x011 {
        answer := MULH;
      } else if key == 0x012 {
        answer := MULHSU;
      } else if key == 0x013 {
        answer := MULHU;
      } else {
        answer := INVALID;
      }
      ArithmeticOps(answer);
      if answer != INVALID {
        ArithmeticKey(answer);
      } else {
        forall o | GroupOf(o) == Group.Arithmetic ensures Key(o) != key {
          ArithmeticKey(o);
        }
      }
    }

    method Analyze()
      requires opcode == Opcode(inst) && funct3 == Funct3(inst)
      modifies this`rs1, this`rs2, this`rd, this`immValue
      ensures rs1 == Rs1(inst) && rs2 == Rs2(inst) && rd == Rd(inst)
      ensures immValue == ImmediateOf(inst, imm, old(immValue))
    {
      rs2 := (inst >> 20) & 0x1f;
      rs1 := (inst >> 15) & 0x1f;
      rd := (inst >> 7) & 0x1f;
      AnalyzeImmediate();
    }

    /** The switch of analyze. */
    method AnalyzeImmediate()
      requires opcode == Opcode(inst) && funct3 == Funct3(inst)
      modifies this`immValue
      ensures immValue == ImmediateOf(inst, imm, old(immValue))
    {
      match imm
      case Iimm => AnalyzeIimm();
      case Simm => AnalyzeSimm();
      case Bimm => AnalyzeBimm();
      case Uimm => AnalyzeUimm();
      case Jimm => AnalyzeJimm();
      case Rimm =>
    }

    method AnalyzeSimm()
      modifies this`immValue
      ensures immValue == SignextS(inst)
    {
      LowSimm();
      ExtendSign(IMASK);
    }

    method AnalyzeBimm()
      modifies this`immValue
      ensures immValue == SignextB(inst)
    {
      LowBimm();
      ExtendSign(BMASK);
    }

    method AnalyzeJimm()
      modifies this`immValue
      ensures immValue == SignextJ(inst)
    {
      LowJimm();
      ExtendSign(JMASK);
    }

    method AnalyzeIimm()
      requires opcode == Opcode(inst) && funct3 == Funct3(inst)
      modifies this`immValue
      ensures immValue == ImmediateOf(inst, Iimm, 0)
    {
      if opcode == 0x13 && (funct3 == 1 || funct3 == 5) {
        immValue := (inst >> 20) & 0x1f;
      } else {
        immValue := (inst >> 20) & 0x7ff;
        ExtendSign(IMASK);
      }
    }

    method AnalyzeUimm()
      modifies this`immValue
      ensures immValue == inst >> 12
    {
      immValue := (inst >> 12) & 0xfffff;
    }

    method ExtendSign(mask: bv32)
      modifies this`immValue
      ensures immValue == SignFill(inst, mask) | old(immValue)
    {
      var sign := (inst >> 31) & 0x1;
      if sign != 0 {
        immValue := immValue | mask;
      }
    }

    method LowSimm()
      modifies this`immValue
      ensures immValue == LowS(inst)
    {
      immValue := (inst >> 7) & 0x1f;
      immValue := immValue | (((inst >> 25) & 0x3f) << 5);
    }

    method LowBimm()
      modifies this`immValue
      ensures immValue == LowB(inst)
    {
      immValue := (inst >> 8) & 0xf;
      immValue := immValue | (((inst >> 25) & 0x3f) << 4);
      immValue := immValue | (((inst >> 7) & 0x1) << 10);
      immValue := immValue << 1;
    }

    method LowJimm()
      modifies this`immValue
      ensures immValue == LowJ(inst)
    {
      immValue := (inst >> 21) & 0x3ff;
      immValue := immValue | (((inst >> 20) & 0x1) << 10);
      immValue := immValue | (((inst >> 12) & 0xff) << 11);
      immValue := immValue << 1;
    }

    method Assign(sel: Selected)
      modifies this`riscv, this`imm, this`opcode, this`funct3, this`funct7, this`funct12
      ensures Selected(riscv, imm, opcode, funct3, funct7, funct12) == sel
    {
      riscv, imm := sel.riscv, sel.imm;
      opcode, funct3, funct7, funct12 := sel.opcode, sel.funct3, sel.funct7, sel.funct12;
    }

    method Encode() returns (instv: bv32)
      ensures instv == EncodeFields(Contents())
    {
      match riscv
      case RType => instv := EncodeRType();
      case IType => instv := EncodeIType();
      case SType => instv := EncodeSType();
      case UType => instv := EncodeUType();
      case PType => instv := EncodePType();
    }

    method EncodeRType() returns (instv: bv32)
      ensures instv == WordR(opcode, rd, funct3, rs1, rs2, funct7)
    {
      instv := 0;
      instv := instv | opcode;
      instv := instv | (rd << 7);
      instv := instv | (funct3 << 12);
      instv := instv | (rs1 << 15);
      instv := instv | (rs2 << 20);
      instv := instv | (funct7 << 25);
    }

    method EncodeIType() returns (instv: bv32)
      ensures IsShiftImmediate(op) ==> instv == WordR(opcode, rd, funct3, rs1, immValue & 0x1f, funct7)
      ensures !IsShiftImmediate(op) ==> instv == WordI(opcode, rd, funct3, rs1, immValue)
    {
      hide WordR, WordI;
      if op.SLLI? || op.SRLI? || op.SRAI? {
        instv := EncodeShift();
      } else {
        instv := EncodeImmediate();
      }
    }

    method EncodeShift() returns (instv: bv32)
      ensures instv == WordR(opcode, rd, funct3, rs1, immValue & 0x1f, funct7)
    {
      instv := OpcodeRdFunct3Rs1();
      instv := instv | ((immValue & 0x1f) << 20);
      instv := instv | (funct7 << 25);
    }

    method EncodeImmediate() returns (instv: bv32)
      ensures instv == WordI(opcode, rd, funct3, rs1, immValue)
    {
      instv := OpcodeRdFunct3Rs1();
      instv := instv | (immValue << 20);
    }

    method EncodeSType() returns (instv: bv32)
      ensures imm == Simm ==> instv == WordS(opcode, funct3, rs1, rs2, immValue)
      ensures imm == Bimm ==> instv == WordB(opcode, funct3, rs1, rs2, immValue)
      ensures imm != Simm && imm != Bimm ==> instv == opcode | (funct3 << 12) | (rs1 << 15) | (rs2 << 20)
    {
      instv := OpcodeFunct3Rs1Rs2();
      if imm == Simm {
        instv := instv | ((immValue & 0x1f) << 7);
        instv := instv | (((immValue >> 5) & 0x3f) << 25);
      } else if imm == Bimm {
        instv := instv | (((immValue >> 11) & 0x1) << 7);
        instv := instv | (((immValue >> 1) & 0xf) << 8);
        instv := instv | (((immValue >> 5) & 0x3f) << 25);
        instv := instv | (((immValue >> 12) & 0x1) << 31);
      }
    }

    method EncodeUType() returns (instv: bv32)
      ensures imm == Uimm ==> instv == WordU(opcode, rd, immValue)
      ensures imm == Jimm ==> instv == WordJ(opcode, rd, immValue)
      ensures imm != Uimm && imm != Jimm ==> instv == opcode | (rd << 7)
    {
      instv := OpcodeRd();
      if imm == Uimm {
        instv := instv | ((immValue & 0xfffff) << 12);
      } else if imm == Jimm {
        instv := instv | (((immValue >> 12) & 0xff) << 12);
        instv := instv | (((immValue >> 11) & 0x1) << 20);
        instv := instv | (((immValue >> 1) & 0x3ff) << 21);
        instv := instv | (((immValue >> 20) & 0x1) << 31);
      }
    }

    method OpcodeRd() returns (instv: bv32)
      ensures instv == opcode | (rd << 7)
    {
      instv := 0;
      instv := instv | opcode;
      instv := instv | (rd << 7);
    }

    method OpcodeRdFunct3Rs1() returns (instv: bv32)
      ensures instv == opcode | (rd << 7) | (funct3 << 12) | (rs1 << 15)
    {
      instv := 0;
      instv := instv | opcode;
      instv := instv | (rd << 7);
      instv := instv | (funct3 << 12);
      instv := instv | (rs1 << 15);
    }

    method OpcodeFunct3Rs1Rs2() returns (instv: bv32)
      ensures instv == opcode | (funct3 << 12) | (rs1 << 15) | (rs2 << 20)
    {
      instv := 0;
      instv := instv | opcode;
      instv := instv | (funct3 << 12);
      instv := instv | (rs1 << 15);
      instv := instv | (rs2 << 20);
    }

    method EncodePType() returns (instv: bv32)
      ensures instv == WordI(opcode, rd, funct3, rs1, funct12)
    {
      instv := 0;
      instv := instv | opcode;
      instv := instv | (rd << 7);
      instv := instv | (funct3 << 12);
      instv := instv | (rs1 << 15);
      instv := instv | (funct12 << 20);
    }

    method Select(iop: Op) returns (sel: Selected)
      ensures HasCase(iop) ==> SelectedFor(iop, sel)
    {
      hide IsaPattern, GroupOf, Agrees;
      hide BranchFunct3, LoadFunct3, StoreFunct3, ImmediateFunct3;
      hide ShiftFunct3, ShiftFunct7, ArithmeticFunct3, ArithmeticFunct7;
      PatternRows(iop);
      OtherOps(iop);
      match GroupOf(iop)
      case Branch => sel := SelectBranch(iop);
      case Load => sel := SelectLoad(iop);
      case Store => sel := SelectStore(iop);
      case Immediate => sel := SelectImmediate(iop);
      case Shift => sel := SelectShift(iop);
      case Arithmetic => sel := SelectArithmetic(iop);
      case _ =>
        sel := SelectOther(iop);
    }

    /** The cases of the switch outside the groups below; an op without a case leaves everything undefined. */
    method SelectOther(iop: Op) returns (sel: Selected)
      ensures iop.LUI? ==> Agrees(UPattern(0x37), sel)
      ensures iop.AUIPC? ==> Agrees(UPattern(0x17), sel)
      ensures iop.JAL? ==> Agrees(UPattern(0x6f), sel)
      ensures iop.JALR? ==> Agrees(IPattern(0x67, 0), sel)
      ensures iop.WFI? ==> Agrees(WordPattern(0x1050_0073), sel)
    {
      sel := *;
      match iop {
      case LUI => sel := sel.(opcode := 0x37, imm := Uimm, riscv := UType);
      case AUIPC => sel := sel.(opcode := 0x17, imm := Uimm, riscv := UType);
      case JAL => sel := sel.(opcode := 0x6f, imm := Uimm, riscv := UType);
      case JALR => sel := sel.(funct3 := 0, opcode := 0x67, imm := Iimm, riscv := IType);
      case WFI => sel := sel.(opcode := 0x73, funct3 := 0, funct12 := 0x105, imm := Rimm, riscv := PType);
      case _ =>
      }
    }

    method SelectBranch(iop: Op) returns (sel: Selected)
      requires GroupOf(iop) == Group.Branch
      ensures Agrees(SPattern(0x63, BranchFunct3(iop)), sel)
    {
      sel := *;
      match iop {
      case BEQ => sel := sel.(funct3 := 0, opcode := 0x63, imm := Bimm, riscv := SType);
      case BNE => sel := sel.(funct3 := 1, opcode := 0x63, imm := Bimm, riscv := SType);
      case BLT => sel := sel.(funct3 := 4, opcode := 0x63, imm := Bimm, riscv := SType);
      case BLTU => sel := sel.(funct3 := 6, opcode := 0x63, imm := Bimm, riscv := SType);
      case BGE => sel := sel.(funct3 := 5, opcode := 0x63, imm := Bimm, riscv := SType);
      case BGEU => sel := sel.(funct3 := 7, opcode := 0x63, imm := Bimm, riscv := SType);
      }
    }

    method SelectLoad(iop: Op) returns (sel: Selected)
      requires GroupOf(iop) == Group.Load
      ensures Agrees(IPattern(0x03, LoadFunct3(iop)), sel)
    {
      sel := *;
      match iop {
      case LB => sel := sel.(funct3 := 0, opcode := 3, imm := Iimm, riscv := IType);
      case LH => sel := sel.(funct3 := 1, opcode := 3, imm := Iimm, riscv := IType);
      case LW => sel := sel.(funct3 := 2, opcode := 3, imm := Iimm, riscv := IType);
      case LBU => sel := sel.(funct3 := 4, opcode := 3, imm := Iimm, riscv := IType);
      case LHU => sel := sel.(funct3 := 5, opcode := 3, imm := Iimm, riscv := IType);
      }
    }

    method SelectStore(iop: Op) returns (sel: Selected)
      requires GroupOf(iop) == Group.Store
      ensures Agrees(SPattern(0x23, StoreFunct3(iop)), sel)
    {
      sel := *;
      match iop {
      case SB => sel := sel.(funct3 := 0, opcode := 0x23, imm := Simm, riscv := SType);
      case SH => sel := sel.(funct3 := 1, opcode := 0x23, imm := Simm, riscv := SType);
      case SW => sel := sel.(funct3 := 2, opcode := 0x23, imm := Simm, riscv := SType);
      }
    }

    method SelectImmediate(iop: Op) returns (sel: Selected)
      requires GroupOf(iop) == Group.Immediate
      ensures Agrees(IPattern(0x13, ImmediateFunct3(iop)), sel)
    {
      sel := *;
      match iop {
      case ADDI => sel := sel.(funct3 := 0, opcode := 0x13, imm := Iimm, riscv := IType);
      case SLTI => sel := sel.(funct3 := 2, opcode := 0x13, imm := Iimm, riscv := IType);
      case SLTIU => sel := sel.(funct3 := 3, opcode := 0x13, imm := Iimm, riscv := IType);
      case ANDI => sel := sel.(funct3 := 7, opcode := 0x13, imm := Iimm, riscv := IType);
      case ORI => sel := sel.(funct3 := 6, opcode := 0x13, imm := Iimm, riscv := IType);
      case XORI => sel := sel.(funct3 := 4, opcode := 0x13, imm := Iimm, riscv := IType);
      }
    }

    method SelectShift(iop: Op) returns (sel: Selected)
      requires GroupOf(iop) == Group.Shift
      ensures Agrees(RPattern(0x13, ShiftFunct3(iop), ShiftFunct7(iop)), sel)
    {
      sel := *;
      match iop {
      case SLLI => sel := sel.(funct3 := 1, funct7 := 0, opcode := 0x13, imm := Iimm, riscv := IType);
      case SRLI => sel := sel.(funct3 := 5, funct7 := 0, opcode := 0x13, imm := Iimm, riscv := IType);
      case SRAI => sel := sel.(funct3 := 5, funct7 := 0x20, opcode := 0x13, imm := Iimm, riscv := IType);
      }
    }

    method SelectArithmetic(iop: Op) returns (sel: Selected)
      requires GroupOf(iop) == Group.Arithmetic
      ensures Agrees(RPattern(0x33, ArithmeticFunct3(iop), ArithmeticFunct7(iop)), sel)
    {
      sel := *;
      match iop {
      case ADD => sel := sel.(funct3 := 0, funct7 := 0, opcode := 0x33, imm := Rimm, riscv := RType);
      case SLT => sel := sel.(funct3 := 2, funct7 := 0, opcode := 0x33, imm := Rimm, riscv := RType);
      case SLTU => sel := sel.(funct3 := 3, funct7 := 0, opcode := 0x33, imm := Rimm, riscv := RType);
      case AND => sel := sel.(funct3 := 7, funct7 := 0, opcode := 0x33, imm := Rimm, riscv := RType);
      case OR => sel := sel.(funct3 := 6, funct7 := 0, opcode := 0x33, imm := Rimm, riscv := RType);
      case XOR => sel := sel.(funct3 := 4, funct7 := 0, opcode := 0x33, imm := Rimm, riscv := RType);
      case SLL => sel := sel.(funct3 := 1, funct7 := 0, opcode := 0x33, imm := Rimm, riscv := RType);
      case SRL => sel := sel.(funct3 := 5, funct7 := 0, opcode := 0x33, imm := Rimm, riscv := RType);
      case SRA => sel := sel.(funct3 := 5, funct7 := 0x20, opcode := 0x33, imm := Rimm, riscv := RType);
      case SUB => sel := sel.(funct3 := 0, funct7 := 0x20, opcode := 0x33, imm := Rimm, riscv := RType);
      case MUL => sel := sel.(funct3 := 0, funct7 := 1, opcode := 0x33, imm := Rimm, riscv := RType);
      case MULH => sel := sel.(funct3 := 1, funct7 := 1, opcode := 0x33, imm := Rimm, riscv := RType);
      case MULHU => sel := sel.(funct3 := 3, funct7 := 1, opcode := 0x33, imm := Rimm, riscv := RType);
      case MULHSU => sel := sel.(funct3 := 2, funct7 := 1, opcode := 0x33, imm := Rimm, riscv := RType);
      }
    }
  }
}
