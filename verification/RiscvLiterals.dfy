/**
 testbench/riscv_inst.h and ISA.svh in literals: one pattern, one word and one selection for every op,
 and the immediate macros slice by slice. What the other two modules prove is relative to those
 tables and macros.
 */
module RiscvLiterals {
  import opened RiscvInst
  import opened RiscvRoundTrip

  // ----- the patterns of ISA.svh -----

  lemma BranchTable(op: Op)
    requires GroupOf(op) == Branch
    ensures op.BEQ? ==> BranchFunct3(op) == 0
    ensures op.BNE? ==> BranchFunct3(op) == 1
    ensures op.BLT? ==> BranchFunct3(op) == 4
    ensures op.BGE? ==> BranchFunct3(op) == 5
    ensures op.BLTU? ==> BranchFunct3(op) == 6
    ensures op.BGEU? ==> BranchFunct3(op) == 7
  {
    hide GroupOf;
  }

  lemma BranchPatterns(op: Op)
    ensures op.BEQ? ==> IsaPattern(op) == SPattern(0x63, 0)
    ensures op.BNE? ==> IsaPattern(op) == SPattern(0x63, 1)
    ensures op.BLT? ==> IsaPattern(op) == SPattern(0x63, 4)
    ensures op.BGE? ==> IsaPattern(op) == SPattern(0x63, 5)
    ensures op.BLTU? ==> IsaPattern(op) == SPattern(0x63, 6)
    ensures op.BGEU? ==> IsaPattern(op) == SPattern(0x63, 7)
  {
    hide IsaPattern, GroupOf, BranchFunct3, LoadFunct3, StoreFunct3, ImmediateFunct3;
    hide ShiftFunct3, ShiftFunct7, ArithmeticFunct3, ArithmeticFunct7;
    BranchOps(op);
    PatternRows(op);
    if GroupOf(op) == Branch { BranchTable(op); }
  }

  lemma LoadTable(op: Op)
    requires GroupOf(op) == Load
    ensures op.LB? ==> LoadFunct3(op) == 0
    ensures op.LH? ==> LoadFunct3(op) == 1
    ensures op.LW? ==> LoadFunct3(op) == 2
    ensures op.LBU? ==> LoadFunct3(op) == 4
    ensures op.LHU? ==> LoadFunct3(op) == 5
  {
    hide GroupOf;
  }

  lemma LoadPatterns(op: Op)
    ensures op.LB? ==> IsaPattern(op) == IPattern(0x03, 0)
    ensures op.LH? ==> IsaPattern(op) == IPattern(0x03, 1)
    ensures op.LW? ==> IsaPattern(op) == IPattern(0x03, 2)
    ensures op.LBU? ==> IsaPattern(op) == IPattern(0x03, 4)
    ensures op.LHU? ==> IsaPattern(op) == IPattern(0x03, 5)
  {
    hide IsaPattern, GroupOf, BranchFunct3, LoadFunct3, StoreFunct3, ImmediateFunct3;
    hide ShiftFunct3, ShiftFunct7, ArithmeticFunct3, ArithmeticFunct7;
    LoadOps(op);
    PatternRows(op);
    if GroupOf(op) == Load { LoadTable(op); }
  }

  lemma StoreTable(op: Op)
    requires GroupOf(op) == Store
    ensures op.SB? ==> StoreFunct3(op) == 0
    ensures op.SH? ==> StoreFunct3(op) == 1
    ensures op.SW? ==> StoreFunct3(op) == 2
  {
    hide GroupOf;
  }

  lemma StorePatterns(op: Op)
    ensures op.SB? ==> IsaPattern(op) == SPattern(0x23, 0)
    ensures op.SH? ==> IsaPattern(op) == SPattern(0x23, 1)
    ensures op.SW? ==> IsaPattern(op) == SPattern(0x23, 2)
  {
    hide IsaPattern, GroupOf, BranchFunct3, LoadFunct3, StoreFunct3, ImmediateFunct3;
    hide ShiftFunct3, ShiftFunct7, ArithmeticFunct3, ArithmeticFunct7;
    StoreOps(op);
    PatternRows(op);
    if GroupOf(op) == Store { StoreTable(op); }
  }

  lemma ImmediateTable(op: Op)
    requires GroupOf(op) == Immediate
    ensures op.ADDI? ==> ImmediateFunct3(op) == 0
    ensures op.SLTI? ==> ImmediateFunct3(op) == 2
    ensures op.SLTIU? ==> ImmediateFunct3(op) == 3
    ensures op.XORI? ==> ImmediateFunct3(op) == 4
    ensures op.ORI? ==> ImmediateFunct3(op) == 6
    ensures op.ANDI? ==> ImmediateFunct3(op) == 7
  {
    hide GroupOf;
  }

  lemma ImmediatePatterns(op: Op)
    ensures op.ADDI? ==> IsaPattern(op) == IPattern(0x13, 0)
    ensures op.SLTI? ==> IsaPattern(op) == IPattern(0x13, 2)
    ensures op.SLTIU? ==> IsaPattern(op) == IPattern(0x13, 3)
    ensures op.XORI? ==> IsaPattern(op) == IPattern(0x13, 4)
    ensures op.ORI? ==> IsaPattern(op) == IPattern(0x13, 6)
    ensures op.ANDI? ==> IsaPattern(op) == IPattern(0x13, 7)
  {
    hide IsaPattern, GroupOf, BranchFunct3, LoadFunct3, StoreFunct3, ImmediateFunct3;
    hide ShiftFunct3, ShiftFunct7, ArithmeticFunct3, ArithmeticFunct7;
    ImmediateOps(op);
    PatternRows(op);
    if GroupOf(op) == Immediate { ImmediateTable(op); }
  }

  lemma ShiftTable(op: Op)
    requires GroupOf(op) == Shift
    ensures op.SLLI? ==> ShiftFunct3(op) == 1 && ShiftFunct7(op) == 0
    ensures op.SRLI? ==> ShiftFunct3(op) == 5 && ShiftFunct7(op) == 0
    ensures op.SRAI? ==> ShiftFunct3(op) == 5 && ShiftFunct7(op) == 0x20
  {
    hide GroupOf;
  }

  lemma ShiftPatterns(op: Op)
    ensures op.SLLI? ==> IsaPattern(op) == RPattern(0x13, 1, 0)
    ensures op.SRLI? ==> IsaPattern(op) == RPattern(0x13, 5, 0)
    ensures op.SRAI? ==> IsaPattern(op) == RPattern(0x13, 5, 0x20)
  {
    hide IsaPattern, GroupOf, BranchFunct3, LoadFunct3, StoreFunct3, ImmediateFunct3;
    hide ShiftFunct3, ShiftFunct7, ArithmeticFunct3, ArithmeticFunct7;
    ShiftOps(op);
    PatternRows(op);
    if GroupOf(op) == Shift { ShiftTable(op); }
  }

  lemma ArithmeticTable(op: Op)
    requires GroupOf(op) == Arithmetic
    ensures op.ADD? ==> ArithmeticFunct3(op) == 0 && ArithmeticFunct7(op) == 0
    ensures op.SUB? ==> ArithmeticFunct3(op) == 0 && ArithmeticFunct7(op) == 0x20
    ensures op.SLL? ==> ArithmeticFunct3(op) == 1 && ArithmeticFunct7(op) == 0
    ensures op.SLT? ==> ArithmeticFunct3(op) == 2 && ArithmeticFunct7(op) == 0
    ensures op.SLTU? ==> ArithmeticFunct3(op) == 3 && ArithmeticFunct7(op) == 0
    ensures op.XOR? ==> ArithmeticFunct3(op) == 4 && ArithmeticFunct7(op) == 0
    ensures op.SRL? ==> ArithmeticFunct3(op) == 5 && ArithmeticFunct7(op) == 0
    ensures op.SRA? ==> ArithmeticFunct3(op) == 5 && ArithmeticFunct7(op) == 0x20
    ensures op.OR? ==> ArithmeticFunct3(op) == 6 && ArithmeticFunct7(op) == 0
    ensures op.AND? ==> ArithmeticFunct3(op) == 7 && ArithmeticFunct7(op) == 0
    ensures op.MUL? ==> ArithmeticFunct3(op) == 0 && ArithmeticFunct7(op) == 1
    ensures op.MULH? ==> ArithmeticFunct3(op) == 1 && ArithmeticFunct7(op) == 1
    ensures op.MULHSU? ==> ArithmeticFunct3(op) == 2 && ArithmeticFunct7(op) == 1
    ensures op.MULHU? ==> ArithmeticFunct3(op) == 3 && ArithmeticFunct7(op) == 1
  {
    hide GroupOf;
  }

  lemma ArithmeticPatterns(op: Op)
    ensures op.ADD? ==> IsaPattern(op) == RPattern(0x33, 0, 0)
    ensures op.SUB? ==> IsaPattern(op) == RPattern(0x33, 0, 0x20)
    ensures op.SLL? ==> IsaPattern(op) == RPattern(0x33, 1, 0)
    ensures op.SLT? ==> IsaPattern(op) == RPattern(0x33, 2, 0)
    ensures op.SLTU? ==> IsaPattern(op) == RPattern(0x33, 3, 0)
    ensures op.XOR? ==> IsaPattern(op) == RPattern(0x33, 4, 0)
    ensures op.SRL? ==> IsaPattern(op) == RPattern(0x33, 5, 0)
    ensures op.SRA? ==> IsaPattern(op) == RPattern(0x33, 5, 0x20)
    ensures op.OR? ==> IsaPattern(op) == RPattern(0x33, 6, 0)
    ensures op.AND? ==> IsaPattern(op) == RPattern(0x33, 7, 0)
    ensures op.MUL? ==> IsaPattern(op) == RPattern(0x33, 0, 1)
    ensures op.MULH? ==> IsaPattern(op) == RPattern(0x33, 1, 1)
    ensures op.MULHSU? ==> IsaPattern(op) == RPattern(0x33, 2, 1)
    ensures op.MULHU? ==> IsaPattern(op) == RPattern(0x33, 3, 1)
  {
    hide IsaPattern, GroupOf, BranchFunct3, LoadFunct3, StoreFunct3, ImmediateFunct3;
    hide ShiftFunct3, ShiftFunct7, ArithmeticFunct3, ArithmeticFunct7;
    ArithmeticOps(op);
    PatternRows(op);
    if GroupOf(op) == Arithmetic { ArithmeticTable(op); }
  }

  // ----- one word for every op -----

  lemma Answered(op: Op, w: bv32, p: Pattern)
    requires !op.JALR? && !op.WFI? && !p.NoPattern? && IsaPattern(op) == p && Matches(w, p)
    ensures OpOf(w) == op
  {
    hide OpOf, Matches, IsaPattern;
    PatternRows(op);
    DecodesExactly(op, w);
  }

  lemma BranchWords(op: Op)
    ensures op.BEQ? ==> OpOf(0x0000_0063) == op
    ensures op.BNE? ==> OpOf(0x0000_1063) == op
    ensures op.BLT? ==> OpOf(0x0000_4063) == op
    ensures op.BGE? ==> OpOf(0x0000_5063) == op
    ensures op.BLTU? ==> OpOf(0x0000_6063) == op
    ensures op.BGEU? ==> OpOf(0x0000_7063) == op
  {
    hide OpOf, IsaPattern, GroupOf, HasCase;
    BranchOps(op);
    BranchPatterns(op);
    if op.BEQ? { Answered(op, 0x0000_0063, SPattern(0x63, 0)); }
    if op.BNE? { Answered(op, 0x0000_1063, SPattern(0x63, 1)); }
    if op.BLT? { Answered(op, 0x0000_4063, SPattern(0x63, 4)); }
    if op.BGE? { Answered(op, 0x0000_5063, SPattern(0x63, 5)); }
    if op.BLTU? { Answered(op, 0x0000_6063, SPattern(0x63, 6)); }
    if op.BGEU? { Answered(op, 0x0000_7063, SPattern(0x63, 7)); }
  }

  lemma LoadWords(op: Op)
    ensures op.LB? ==> OpOf(0x0000_0003) == op
    ensures op.LH? ==> OpOf(0x0000_1003) == op
    ensures op.LW? ==> OpOf(0x0000_2003) == op
    ensures op.LBU? ==> OpOf(0x0000_4003) == op
    ensures op.LHU? ==> OpOf(0x0000_5003) == op
  {
    hide OpOf, IsaPattern, GroupOf, HasCase;
    LoadOps(op);
    LoadPatterns(op);
    if op.LB? { Answered(op, 0x0000_0003, IPattern(0x03, 0)); }
    if op.LH? { Answered(op, 0x0000_1003, IPattern(0x03, 1)); }
    if op.LW? { Answered(op, 0x0000_2003, IPattern(0x03, 2)); }
    if op.LBU? { Answered(op, 0x0000_4003, IPattern(0x03, 4)); }
    if op.LHU? { Answered(op, 0x0000_5003, IPattern(0x03, 5)); }
  }

  lemma StoreWords(op: Op)
    ensures op.SB? ==> OpOf(0x0000_0023) == op
    ensures op.SH? ==> OpOf(0x0000_1023) == op
    ensures op.SW? ==> OpOf(0x0000_2023) == op
  {
    hide OpOf, IsaPattern, GroupOf, HasCase;
    StoreOps(op);
    StorePatterns(op);
    if op.SB? { Answered(op, 0x0000_0023, SPattern(0x23, 0)); }
    if op.SH? { Answered(op, 0x0000_1023, SPattern(0x23, 1)); }
    if op.SW? { Answered(op, 0x0000_2023, SPattern(0x23, 2)); }
  }

  lemma ImmediateWords(op: Op)
    ensures op.ADDI? ==> OpOf(0x0000_0013) == op
    ensures op.SLTI? ==> OpOf(0x0000_2013) == op
    ensures op.SLTIU? ==> OpOf(0x0000_3013) == op
    ensures op.XORI? ==> OpOf(0x0000_4013) == op
    ensures op.ORI? ==> OpOf(0x0000_6013) == op
    ensures op.ANDI? ==> OpOf(0x0000_7013) == op
  {
    hide OpOf, IsaPattern, GroupOf, HasCase;
    ImmediateOps(op);
    ImmediatePatterns(op);
    if op.ADDI? { Answered(op, 0x0000_0013, IPattern(0x13, 0)); }
    if op.SLTI? { Answered(op, 0x0000_2013, IPattern(0x13, 2)); }
    if op.SLTIU? { Answered(op, 0x0000_3013, IPattern(0x13, 3)); }
    if op.XORI? { Answered(op, 0x0000_4013, IPattern(0x13, 4)); }
    if op.ORI? { Answered(op, 0x0000_6013, IPattern(0x13, 6)); }
    if op.ANDI? { Answered(op, 0x0000_7013, IPattern(0x13, 7)); }
  }

  lemma ShiftWords(op: Op)
    ensures op.SLLI? ==> OpOf(0x0000_1013) == op
    ensures op.SRLI? ==> OpOf(0x0000_5013) == op
    ensures op.SRAI? ==> OpOf(0x4000_5013) == op
  {
    hide OpOf, IsaPattern, GroupOf, HasCase;
    ShiftOps(op);
    ShiftPatterns(op);
    if op.SLLI? { Answered(op, 0x0000_1013, RPattern(0x13, 1, 0)); }
    if op.SRLI? { Answered(op, 0x0000_5013, RPattern(0x13, 5, 0)); }
    if op.SRAI? { Answered(op, 0x4000_5013, RPattern(0x13, 5, 0x20)); }
  }

  lemma ArithmeticWords(op: Op)
    ensures op.ADD? ==> OpOf(0x0000_0033) == op
    ensures op.SUB? ==> OpOf(0x4000_0033) == op
    ensures op.SLL? ==> OpOf(0x0000_1033) == op
    ensures op.SLT? ==> OpOf(0x0000_2033) == op
    ensures op.SLTU? ==> OpOf(0x0000_3033) == op
    ensures op.XOR? ==> OpOf(0x0000_4033) == op
    ensures op.SRL? ==> OpOf(0x0000_5033) == op
    ensures op.SRA? ==> OpOf(0x4000_5033) == op
    ensures op.OR? ==> OpOf(0x0000_6033) == op
    ensures op.AND? ==> OpOf(0x0000_7033) == op
    ensures op.MUL? ==> OpOf(0x0200_0033) == op
    ensures op.MULH? ==> OpOf(0x0200_1033) == op
    ensures op.MULHSU? ==> OpOf(0x0200_2033) == op
    ensures op.MULHU? ==> OpOf(0x0200_3033) == op
  {
    hide OpOf, IsaPattern, GroupOf, HasCase;
    ArithmeticOps(op);
    ArithmeticPatterns(op);
    if op.ADD? { Answered(op, 0x0000_0033, RPattern(0x33, 0, 0)); }
    if op.SUB? { Answered(op, 0x4000_0033, RPattern(0x33, 0, 0x20)); }
    if op.SLL? { Answered(op, 0x0000_1033, RPattern(0x33, 1, 0)); }
    if op.SLT? { Answered(op, 0x0000_2033, RPattern(0x33, 2, 0)); }
    if op.SLTU? { Answered(op, 0x0000_3033, RPattern(0x33, 3, 0)); }
    if op.XOR? { Answered(op, 0x0000_4033, RPattern(0x33, 4, 0)); }
    if op.SRL? { Answered(op, 0x0000_5033, RPattern(0x33, 5, 0)); }
    if op.SRA? { Answered(op, 0x4000_5033, RPattern(0x33, 5, 0x20)); }
    if op.OR? { Answered(op, 0x0000_6033, RPattern(0x33, 6, 0)); }
    if op.AND? { Answered(op, 0x0000_7033, RPattern(0x33, 7, 0)); }
    if op.MUL? { Answered(op, 0x0200_0033, RPattern(0x33, 0, 1)); }
    if op.MULH? { Answered(op, 0x0200_1033, RPattern(0x33, 1, 1)); }
    if op.MULHSU? { Answered(op, 0x0200_2033, RPattern(0x33, 2, 1)); }
    if op.MULHU? { Answered(op, 0x0200_3033, RPattern(0x33, 3, 1)); }
  }

  lemma OtherWords(op: Op)
    ensures op.LUI? ==> OpOf(0x0000_0037) == op
    ensures op.AUIPC? ==> OpOf(0x0000_0017) == op
    ensures op.JAL? ==> OpOf(0x0000_006f) == op
    ensures op.JALR? ==> OpOf(0x0000_0067) == op
    ensures op.WFI? ==> OpOf(0x1050_0073) == op
  {
    hide OpOf, IsaPattern, GroupOf;
    OtherOps(op);
    if op.LUI? { DecodesExactly(op, 0x0000_0037); }
    if op.AUIPC? { DecodesExactly(op, 0x0000_0017); }
    if op.JAL? { DecodesExactly(op, 0x0000_006f); }
    if op.JALR? { DecodesExactly(op, 0x0000_0067); }
    if op.WFI? { DecodesExactly(op, 0x1050_0073); }
    PatternRows(op);
  }

  // ----- one selection for every op -----

  predicate Is(s: Selected, opcode: bv32, f3: bv32, riscv: Format, imm: ImmKind) {
    s.opcode == opcode && s.funct3 == f3 && s.riscv == riscv && s.imm == imm
  }

  predicate IsR(s: Selected, opcode: bv32, f3: bv32, f7: bv32, riscv: Format, imm: ImmKind) {
    Is(s, opcode, f3, riscv, imm) && s.funct7 == f7
  }

  lemma BranchSelection(op: Op, s: Selected)
    ensures op.BEQ? ==> (SelectedFor(op, s) <==> Is(s, 0x63, 0, SType, Bimm))
    ensures op.BNE? ==> (SelectedFor(op, s) <==> Is(s, 0x63, 1, SType, Bimm))
    ensures op.BLT? ==> (SelectedFor(op, s) <==> Is(s, 0x63, 4, SType, Bimm))
    ensures op.BGE? ==> (SelectedFor(op, s) <==> Is(s, 0x63, 5, SType, Bimm))
    ensures op.BLTU? ==> (SelectedFor(op, s) <==> Is(s, 0x63, 6, SType, Bimm))
    ensures op.BGEU? ==> (SelectedFor(op, s) <==> Is(s, 0x63, 7, SType, Bimm))
  {
    hide IsaPattern;
    BranchPatterns(op);
  }

  lemma LoadSelection(op: Op, s: Selected)
    ensures op.LB? ==> (SelectedFor(op, s) <==> Is(s, 0x03, 0, IType, Iimm))
    ensures op.LH? ==> (SelectedFor(op, s) <==> Is(s, 0x03, 1, IType, Iimm))
    ensures op.LW? ==> (SelectedFor(op, s) <==> Is(s, 0x03, 2, IType, Iimm))
    ensures op.LBU? ==> (SelectedFor(op, s) <==> Is(s, 0x03, 4, IType, Iimm))
    ensures op.LHU? ==> (SelectedFor(op, s) <==> Is(s, 0x03, 5, IType, Iimm))
  {
    hide IsaPattern;
    LoadPatterns(op);
  }

  lemma StoreSelection(op: Op, s: Selected)
    ensures op.SB? ==> (SelectedFor(op, s) <==> Is(s, 0x23, 0, SType, Simm))
    ensures op.SH? ==> (SelectedFor(op, s) <==> Is(s, 0x23, 1, SType, Simm))
    ensures op.SW? ==> (SelectedFor(op, s) <==> Is(s, 0x23, 2, SType, Simm))
  {
    hide IsaPattern;
    StorePatterns(op);
  }

  lemma ImmediateSelection(op: Op, s: Selected)
    ensures op.ADDI? ==> (SelectedFor(op, s) <==> Is(s, 0x13, 0, IType, Iimm))
    ensures op.SLTI? ==> (SelectedFor(op, s) <==> Is(s, 0x13, 2, IType, Iimm))
    ensures op.SLTIU? ==> (SelectedFor(op, s) <==> Is(s, 0x13, 3, IType, Iimm))
    ensures op.XORI? ==> (SelectedFor(op, s) <==> Is(s, 0x13, 4, IType, Iimm))
    ensures op.ORI? ==> (SelectedFor(op, s) <==> Is(s, 0x13, 6, IType, Iimm))
    ensures op.ANDI? ==> (SelectedFor(op, s) <==> Is(s, 0x13, 7, IType, Iimm))
  {
    hide IsaPattern;
    ImmediatePatterns(op);
  }

  lemma ShiftSelection(op: Op, s: Selected)
    ensures op.SLLI? ==> (SelectedFor(op, s) <==> IsR(s, 0x13, 1, 0, IType, Iimm))
    ensures op.SRLI? ==> (SelectedFor(op, s) <==> IsR(s, 0x13, 5, 0, IType, Iimm))
    ensures op.SRAI? ==> (SelectedFor(op, s) <==> IsR(s, 0x13, 5, 0x20, IType, Iimm))
  {
    hide IsaPattern;
    ShiftPatterns(op);
  }

  lemma ArithmeticSelection(op: Op, s: Selected)
    ensures op.ADD? ==> (SelectedFor(op, s) <==> IsR(s, 0x33, 0, 0, RType, Rimm))
    ensures op.SUB? ==> (SelectedFor(op, s) <==> IsR(s, 0x33, 0, 0x20, RType, Rimm))
    ensures op.SLL? ==> (SelectedFor(op, s) <==> IsR(s, 0x33, 1, 0, RType, Rimm))
    ensures op.SLT? ==> (SelectedFor(op, s) <==> IsR(s, 0x33, 2, 0, RType, Rimm))
    ensures op.SLTU? ==> (SelectedFor(op, s) <==> IsR(s, 0x33, 3, 0, RType, Rimm))
    ensures op.XOR? ==> (SelectedFor(op, s) <==> IsR(s, 0x33, 4, 0, RType, Rimm))
    ensures op.SRL? ==> (SelectedFor(op, s) <==> IsR(s, 0x33, 5, 0, RType, Rimm))
    ensures op.SRA? ==> (SelectedFor(op, s) <==> IsR(s, 0x33, 5, 0x20, RType, Rimm))
    ensures op.OR? ==> (SelectedFor(op, s) <==> IsR(s, 0x33, 6, 0, RType, Rimm))
    ensures op.AND? ==> (SelectedFor(op, s) <==> IsR(s, 0x33, 7, 0, RType, Rimm))
    ensures op.MUL? ==> (SelectedFor(op, s) <==> IsR(s, 0x33, 0, 1, RType, Rimm))
    ensures op.MULH? ==> (SelectedFor(op, s) <==> IsR(s, 0x33, 1, 1, RType, Rimm))
    ensures op.MULHSU? ==> (SelectedFor(op, s) <==> IsR(s, 0x33, 2, 1, RType, Rimm))
    ensures op.MULHU? ==> (SelectedFor(op, s) <==> IsR(s, 0x33, 3, 1, RType, Rimm))
  {
    hide IsaPattern;
    ArithmeticPatterns(op);
  }

  lemma OtherSelection(op: Op, s: Selected)
    ensures op.LUI? ==> (SelectedFor(op, s) <==> s.opcode == 0x37 && s.riscv == UType && s.imm == Uimm)
    ensures op.AUIPC? ==> (SelectedFor(op, s) <==> s.opcode == 0x17 && s.riscv == UType && s.imm == Uimm)
    ensures op.JAL? ==> (SelectedFor(op, s) <==> s.opcode == 0x6f && s.riscv == UType && s.imm == Uimm)
    ensures op.JALR? ==> (SelectedFor(op, s) <==> Is(s, 0x67, 0, IType, Iimm))
    ensures op.WFI? ==> (SelectedFor(op, s) <==> Is(s, 0x73, 0, PType, Rimm) && s.funct12 == 0x105)
  {
    hide IsaPattern, GroupOf;
    PatternRows(op);
  }

  // ----- the immediate macros of ISA.svh, slice by slice -----

  /** The bits of x from position lo on, as many as the mask has. */
  function Slice(x: bv32, lo: bv32, mask: bv32): bv32
    requires lo < 32
  {
    (x >> lo) & mask
  }

  lemma SlicesOfI(w: bv32)
    ensures Slice(SignextI(w), 11, 0x1f_ffff) == if Sign(w) then 0x1f_ffff else 0
    ensures Slice(SignextI(w), 0, 0x7ff) == Slice(w, 20, 0x7ff)
  {
    hide SignextI;
    HighOfI(w);
    LowOfI(w);
  }

  lemma HighOfI(w: bv32)
    ensures Slice(SignextI(w), 11, 0x1f_ffff) == if Sign(w) then 0x1f_ffff else 0
  {
  }

  lemma LowOfI(w: bv32)
    ensures Slice(SignextI(w), 0, 0x7ff) == Slice(w, 20, 0x7ff)
  {
  }

  lemma SlicesOfS(w: bv32)
    ensures Slice(SignextS(w), 11, 0x1f_ffff) == if Sign(w) then 0x1f_ffff else 0
    ensures Slice(SignextS(w), 5, 0x3f) == Slice(w, 25, 0x3f)
    ensures Slice(SignextS(w), 0, 0x1f) == Slice(w, 7, 0x1f)
  {
    hide SignextS;
    HighOfS(w);
    LowOfS(w);
  }

  lemma HighOfS(w: bv32)
    ensures Slice(SignextS(w), 11, 0x1f_ffff) == if Sign(w) then 0x1f_ffff else 0
  {
  }

  lemma LowOfS(w: bv32)
    ensures Slice(SignextS(w), 5, 0x3f) == Slice(w, 25, 0x3f)
    ensures Slice(SignextS(w), 0, 0x1f) == Slice(w, 7, 0x1f)
  {
  }

  lemma SlicesOfB(w: bv32)
    ensures Slice(SignextB(w), 12, 0xf_ffff) == if Sign(w) then 0xf_ffff else 0
    ensures Slice(SignextB(w), 11, 0x1) == Slice(w, 7, 0x1)
    ensures Slice(SignextB(w), 5, 0x3f) == Slice(w, 25, 0x3f)
    ensures Slice(SignextB(w), 1, 0xf) == Slice(w, 8, 0xf)
    ensures Slice(SignextB(w), 0, 0x1) == 0
  {
    hide SignextB;
    HighOfB(w);
    MiddleOfB(w);
    LowOfB(w);
  }

  lemma HighOfB(w: bv32)
    ensures Slice(SignextB(w), 12, 0xf_ffff) == if Sign(w) then 0xf_ffff else 0
  {
  }

  lemma MiddleOfB(w: bv32)
    ensures Slice(SignextB(w), 11, 0x1) == Slice(w, 7, 0x1)
    ensures Slice(SignextB(w), 5, 0x3f) == Slice(w, 25, 0x3f)
  {
  }

  lemma LowOfB(w: bv32)
    ensures Slice(SignextB(w), 1, 0xf) == Slice(w, 8, 0xf)
    ensures Slice(SignextB(w), 0, 0x1) == 0
  {
  }

  lemma SlicesOfU(w: bv32)
    ensures Slice(SignextU(w), 12, 0xf_ffff) == Slice(w, 12, 0xf_ffff)
    ensures Slice(SignextU(w), 0, 0xfff) == 0
  {
  }

  lemma SlicesOfJ(w: bv32)
    ensures Slice(SignextJ(w), 20, 0xfff) == if Sign(w) then 0xfff else 0
    ensures Slice(SignextJ(w), 12, 0xff) == Slice(w, 12, 0xff)
    ensures Slice(SignextJ(w), 11, 0x1) == Slice(w, 20, 0x1)
    ensures Slice(SignextJ(w), 1, 0x3ff) == Slice(w, 21, 0x3ff)
    ensures Slice(SignextJ(w), 0, 0x1) == 0
  {
    hide *;
    JumpPieces(w);
    JumpEnds(w);
    PieceIsSlice(SignextJ(w), 12, w, 12, 0xff);
    PieceIsSlice(SignextJ(w), 11, w, 20, 0x1);
    PieceIsSlice(SignextJ(w), 1, w, 21, 0x3ff);
  }

  lemma PieceIsSlice(x: bv32, i: bv32, w: bv32, j: bv32, mask: bv32)
    requires i < 32 && j < 32 && (x >> i) & mask == (w >> j) & mask
    ensures Slice(x, i, mask) == Slice(w, j, mask)
  {
  }

  lemma JumpEnds(w: bv32)
    ensures Slice(SignextJ(w), 20, 0xfff) == if Sign(w) then 0xfff else 0
    ensures Slice(SignextJ(w), 0, 0x1) == 0
  {
  }

  // ----- offsets come back from words of the whole format -----

  /** The S format with all seven of its high immediate bits. */
  function FullWordS(opcode: bv32, f3: bv32, rs1: bv32, rs2: bv32, imm: bv32): bv32 {
    opcode | (f3 << 12) | (rs1 << 15) | (rs2 << 20) | ((imm & 0x1f) << 7) | (((imm >> 5) & 0x7f) << 25)
  }

  lemma StoreOffsetComesBack(opcode: bv32, f3: bv32, rs1: bv32, rs2: bv32, imm: bv32)
    requires opcode < 128 && f3 < 8 && rs1 < 32 && rs2 < 32 && SignExtends(imm, 0xffff_f800)
    ensures SignextS(FullWordS(opcode, f3, rs1, rs2, imm)) == imm
  {
  }

  lemma JumpOffsetComesBack(opcode: bv32, rd: bv32, imm: bv32)
    requires opcode < 128 && rd < 32 && SignExtends(imm, 0xfff0_0000) && imm & 1 == 0
    ensures SignextJ(WordJ(opcode, rd, imm)) == imm
  {
    hide SignextJ, WordJ, SignExtends, Sign, Slice;
    var w := WordJ(opcode, rd, imm);
    JumpFields(opcode, rd, imm);
    SlicesOfJ(w);
    SignOfJump(w, imm);
    SameSlices(SignextJ(w), imm);
  }

  lemma JumpFields(opcode: bv32, rd: bv32, imm: bv32)
    requires opcode < 128 && rd < 32
    ensures var w := WordJ(opcode, rd, imm);
      && Slice(w, 12, 0xff) == Slice(imm, 12, 0xff) && Slice(w, 20, 0x1) == Slice(imm, 11, 0x1)
      && Slice(w, 21, 0x3ff) == Slice(imm, 1, 0x3ff) && Slice(w, 31, 0x1) == Slice(imm, 20, 0x1)
  {
    hide WordJ, Slice;
    LowJumpFields(opcode, rd, imm);
    HighJumpFields(opcode, rd, imm);
  }

  lemma LowJumpFields(opcode: bv32, rd: bv32, imm: bv32)
    requires opcode < 128 && rd < 32
    ensures var w := WordJ(opcode, rd, imm);
      Slice(w, 12, 0xff) == Slice(imm, 12, 0xff) && Slice(w, 20, 0x1) == Slice(imm, 11, 0x1)
  {
  }

  lemma HighJumpFields(opcode: bv32, rd: bv32, imm: bv32)
    requires opcode < 128 && rd < 32
    ensures var w := WordJ(opcode, rd, imm);
      Slice(w, 21, 0x3ff) == Slice(imm, 1, 0x3ff) && Slice(w, 31, 0x1) == Slice(imm, 20, 0x1)
  {
  }

  lemma SignOfJump(w: bv32, imm: bv32)
    requires SignExtends(imm, 0xfff0_0000) && Slice(w, 31, 0x1) == Slice(imm, 20, 0x1) && imm & 1 == 0
    ensures Slice(imm, 20, 0xfff) == if Sign(w) then 0xfff else 0
    ensures Slice(imm, 0, 0x1) == 0
  {
  }

  lemma SameSlices(a: bv32, b: bv32)
    requires Slice(a, 20, 0xfff) == Slice(b, 20, 0xfff) && Slice(a, 12, 0xff) == Slice(b, 12, 0xff)
    requires Slice(a, 11, 0x1) == Slice(b, 11, 0x1) && Slice(a, 1, 0x3ff) == Slice(b, 1, 0x3ff)
    requires Slice(a, 0, 0x1) == Slice(b, 0, 0x1)
    ensures a == b
  {
  }

  // ----- format and immediate kind -----

  /**
   A valid word is decoded with the format and the immediate kind of its op's pattern, except that JAL
   gets the J layout, which no pattern has; without an immediate the previous value stays.
   */
  lemma DecodedKind(w: bv32, previous: Fields, s: Selected)
    requires Agrees(IsaPattern(OpOf(w)), s)
    ensures var g := DecodeFields(w, previous);
      && g.riscv == s.riscv && g.imm == (if OpOf(w).JAL? then Jimm else s.imm)
      && (g.imm.Rimm? ==> g.immValue == previous.immValue)
  {
    hide OpOf, Accepts, GroupOf, OpcodeOf, IsaPattern, Agrees, Opcode, Funct3, Funct7, Funct12;
    hide Has, Answers, Rs1, Rs2, Rd, SignextI, SignextS, SignextB, SignextJ, HasCase;
    AgreedKind(OpOf(w), s);
    OpcodeOfWord(w);
  }

  /** Format and immediate kind of a selection, by the opcode of its op. */
  predicate KindByOpcode(opcode: bv32, s: Selected) {
    if opcode == 0x37 || opcode == 0x17 || opcode == 0x6f then s.riscv == UType && s.imm == Uimm
    else if opcode == 0x67 || opcode == 0x03 || opcode == 0x13 then s.riscv == IType && s.imm == Iimm
    else if opcode == 0x63 then s.riscv == SType && s.imm == Bimm
    else if opcode == 0x23 then s.riscv == SType && s.imm == Simm
    else if opcode == 0x33 then s.riscv == RType && s.imm == Rimm
    else opcode == 0x73 && s.riscv == PType && s.imm == Rimm
  }

  lemma AgreedKind(op: Op, s: Selected)
    requires Agrees(IsaPattern(op), s)
    ensures !op.INVALID? && KindByOpcode(OpcodeOf(op), s) && (op.JAL? <==> OpcodeOf(op) == 0x6f)
  {
    hide GroupOf, OpcodeOf, IsaPattern, Opcode, Funct3, Funct7, Funct12;
    hide BranchFunct3, LoadFunct3, StoreFunct3, ImmediateFunct3;
    hide ShiftFunct3, ShiftFunct7, ArithmeticFunct3, ArithmeticFunct7;
    PatternRows(op);
    OtherOps(op);
    OpcodeRows(op);
  }

  lemma OpcodeOfWord(w: bv32)
    ensures OpOf(w) != INVALID ==> HasCase(OpOf(w)) && Opcode(w) == OpcodeOf(OpOf(w))
  {
    hide OpOf, Accepts, GroupOf, OpcodeOf, Opcode, Has;
    OpAnswers(w);
    if OpOf(w) != INVALID { AcceptRow(OpOf(w), w); }
  }

  lemma OpcodeRows(op: Op)
    ensures GroupOf(op) == Branch ==> OpcodeOf(op) == 0x63
    ensures GroupOf(op) == Load ==> OpcodeOf(op) == 0x03
    ensures GroupOf(op) == Store ==> OpcodeOf(op) == 0x23
    ensures GroupOf(op) == Immediate || GroupOf(op) == Shift ==> OpcodeOf(op) == 0x13
    ensures GroupOf(op) == Arithmetic ==> OpcodeOf(op) == 0x33
    ensures op.LUI? ==> OpcodeOf(op) == 0x37
    ensures op.AUIPC? ==> OpcodeOf(op) == 0x17
    ensures op.JAL? ==> OpcodeOf(op) == 0x6f
    ensures op.JALR? ==> OpcodeOf(op) == 0x67
    ensures op.WFI? ==> OpcodeOf(op) == 0x73
  {
    hide GroupOf;
    OtherOps(op);
  }

  // ----- one whole word for every format -----

  /** add x3, x1, x2 */
  lemma DecodedAdd(previous: Fields)
    ensures var g := DecodeFields(0x0020_81b3, previous);
      && g.rd == 3 && g.rs1 == 1 && g.rs2 == 2 && g.riscv == RType && g.imm == Rimm && g.immValue == previous.immValue
  {
    hide OpOf;
  }

  /** lw x5, -4(x6) */
  lemma DecodedLoad(previous: Fields)
    ensures var g := DecodeFields(0xffc3_2283, previous);
      g.rd == 5 && g.rs1 == 6 && g.riscv == IType && g.imm == Iimm && g.immValue == 0xffff_fffc
  {
    hide OpOf;
  }

  /** srai x7, x8, 31 */
  lemma DecodedShift(previous: Fields)
    ensures var g := DecodeFields(0x41f4_5393, previous);
      g.rd == 7 && g.rs1 == 8 && g.riscv == IType && g.imm == Iimm && g.immValue == 31
  {
    hide OpOf;
  }

  /** sw x2, -4(x1) */
  lemma DecodedNegativeStore(previous: Fields)
    ensures var g := DecodeFields(0xfe20_ae23, previous);
      g.rs1 == 1 && g.rs2 == 2 && g.riscv == SType && g.imm == Simm && g.immValue == 0xffff_fffc
  {
    hide OpOf;
  }

  /** beq x1, x2, -8 */
  lemma DecodedBranch(previous: Fields)
    ensures var g := DecodeFields(0xfe20_8ce3, previous);
      g.rs1 == 1 && g.rs2 == 2 && g.riscv == SType && g.imm == Bimm && g.immValue == 0xffff_fff8
  {
    hide OpOf;
  }

  /** jal x1, -8 */
  lemma DecodedJump(previous: Fields)
    ensures var g := DecodeFields(0xff9f_f0ef, previous);
      g.rd == 1 && g.riscv == UType && g.imm == Jimm && g.immValue == 0xffff_fff8
  {
    hide OpOf;
  }

  /** lui x7, 0xabcde */
  lemma DecodedUpperWord(previous: Fields)
    ensures var g := DecodeFields(0xabcd_e3b7, previous);
      g.rd == 7 && g.riscv == UType && g.imm == Uimm && g.immValue == 0xabcde
  {
    hide OpOf;
  }
}
