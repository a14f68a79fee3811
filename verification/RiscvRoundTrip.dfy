/** testbench/riscv_inst.h: decoder against ISA.svh, and the two round trips between words and fields. */
module RiscvRoundTrip {
  import opened RiscvInst

  // ----- the decoder against the patterns of ISA.svh -----

  predicate IsStore(op: Op) { op.SB? || op.SH? || op.SW? }

  lemma BranchBounds(op: Op)
    requires GroupOf(op) == Branch
    ensures BranchFunct3(op) < 8
  {
  }

  lemma LoadBounds(op: Op)
    requires GroupOf(op) == Load
    ensures LoadFunct3(op) < 8
  {
  }

  lemma StoreBounds(op: Op)
    requires GroupOf(op) == Store
    ensures StoreFunct3(op) < 8
  {
  }

  lemma ImmediateBounds(op: Op)
    requires GroupOf(op) == Immediate
    ensures ImmediateFunct3(op) < 8 && ImmediateFunct3(op) != 1 && ImmediateFunct3(op) != 5
  {
  }

  lemma ShiftBounds(op: Op)
    requires GroupOf(op) == Shift
    ensures ShiftFunct7(op) < 128 && (ShiftFunct3(op) == 1 || ShiftFunct3(op) == 5)
  {
  }

  lemma PatternInBounds(op: Op)
    requires HasCase(op)
    ensures InBounds(IsaPattern(op)) && !IsaPattern(op).NoPattern?
    ensures var p := IsaPattern(op);
      && (IsShiftImmediate(op) <==> p.RPattern? && p.opcode == 0x13)
      && (op.JAL? <==> p == UPattern(0x6f))
      && (op.WFI? <==> p.WordPattern?)
      && (p == IPattern(0x67, 0) <==> op.JALR?)
  {
    hide IsaPattern, GroupOf;
    hide BranchFunct3, LoadFunct3, StoreFunct3, ImmediateFunct3;
    hide ShiftFunct3, ShiftFunct7, ArithmeticFunct3, ArithmeticFunct7;
    PatternRows(op);
    ShiftOps(op);
    OtherOps(op);
    match GroupOf(op)
    case Branch => BranchBounds(op);
    case Load => LoadBounds(op);
    case Store => StoreBounds(op);
    case Immediate => ImmediateBounds(op);
    case Shift => ShiftBounds(op);
    case Arithmetic => ArithmeticBounds(op);
    case _ =>
  }

  /** For every op with a pattern: the decoder answers op exactly on the words op accepts. */
  lemma DecodesExactly(op: Op, w: bv32)
    requires HasCase(op)
    ensures OpOf(w) == op <==> Accepts(op, w)
  {
    hide Accepts, GroupOf, OpOf;
    OtherOps(op);
    OpAnswers(w);
    if Accepts(op, w) { OneAccepts(op, OpOf(w), w); }
  }

  /** Exactly which words the decoder takes beyond the patterns of ISA.svh. */
  lemma LooserThanIsa(op: Op, w: bv32)
    requires HasCase(op)
    ensures Matches(w, IsaPattern(op)) <==>
      OpOf(w) == op && (op.JALR? ==> Funct3(w) == 0) && (op.WFI? ==> Rd(w) == 0 && Rs1(w) == 0)
  {
    hide OpOf, IsaPattern, Opcode, Funct3, Funct7, Rs1, Rd, Funct12, GroupOf;
    DecodesExactly(op, w);
    PatternRows(op);
    WfiWord(w);
  }

  lemma JalrRow(w: bv32)
    ensures Accepts(JALR, w) <==> Opcode(w) == 0x67
  {
  }

  /** A jalr with funct3 1, which ISA.svh does not have, is taken for JALR. */
  lemma WordBeyondIsa()
    ensures OpOf(0x0000_1067) == JALR && !Matches(0x0000_1067, IsaPattern(JALR))
  {
    hide OpOf, IsaPattern, Accepts, Matches;
    JalrRow(0x0000_1067);
    DecodesExactly(JALR, 0x0000_1067);
    LooserThanIsa(JALR, 0x0000_1067);
  }

  lemma WfiWord(w: bv32)
    ensures w == 0x1050_0073 <==>
      Opcode(w) == 0x73 && Funct3(w) == 0 && Funct12(w) == 0x105 && Rd(w) == 0 && Rs1(w) == 0
  {
  }

  /** The unshifted U immediate is the macro's value shifted right by 12. */
  lemma UpperImmediate(w: bv32, previous: bv32)
    ensures ImmediateOf(w, Uimm, previous) << 12 == SignextU(w)
    ensures ImmediateOf(w, Uimm, previous) == SignextU(w) >> 12
  {
    assert w >> 12 == ((w >> 12) << 12) >> 12;
  }

  // ----- a word, decoded and encoded again -----

  lemma ReassembleR(w: bv32)
    ensures WordR(Opcode(w), Rd(w), Funct3(w), Rs1(w), Rs2(w), Funct7(w)) == w
  {
  }

  lemma ReassembleShift(w: bv32)
    ensures WordR(Opcode(w), Rd(w), Funct3(w), Rs1(w), Rs2(w) & 0x1f, Funct7(w)) == w
  {
  }

  lemma ReassembleI(w: bv32)
    ensures WordI(Opcode(w), Rd(w), Funct3(w), Rs1(w), SignextI(w)) == w
  {
  }

  lemma ReassembleS(w: bv32)
    ensures WordS(Opcode(w), Funct3(w), Rs1(w), Rs2(w), SignextS(w)) == w & 0x7fff_ffff
  {
  }

  lemma ReassembleB(w: bv32)
    ensures WordB(Opcode(w), Funct3(w), Rs1(w), Rs2(w), SignextB(w)) == w
  {
  }

  lemma ReassembleU(w: bv32)
    ensures WordU(Opcode(w), Rd(w), w >> 12) == w
  {
  }

  lemma JumpPieces(w: bv32)
    ensures (SignextJ(w) >> 12) & 0xff == (w >> 12) & 0xff
    ensures (SignextJ(w) >> 11) & 0x1 == (w >> 20) & 0x1
    ensures (SignextJ(w) >> 1) & 0x3ff == (w >> 21) & 0x3ff
    ensures (SignextJ(w) >> 20) & 0x1 == w >> 31
  {
  }

  lemma ReassembleJ(w: bv32)
    ensures WordJ(Opcode(w), Rd(w), SignextJ(w)) == w
  {
    JumpPieces(w);
    JoinJumpPieces(w, (w >> 12) & 0xff, (w >> 20) & 0x1, (w >> 21) & 0x3ff, w >> 31);
  }

  lemma JoinJumpPieces(w: bv32, a: bv32, b: bv32, c: bv32, d: bv32)
    requires a == (w >> 12) & 0xff && b == (w >> 20) & 0x1 && c == (w >> 21) & 0x3ff && d == w >> 31
    ensures Opcode(w) | (Rd(w) << 7) | (a << 12) | (b << 20) | (c << 21) | (d << 31) == w
  {
  }

  lemma ReassembleP(w: bv32)
    ensures WordI(Opcode(w), Rd(w), Funct3(w), Rs1(w), Funct12(w)) == w
  {
  }

  lemma ClearSign(w: bv32)
    ensures w & 0x7fff_ffff == w <==> !Sign(w)
  {
  }

  /** An op with the immediate opcode is a shift exactly when its funct3 is 1 or 5. */
  lemma ShiftOpsOf(w: bv32)
    requires OpOf(w) != INVALID && (Opcode(w) == 0x13 || Opcode(w) == 0x03 || Opcode(w) == 0x67)
    ensures IsShiftImmediate(OpOf(w)) <==> Opcode(w) == 0x13 && (Funct3(w) == 1 || Funct3(w) == 5)
  {
    hide OpOf, Accepts, GroupOf, Opcode, Funct3, Funct7, Funct12, ImmediateFunct3, ShiftFunct3, ShiftFunct7;
    hide BranchFunct3, LoadFunct3, StoreFunct3, ArithmeticFunct3, ArithmeticFunct7;
    var op := OpOf(w);
    OpAnswers(w);
    AcceptRow(op, w);
    ShiftOps(op);
    OtherOps(op);
    if GroupOf(op) == Immediate { ImmediateBounds(op); }
    if GroupOf(op) == Shift { ShiftBounds(op); }
  }

  lemma StoreOpsOf(w: bv32)
    ensures OpOf(w) != INVALID ==> (IsStore(OpOf(w)) <==> Opcode(w) == 0x23)
  {
    hide OpOf, Accepts, GroupOf, Opcode, Funct3, Funct7, Funct12, Has;
    var op := OpOf(w);
    OpAnswers(w);
    if op != INVALID {
      AcceptRow(op, w);
      StoreOps(op);
      OtherOps(op);
    }
  }

  lemma DecodedI(w: bv32, previous: Fields)
    requires Opcode(w) == 0x13 || Opcode(w) == 0x03 || Opcode(w) == 0x67
    ensures var g := DecodeFields(w, previous);
      && g.riscv.IType? && g.op == OpOf(w) && g.opcode == Opcode(w) && g.rd == Rd(w) && g.funct3 == Funct3(w)
      && g.rs1 == Rs1(w) && g.funct7 == Funct7(w)
      && g.immValue == if Opcode(w) == 0x13 && (Funct3(w) == 1 || Funct3(w) == 5) then Rs2(w) else SignextI(w)
  {
    hide OpOf, Opcode, Rd, Funct3, Rs1, Rs2, Funct7, Funct12, SignextI;
  }

  lemma EncodeAfterDecodeI(w: bv32, previous: Fields)
    requires OpOf(w) != INVALID && (Opcode(w) == 0x13 || Opcode(w) == 0x03 || Opcode(w) == 0x67)
    ensures EncodeFields(DecodeFields(w, previous)) == w
  {
    hide OpOf, DecodeFields, Opcode, Rd, Funct3, Rs1, Rs2, Funct7, SignextI, WordR, WordI;
    DecodedI(w, previous);
    ShiftOpsOf(w);
    if IsShiftImmediate(OpOf(w)) { ReassembleShift(w); } else { ReassembleI(w); }
  }

  lemma EncodeAfterDecodeR(w: bv32, previous: Fields)
    requires Opcode(w) == 0x33
    ensures EncodeFields(DecodeFields(w, previous)) == w
  {
    hide OpOf;
    hide Opcode, Rd, Funct3, Rs1, Rs2, Funct7, Funct12, SignextI, SignextS, SignextB, SignextU, SignextJ;
    hide WordR, WordI, WordS, WordB, WordU, WordJ;
    ReassembleR(w);
  }

  lemma EncodeAfterDecodeS(w: bv32, previous: Fields)
    requires Opcode(w) == 0x23
    ensures EncodeFields(DecodeFields(w, previous)) == w & 0x7fff_ffff
  {
    hide OpOf;
    hide Opcode, Rd, Funct3, Rs1, Rs2, Funct7, Funct12, SignextI, SignextS, SignextB, SignextU, SignextJ;
    hide WordR, WordI, WordS, WordB, WordU, WordJ;
    ReassembleS(w);
  }

  lemma EncodeAfterDecodeB(w: bv32, previous: Fields)
    requires Opcode(w) == 0x63
    ensures EncodeFields(DecodeFields(w, previous)) == w
  {
    hide OpOf;
    hide Opcode, Rd, Funct3, Rs1, Rs2, Funct7, Funct12, SignextI, SignextS, SignextB, SignextU, SignextJ;
    hide WordR, WordI, WordS, WordB, WordU, WordJ;
    ReassembleB(w);
  }

  lemma EncodeAfterDecodeJ(w: bv32, previous: Fields)
    requires Opcode(w) == 0x6f
    ensures EncodeFields(DecodeFields(w, previous)) == w
  {
    hide OpOf;
    hide Opcode, Rd, Funct3, Rs1, Rs2, Funct7, Funct12, SignextI, SignextS, SignextB, SignextU, SignextJ;
    hide WordR, WordI, WordS, WordB, WordU, WordJ;
    ReassembleJ(w);
  }

  lemma EncodeAfterDecodeU(w: bv32, previous: Fields)
    requires Opcode(w) == 0x37 || Opcode(w) == 0x17
    ensures EncodeFields(DecodeFields(w, previous)) == w
  {
    hide OpOf;
    hide Opcode, Rd, Funct3, Rs1, Rs2, Funct7, Funct12, SignextI, SignextS, SignextB, SignextU, SignextJ;
    hide WordR, WordI, WordS, WordB, WordU, WordJ;
    ReassembleU(w);
  }

  lemma EncodeAfterDecodeP(w: bv32, previous: Fields)
    requires Opcode(w) == 0x73
    ensures EncodeFields(DecodeFields(w, previous)) == w
  {
    hide OpOf;
    hide Opcode, Rd, Funct3, Rs1, Rs2, Funct7, Funct12, SignextI, SignextS, SignextB, SignextU, SignextJ;
    hide WordR, WordI, WordS, WordB, WordU, WordJ;
    ReassembleP(w);
  }

  lemma KnownOpcodes(w: bv32)
    ensures OpOf(w) != INVALID ==>
      var opcode := Opcode(w);
      || opcode == 0x13 || opcode == 0x03 || opcode == 0x67 || opcode == 0x33 || opcode == 0x23
      || opcode == 0x63 || opcode == 0x6f || opcode == 0x37 || opcode == 0x17 || opcode == 0x73
  {
    hide OpOf, Accepts, GroupOf, Opcode, Funct3, Funct7, Funct12, Has;
    OpAnswers(w);
    if OpOf(w) != INVALID { AcceptRow(OpOf(w), w); }
  }

  /** The word comes back, except that a store loses bit 31. */
  lemma EncodeAfterDecode(w: bv32, previous: Fields)
    ensures OpOf(w) != INVALID ==>
      EncodeFields(DecodeFields(w, previous)) == if IsStore(OpOf(w)) then w & 0x7fff_ffff else w
  {
    hide OpOf, Opcode, EncodeFields, DecodeFields, IsStore;
    var opcode := Opcode(w);
    KnownOpcodes(w);
    StoreOpsOf(w);
    if OpOf(w) == INVALID {
    } else if opcode == 0x13 || opcode == 0x03 || opcode == 0x67 {
      EncodeAfterDecodeI(w, previous);
    } else if opcode == 0x33 {
      EncodeAfterDecodeR(w, previous);
    } else if opcode == 0x23 {
      EncodeAfterDecodeS(w, previous);
    } else if opcode == 0x63 {
      EncodeAfterDecodeB(w, previous);
    } else if opcode == 0x6f {
      EncodeAfterDecodeJ(w, previous);
    } else if opcode == 0x73 {
      EncodeAfterDecodeP(w, previous);
    } else {
      EncodeAfterDecodeU(w, previous);
    }
  }

  /** The two calls on one object, for any word. */
  method DecodeThenEncode(w: bv32) returns (op: Op, v: bv32)
    ensures op == OpOf(w)
    ensures op != INVALID ==> v == if IsStore(op) then w & 0x7fff_ffff else w
  {
    hide OpOf, EncodeFields, IsStore;
    var i := new Inst();
    ghost var previous := i.Contents();
    i.Decode(w);
    op := i.op;
    v := i.Encode();
    if op != INVALID {
      EncodeAfterDecode(w, previous);
    }
  }

  /** Encoding undoes decoding exactly when the word is not a store with bit 31 set. */
  lemma EncodeUndoesDecodeIff(w: bv32, previous: Fields)
    ensures OpOf(w) != INVALID ==>
      (EncodeFields(DecodeFields(w, previous)) == w <==> !(IsStore(OpOf(w)) && Sign(w)))
  {
    EncodeAfterDecode(w, previous);
    ClearSign(w);
  }

  lemma StoreWord()
    ensures Accepts(SW, 0xfe20_ae23)
  {
    hide Accepts, Funct7, Funct12;
    AcceptRow(SW, 0xfe20_ae23);
  }

  /** sw x2, -4(x1): the offset comes back positive. */
  lemma NegativeStoreIsLost(previous: Fields)
    ensures OpOf(0xfe20_ae23) == SW && EncodeFields(DecodeFields(0xfe20_ae23, previous)) == 0x7e20_ae23
  {
    hide OpOf, EncodeFields, DecodeFields, Accepts;
    StoreWord();
    DecodesExactly(SW, 0xfe20_ae23);
    EncodeAfterDecode(0xfe20_ae23, previous);
  }

  // ----- fields, encoded and decoded again -----

  /** The immediates a format can carry: sign-extended, even for branches and jumps. */
  predicate Canonical(p: Pattern, imm: bv32) {
    match p
    case RPattern(opcode, _, _) => opcode == 0x33 || imm < 32
    case IPattern(_, _) => SignExtends(imm, 0xffff_f800)
    case SPattern(opcode, _) =>
      if opcode == 0x63 then SignExtends(imm, 0xffff_f000) && imm & 1 == 0 else SignExtends(imm, 0xffff_f800)
    case UPattern(opcode) => if opcode == 0x6f then SignExtends(imm, 0xfff0_0000) && imm & 1 == 0 else imm < 0x10_0000
    case WordPattern(_) => true
    case NoPattern => false
  }

  predicate SignExtends(imm: bv32, mask: bv32) { imm & mask == 0 || imm & mask == mask }

  /** g agrees with f on the registers and the immediate that words of this pattern carry. */
  predicate Carries(p: Pattern, f: Fields, g: Fields) {
    match p
    case RPattern(opcode, _, _) =>
      g.rd == f.rd && g.rs1 == f.rs1 && if opcode == 0x33 then g.rs2 == f.rs2 else g.immValue == f.immValue
    case IPattern(_, _) => g.rd == f.rd && g.rs1 == f.rs1 && g.immValue == f.immValue
    case SPattern(_, _) => g.rs1 == f.rs1 && g.rs2 == f.rs2 && g.immValue == f.immValue
    case UPattern(_) => g.rd == f.rd && g.immValue == f.immValue
    case WordPattern(_) => g.rd == f.rd && g.rs1 == f.rs1
    case NoPattern => false
  }

  /** Fields as select and assign leave them for a pattern, with registers below 32. */
  predicate Prepared(p: Pattern, f: Fields) {
    && Agrees(p, Selected(f.riscv, f.imm, f.opcode, f.funct3, f.funct7, f.funct12))
    && f.rs1 < 32 && f.rs2 < 32 && f.rd < 32
  }

  predicate ShiftAgrees(p: Pattern, f: Fields) { IsShiftImmediate(f.op) <==> p.RPattern? && p.opcode == 0x13 }

  predicate InBounds(p: Pattern) {
    match p
    case RPattern(opcode, f3, f7) =>
      (opcode == 0x33 || opcode == 0x13) && f3 < 8 && f7 < 128 && (opcode == 0x13 ==> f3 == 1 || f3 == 5)
    case IPattern(opcode, f3) =>
      (opcode == 0x03 || opcode == 0x13 || opcode == 0x67) && f3 < 8 && (opcode == 0x13 ==> f3 != 1 && f3 != 5)
    case SPattern(opcode, f3) => (opcode == 0x23 || opcode == 0x63) && f3 < 8
    case UPattern(opcode) => opcode == 0x37 || opcode == 0x17 || opcode == 0x6f
    case WordPattern(word) => word == 0x1050_0073
    case NoPattern => true
  }

  lemma FieldsOfR(opcode: bv32, rd: bv32, f3: bv32, rs1: bv32, rs2: bv32, f7: bv32)
    requires opcode < 128 && rd < 32 && f3 < 8 && rs1 < 32 && rs2 < 32 && f7 < 128
    ensures var w := WordR(opcode, rd, f3, rs1, rs2, f7);
      Opcode(w) == opcode && Rd(w) == rd && Funct3(w) == f3 && Rs1(w) == rs1 && Rs2(w) == rs2 && Funct7(w) == f7
  {
  }

  lemma FieldsOfI(opcode: bv32, rd: bv32, f3: bv32, rs1: bv32, imm: bv32)
    requires opcode < 128 && rd < 32 && f3 < 8 && rs1 < 32
    ensures var w := WordI(opcode, rd, f3, rs1, imm);
      Opcode(w) == opcode && Rd(w) == rd && Funct3(w) == f3 && Rs1(w) == rs1 && Funct12(w) == imm & 0xfff
  {
  }

  lemma ImmediateOfI(opcode: bv32, rd: bv32, f3: bv32, rs1: bv32, imm: bv32)
    requires opcode < 128 && rd < 32 && f3 < 8 && rs1 < 32 && SignExtends(imm, 0xffff_f800)
    ensures SignextI(WordI(opcode, rd, f3, rs1, imm)) == imm
  {
    var w := WordI(opcode, rd, f3, rs1, imm);
    FieldsOfI(opcode, rd, f3, rs1, imm);
    SignextOfField(w, imm);
  }

  lemma SignextOfField(w: bv32, imm: bv32)
    requires Funct12(w) == imm & 0xfff && SignExtends(imm, 0xffff_f800)
    ensures SignextI(w) == imm
  {
  }

  lemma FieldsOfS(opcode: bv32, f3: bv32, rs1: bv32, rs2: bv32, imm: bv32)
    requires opcode < 128 && f3 < 8 && rs1 < 32 && rs2 < 32
    ensures var w := WordS(opcode, f3, rs1, rs2, imm);
      Opcode(w) == opcode && Funct3(w) == f3 && Rs1(w) == rs1 && Rs2(w) == rs2 && SignextS(w) == imm & 0x7ff
  {
  }

  lemma FieldsOfB(opcode: bv32, f3: bv32, rs1: bv32, rs2: bv32, imm: bv32)
    requires opcode < 128 && f3 < 8 && rs1 < 32 && rs2 < 32
    ensures var w := WordB(opcode, f3, rs1, rs2, imm);
      Opcode(w) == opcode && Funct3(w) == f3 && Rs1(w) == rs1 && Rs2(w) == rs2
  {
  }

  lemma ImmediateOfB(opcode: bv32, f3: bv32, rs1: bv32, rs2: bv32, imm: bv32)
    requires opcode < 128 && f3 < 8 && rs1 < 32 && rs2 < 32 && SignExtends(imm, 0xffff_f000) && imm & 1 == 0
    ensures SignextB(WordB(opcode, f3, rs1, rs2, imm)) == imm
  {
  }

  lemma FieldsOfU(opcode: bv32, rd: bv32, imm: bv32)
    requires opcode < 128 && rd < 32
    ensures var w := WordU(opcode, rd, imm); Opcode(w) == opcode && Rd(w) == rd && w >> 12 == imm & 0xfffff
  {
  }

  /** Bit 31 of a U word as the J format reads it. */
  lemma JumpReadsUpper(opcode: bv32, rd: bv32, imm: bv32)
    requires opcode < 128 && rd < 32
    ensures SignextJ(WordU(opcode, rd, imm)) == imm <==> SurvivesAsJump(imm)
  {
  }

  lemma OffsetFits(imm: bv32)
    requires SignExtends(imm, 0xffff_f800)
    ensures imm & 0x7ff == imm <==> !Sign(imm)
  {
  }

  lemma RoundTripR(p: Pattern, f: Fields, previous: Fields)
    requires InBounds(p) && Prepared(p, f) && p.RPattern? && p.opcode == 0x33
    ensures Matches(EncodeFields(f), p) && Carries(p, f, DecodeFields(EncodeFields(f), previous))
  {
    hide Opcode, Rd, Funct3, Rs1, Rs2, Funct7, Funct12, SignextI, SignextS, SignextB, SignextU, SignextJ;
    hide WordR, WordI, WordS, WordB, WordU, WordJ;
    FieldsOfR(f.opcode, f.rd, f.funct3, f.rs1, f.rs2, f.funct7);
  }

  lemma ShiftFits(imm: bv32)
    requires imm < 32
    ensures imm & 0x1f == imm
  {
  }

  lemma RoundTripShift(p: Pattern, f: Fields, previous: Fields)
    requires InBounds(p) && Prepared(p, f) && ShiftAgrees(p, f) && p.RPattern? && p.opcode == 0x13 && f.immValue < 32
    ensures Matches(EncodeFields(f), p) && Carries(p, f, DecodeFields(EncodeFields(f), previous))
  {
    hide Opcode, Rd, Funct3, Rs1, Rs2, Funct7, Funct12, SignextI, SignextS, SignextB, SignextU, SignextJ;
    hide WordR, WordI, WordS, WordB, WordU, WordJ;
    ShiftFits(f.immValue);
    FieldsOfR(f.opcode, f.rd, f.funct3, f.rs1, f.immValue, f.funct7);
  }

  lemma RoundTripI(p: Pattern, f: Fields, previous: Fields)
    requires InBounds(p) && Prepared(p, f) && ShiftAgrees(p, f) && p.IPattern? && Canonical(p, f.immValue)
    ensures Matches(EncodeFields(f), p) && Carries(p, f, DecodeFields(EncodeFields(f), previous))
  {
    hide Opcode, Rd, Funct3, Rs1, Rs2, Funct7, Funct12, SignextI, SignextS, SignextB, SignextU, SignextJ;
    hide WordR, WordI, WordS, WordB, WordU, WordJ;
    FieldsOfI(f.opcode, f.rd, f.funct3, f.rs1, f.immValue);
    ImmediateOfI(f.opcode, f.rd, f.funct3, f.rs1, f.immValue);
  }

  lemma EncodedStore(f: Fields)
    requires f.riscv.SType? && f.imm.Simm?
    ensures EncodeFields(f) == WordS(f.opcode, f.funct3, f.rs1, f.rs2, f.immValue)
  {
    hide WordS, WordB;
  }

  lemma DecodedStore(w: bv32, previous: Fields)
    requires Opcode(w) == 0x23
    ensures var g := DecodeFields(w, previous); g.rs1 == Rs1(w) && g.rs2 == Rs2(w) && g.immValue == SignextS(w)
  {
    hide OpOf, Opcode, Rd, Funct3, Rs1, Rs2, Funct7, Funct12, SignextI, SignextS, SignextB, SignextJ;
  }

  /** A store gives everything back except the sign of its offset. */
  lemma RoundTripStore(p: Pattern, f: Fields, previous: Fields)
    requires InBounds(p) && Prepared(p, f) && p.SPattern? && p.opcode == 0x23 && Canonical(p, f.immValue)
    ensures Matches(EncodeFields(f), p)
    ensures Carries(p, f, DecodeFields(EncodeFields(f), previous)) <==> !Sign(f.immValue)
  {
    hide EncodeFields, DecodeFields, SignExtends, Opcode, Rd, Funct3, Rs1, Rs2, SignextS, WordS, Sign;
    EncodedStore(f);
    FieldsOfS(f.opcode, f.funct3, f.rs1, f.rs2, f.immValue);
    DecodedStore(EncodeFields(f), previous);
    OffsetFits(f.immValue);
  }

  lemma RoundTripB(p: Pattern, f: Fields, previous: Fields)
    requires InBounds(p) && Prepared(p, f) && p.SPattern? && p.opcode == 0x63 && Canonical(p, f.immValue)
    ensures Matches(EncodeFields(f), p) && Carries(p, f, DecodeFields(EncodeFields(f), previous))
  {
    hide Opcode, Rd, Funct3, Rs1, Rs2, Funct7, Funct12, SignextI, SignextS, SignextB, SignextU, SignextJ;
    hide WordR, WordI, WordS, WordB, WordU, WordJ;
    FieldsOfB(f.opcode, f.funct3, f.rs1, f.rs2, f.immValue);
    ImmediateOfB(f.opcode, f.funct3, f.rs1, f.rs2, f.immValue);
  }

  lemma EncodedUpper(f: Fields)
    requires f.riscv.UType? && f.imm.Uimm?
    ensures EncodeFields(f) == WordU(f.opcode, f.rd, f.immValue)
  {
  }

  lemma DecodedUpper(w: bv32, previous: Fields)
    requires Opcode(w) == 0x37 || Opcode(w) == 0x17
    ensures DecodeFields(w, previous).rd == Rd(w) && DecodeFields(w, previous).immValue == w >> 12
  {
    hide Opcode, Rd, Funct3, Rs1, Rs2, Funct7, Funct12, OpOf;
  }

  lemma RoundTripU(p: Pattern, f: Fields, previous: Fields)
    requires InBounds(p) && Prepared(p, f) && p.UPattern? && p.opcode != 0x6f && Canonical(p, f.immValue)
    ensures Matches(EncodeFields(f), p) && Carries(p, f, DecodeFields(EncodeFields(f), previous))
  {
    hide EncodeFields, DecodeFields, Canonical, WordU, Opcode, Rd;
    UpperFits(p, f.immValue);
    EncodedUpper(f);
    FieldsOfU(f.opcode, f.rd, f.immValue);
    DecodedUpper(EncodeFields(f), previous);
  }

  lemma UpperFits(p: Pattern, imm: bv32)
    requires p.UPattern? && p.opcode != 0x6f && Canonical(p, imm)
    ensures imm & 0xfffff == imm
  {
  }

  /** select gives JAL the U layout and decode reads the J layout: only these four offsets agree. */
  lemma RoundTripJal(f: Fields, previous: Fields)
    requires Prepared(UPattern(0x6f), f)
    ensures Matches(EncodeFields(f), UPattern(0x6f))
    ensures Carries(UPattern(0x6f), f, DecodeFields(EncodeFields(f), previous)) <==> SurvivesAsJump(f.immValue)
  {
    hide Opcode, Rd, Funct3, Rs1, Rs2, Funct7, Funct12, SignextI, SignextS, SignextB, SignextU, SignextJ;
    hide WordR, WordI, WordS, WordB, WordU, WordJ;
    FieldsOfU(f.opcode, f.rd, f.immValue);
    JumpReadsUpper(f.opcode, f.rd, f.immValue);
  }

  /** jal x1, 8: the offset comes back as 0x8000. */
  lemma JumpOffsetIsLost(f: Fields, previous: Fields)
    requires Prepared(UPattern(0x6f), f) && f.rd == 1 && f.immValue == 8
    ensures EncodeFields(f) == 0x0000_80ef && OpOf(EncodeFields(f)) == JAL
    ensures DecodeFields(EncodeFields(f), previous).immValue == 0x8000
  {
    hide OpOf, Accepts;
    EncodedUpper(f);
    JalRow(0x0000_80ef);
    DecodesExactly(JAL, 0x0000_80ef);
  }

  lemma JalRow(w: bv32)
    ensures Accepts(JAL, w) <==> Opcode(w) == 0x6f
  {
    hide Accepts, Opcode, Funct3, Funct7, Funct12;
    AcceptRow(JAL, w);
  }

  predicate SurvivesAsJump(imm: bv32) { imm == 0 || imm == 0x2_2222 || imm == 0x4_4444 || imm == 0x6_6666 }

  lemma RoundTripWfi(p: Pattern, f: Fields, previous: Fields)
    requires InBounds(p) && Prepared(p, f) && p.WordPattern?
    ensures Accepts(WFI, EncodeFields(f)) && Carries(p, f, DecodeFields(EncodeFields(f), previous))
  {
    FieldsOfI(f.opcode, f.rd, f.funct3, f.rs1, f.funct12);
  }

  /** Which canonical immediates come back for a pattern: the condition on stores and on JAL. */
  predicate ComesBack(p: Pattern, imm: bv32) {
    && (p.SPattern? && p.opcode == 0x23 ==> !Sign(imm))
    && (p == UPattern(0x6f) ==> SurvivesAsJump(imm))
  }

  lemma FieldsRoundTrip(p: Pattern, f: Fields, previous: Fields)
    requires InBounds(p) && !p.NoPattern? && Prepared(p, f) && ShiftAgrees(p, f) && Canonical(p, f.immValue)
    ensures if p.WordPattern? then Accepts(WFI, EncodeFields(f)) else Matches(EncodeFields(f), p)
    ensures Carries(p, f, DecodeFields(EncodeFields(f), previous)) <==> ComesBack(p, f.immValue)
  {
    hide EncodeFields, DecodeFields, Agrees, Carries, SignExtends;
    match p
    case RPattern(opcode, _, _) =>
      if opcode == 0x33 { RoundTripR(p, f, previous); } else { RoundTripShift(p, f, previous); }
    case IPattern(_, _) => RoundTripI(p, f, previous);
    case SPattern(opcode, _) =>
      if opcode == 0x63 { RoundTripB(p, f, previous); } else { RoundTripStore(p, f, previous); }
    case UPattern(opcode) =>
      if opcode == 0x6f { RoundTripJal(f, previous); } else { RoundTripU(p, f, previous); }
    case WordPattern(_) => RoundTripWfi(p, f, previous);
  }

  /**
   select, assign, encode, decode: the op always comes back; the fields its format carries come
   back exactly when a store's offset is not negative and a jump's offset is one of four.
   */
  lemma DecodeAfterEncode(op: Op, f: Fields, previous: Fields)
    requires HasCase(op) && f.op == op && Prepared(IsaPattern(op), f) && Canonical(IsaPattern(op), f.immValue)
    ensures OpOf(EncodeFields(f)) == op
    ensures Carries(IsaPattern(op), f, DecodeFields(EncodeFields(f), previous))
      <==> ComesBack(IsaPattern(op), f.immValue)
  {
    hide OpOf, IsaPattern, GroupOf, EncodeFields, DecodeFields, Agrees, Carries, Canonical, SignExtends, ComesBack;
    PatternInBounds(op);
    FieldsRoundTrip(IsaPattern(op), f, previous);
    DecodesExactly(op, EncodeFields(f));
  }

  method Assemble(op: Op, rd: bv32, rs1: bv32, rs2: bv32, imm: bv32) returns (i: Inst)
    requires HasCase(op) && rd < 32 && rs1 < 32 && rs2 < 32
    ensures fresh(i) && i.op == op && Prepared(IsaPattern(op), i.Contents())
    ensures i.rd == rd && i.rs1 == rs1 && i.rs2 == rs2 && i.immValue == imm
  {
    hide IsaPattern, GroupOf, Agrees;
    i := new Inst();
    i.rd, i.rs1, i.rs2, i.immValue, i.op := rd, rs1, rs2, imm, op;
    var sel := i.Select(op);
    i.Assign(sel);
  }

  lemma DecodedOp(w: bv32, previous: Fields)
    ensures DecodeFields(w, previous).op == OpOf(w)
  {
  }

  /** The calls in their order: select and assign for op, encode on one object, decode on another. */
  method AssembleThenDecode(op: Op, rd: bv32, rs1: bv32, rs2: bv32, imm: bv32)
    returns (w: bv32, i: Inst, d: Inst)
    requires HasCase(op) && rd < 32 && rs1 < 32 && rs2 < 32 && Canonical(IsaPattern(op), imm)
    ensures i.rd == rd && i.rs1 == rs1 && i.rs2 == rs2 && i.immValue == imm
    ensures d.inst == w && d.op == op
    ensures Carries(IsaPattern(op), i.Contents(), d.Contents()) <==> ComesBack(IsaPattern(op), imm)
  {
    hide OpOf, IsaPattern, GroupOf, EncodeFields, DecodeFields, Agrees, Carries, Canonical, ComesBack, HasCase;
    i := Assemble(op, rd, rs1, rs2, imm);
    w := i.Encode();
    ghost var f := i.Contents();
    d := new Inst();
    ghost var previous := d.Contents();
    d.Decode(w);
    DecodedOp(w, previous);
    DecodeAfterEncode(op, f, previous);
  }
}
