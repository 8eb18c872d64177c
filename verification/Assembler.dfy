/** The build script's instruction encoders and its back-patched jumps. A shift left by k is
    a product with 2^k, a mask of low bits is a remainder, and `x as u32` is `x % 2^32`. With
    register numbers below 32 the or-ed fields never overlap, so or-ing them is adding them. */
module Assembler {
  import opened Arith
  import opened Bytes
  import opened RiscV
  import opened Words

  const ECALL: u32 := 0x0000_0073
  const JAL_SELF: u32 := 0x0000_006f

  // ---------- Encoders ----------

  function EncodeAuipc(rd: Reg, imm20: i32): u32 {
    imm20 % TWO32 * 0x1000 % TWO32 + rd * 0x80 + 0x17
  }

  function EncodeLui(rd: Reg, imm20: i32): u32 {
    imm20 % TWO32 * 0x1000 % TWO32 + rd * 0x80 + 0x37
  }

  function EncodeIType(opcode: int, rd: Reg, rs1: Reg, imm: i32, funct3: int): u32
    requires 0 <= opcode < 0x80 && 0 <= funct3 < 8
  {
    imm % TWO32 % 0x1000 * 0x10_0000 + rs1 * 0x8000 + funct3 * 0x1000 + rd * 0x80 + opcode
  }

  function EncodeAddi(rd: Reg, rs1: Reg, imm: i32): u32 { EncodeIType(0x13, rd, rs1, imm, 0) }
  function EncodeLbu(rd: Reg, rs1: Reg, imm: i32): u32 { EncodeIType(0x03, rd, rs1, imm, 4) }

  function EncodeBranch(funct3: int, rs1: Reg, rs2: Reg, offset: i32): u32
    requires 0 <= funct3 < 8
  {
    var imm := offset % TWO32;
    var bit12 := imm / 0x1000 % 2 * 0x8000_0000;
    var bit11 := imm / 0x800 % 2 * 0x80;
    var bits10to5 := imm / 0x20 % 64 * 0x200_0000;
    var bits4to1 := imm / 2 % 16 * 0x100;
    bit12 + bits10to5 + rs2 * 0x10_0000 + rs1 * 0x8000 + funct3 * 0x1000 + bits4to1 + bit11 + 0x63
  }

  function EncodeBeq(rs1: Reg, rs2: Reg, offset: i32): u32 { EncodeBranch(0, rs1, rs2, offset) }
  function EncodeBne(rs1: Reg, rs2: Reg, offset: i32): u32 { EncodeBranch(1, rs1, rs2, offset) }
  function EncodeBlt(rs1: Reg, rs2: Reg, offset: i32): u32 { EncodeBranch(4, rs1, rs2, offset) }

  function EncodeJal(rd: Reg, offset: i32): u32 {
    var imm := offset % TWO32;
    var bit20 := imm / 0x10_0000 % 2 * 0x8000_0000;
    var bits10to1 := imm / 2 % 1024 * 0x20_0000;
    var bit11 := imm / 0x800 % 2 * 0x10_0000;
    var bits19to12 := imm / 0x1000 % 256 * 0x1000;
    bit20 + bits19to12 + bit11 + bits10to1 + rd * 0x80 + 0x6f
  }

  // ---------- The fields of an encoded word ----------

  lemma ITypeParts(w: u32, x: int, rs1: Reg, funct3: int, rd: Reg, opcode: int)
    requires 0 <= opcode < 0x80 && 0 <= funct3 < 8
    requires w == x * 0x10_0000 + rs1 * 0x8000 + funct3 * 0x1000 + rd * 0x80 + opcode
    ensures Opcode(w) == opcode && Funct3(w) == funct3 && RdOf(w) == rd && Rs1Of(w) == rs1 && ImmI(w) == x
  {
    DivMod(w, 0x80, x * 0x2000 + rs1 * 0x100 + funct3 * 0x20 + rd, opcode);
    DivMod(w / 0x80, 0x20, x * 0x100 + rs1 * 8 + funct3, rd);
    DivMod(w, 0x1000, x * 0x100 + rs1 * 8 + funct3, rd * 0x80 + opcode);
    DivMod(w / 0x1000, 8, x * 0x20 + rs1, funct3);
    DivMod(w, 0x8000, x * 0x20 + rs1, funct3 * 0x1000 + rd * 0x80 + opcode);
    DivMod(w / 0x8000, 0x20, x, rs1);
    DivMod(w, 0x10_0000, x, rs1 * 0x8000 + funct3 * 0x1000 + rd * 0x80 + opcode);
  }

  lemma ITypeFields(opcode: int, rd: Reg, rs1: Reg, imm: i32, funct3: int)
    requires 0 <= opcode < 0x80 && 0 <= funct3 < 8
    ensures var w := EncodeIType(opcode, rd, rs1, imm, funct3);
      Opcode(w) == opcode && Funct3(w) == funct3 && RdOf(w) == rd && Rs1Of(w) == rs1 && ImmI(w) == imm % 0x1000
  {
    ITypeParts(EncodeIType(opcode, rd, rs1, imm, funct3), imm % 0x1000, rs1, funct3, rd, opcode);
  }

  lemma BranchRegisters(w: u32, high: int, rs2: Reg, rs1: Reg, funct3: int, low: int)
    requires 0 <= funct3 < 8 && 0 <= low < 0x20
    requires w == high * 0x200_0000 + rs2 * 0x10_0000 + rs1 * 0x8000 + funct3 * 0x1000 + low * 0x80 + 0x63
    ensures Opcode(w) == 0x63 && Funct3(w) == funct3 && Rs1Of(w) == rs1 && Rs2Of(w) == rs2
    ensures w / 0x80 % 0x20 == low && w / 0x200_0000 == high
  {
    var upper := high * 0x2000 + rs2 * 0x100 + rs1 * 8 + funct3;
    DivMod(w, 0x80, upper * 0x20 + low, 0x63);
    DivMod(w / 0x80, 0x20, upper, low);
    DivMod(w, 0x1000, upper, low * 0x80 + 0x63);
    DivMod(upper, 8, high * 0x400 + rs2 * 0x20 + rs1, funct3);
    DivMod(w, 0x8000, high * 0x400 + rs2 * 0x20 + rs1, funct3 * 0x1000 + low * 0x80 + 0x63);
    DivMod(w / 0x8000, 0x20, high * 0x20 + rs2, rs1);
    DivMod(w, 0x10_0000, high * 0x20 + rs2, rs1 * 0x8000 + funct3 * 0x1000 + low * 0x80 + 0x63);
    DivMod(w / 0x10_0000, 0x20, high, rs2);
    DivMod(w, 0x200_0000, high, rs2 * 0x10_0000 + rs1 * 0x8000 + funct3 * 0x1000 + low * 0x80 + 0x63);
  }

  lemma BranchImmediate(w: u32, b12: int, mid: int, low: int, b11: int)
    requires 0 <= b12 < 2 && 0 <= mid < 64 && 0 <= low < 16 && 0 <= b11 < 2
    requires w / 0x200_0000 == b12 * 0x40 + mid && w / 0x80 % 0x20 == low * 2 + b11
    ensures ImmB(w) == b12 * 0x1000 + b11 * 0x800 + mid * 0x20 + low * 2
  {
    DivMod(w / 0x200_0000, 0x40, b12, mid);
    var q := w / 0x80 / 0x20;
    DivMod(w / 0x80, 2, q * 16 + low, b11);
    DivMod(w / 0x100, 16, q, low);
  }

  lemma Sliced(off: i32, span: int)
    requires span == 0x2000 || span == 0x20_0000
    ensures off % TWO32 % span == off % span
  {
  }

  lemma Digits13(imm: nat, q1: int, q5: int, q11: int, q12: int)
    requires q1 == imm / 2 && q5 == q1 / 16 && q11 == q5 / 64 && q12 == q11 / 2
    ensures q12 % 2 * 0x1000 + q11 % 2 * 0x800 + q5 % 64 * 0x20 + q1 % 16 * 2 == imm % 0x2000 / 2 * 2
  {
    DivMod(imm, 0x2000, q12 / 2, q12 % 2 * 0x1000 + q11 % 2 * 0x800 + q5 % 64 * 0x20 + q1 % 16 * 2 + imm % 2);
  }

  lemma EvenPart13(off: i32)
    ensures var imm := off % TWO32;
      imm / 0x1000 % 2 * 0x1000 + imm / 0x800 % 2 * 0x800 + imm / 0x20 % 64 * 0x20 + imm / 2 % 16 * 2 == off % 0x2000 / 2 * 2
  {
    Sliced(off, 0x2000);
    var imm := off % TWO32;
    Digits13(imm, imm / 2, imm / 0x20, imm / 0x800, imm / 0x1000);
  }

  lemma BranchFields(funct3: int, rs1: Reg, rs2: Reg, off: i32)
    requires 0 <= funct3 < 8
    ensures var w := EncodeBranch(funct3, rs1, rs2, off);
      Opcode(w) == 0x63 && Funct3(w) == funct3 && Rs1Of(w) == rs1 && Rs2Of(w) == rs2 && ImmB(w) == off % 0x2000 / 2 * 2
  {
    var w := EncodeBranch(funct3, rs1, rs2, off);
    var imm := off % TWO32;
    var b12, b11, mid, low := imm / 0x1000 % 2, imm / 0x800 % 2, imm / 0x20 % 64, imm / 2 % 16;
    BranchRegisters(w, b12 * 0x40 + mid, rs2, rs1, funct3, low * 2 + b11);
    BranchImmediate(w, b12, mid, low, b11);
    EvenPart13(off);
  }

  lemma JalParts(w: u32, b20: int, low: int, b11: int, mid: int, rd: Reg)
    requires 0 <= b20 < 2 && 0 <= low < 1024 && 0 <= b11 < 2 && 0 <= mid < 256
    requires w == b20 * 0x8000_0000 + low * 0x20_0000 + b11 * 0x10_0000 + mid * 0x1000 + rd * 0x80 + 0x6f
    ensures Opcode(w) == 0x6f && RdOf(w) == rd && ImmJ(w) == b20 * 0x10_0000 + mid * 0x1000 + b11 * 0x800 + low * 2
  {
    DivMod(w, 0x80, b20 * 0x100_0000 + low * 0x4000 + b11 * 0x2000 + mid * 0x20 + rd, 0x6f);
    DivMod(w / 0x80, 0x20, b20 * 0x8_0000 + low * 0x200 + b11 * 0x100 + mid, rd);
    DivMod(w, 0x1000, b20 * 0x8_0000 + low * 0x200 + b11 * 0x100 + mid, rd * 0x80 + 0x6f);
    DivMod(w / 0x1000, 0x100, b20 * 0x800 + low * 2 + b11, mid);
    DivMod(w, 0x10_0000, b20 * 0x800 + low * 2 + b11, mid * 0x1000 + rd * 0x80 + 0x6f);
    DivMod(w / 0x10_0000, 2, b20 * 0x400 + low, b11);
    DivMod(w, 0x20_0000, b20 * 0x400 + low, b11 * 0x10_0000 + mid * 0x1000 + rd * 0x80 + 0x6f);
    DivMod(w / 0x20_0000, 0x400, b20, low);
    DivMod(w, 0x8000_0000, b20, low * 0x20_0000 + b11 * 0x10_0000 + mid * 0x1000 + rd * 0x80 + 0x6f);
  }

  lemma Digits21(imm: nat, q1: int, q11: int, q12: int, q20: int)
    requires q1 == imm / 2 && q11 == q1 / 1024 && q12 == q11 / 2 && q20 == q12 / 256
    ensures q20 % 2 * 0x10_0000 + q12 % 256 * 0x1000 + q11 % 2 * 0x800 + q1 % 1024 * 2 == imm % 0x20_0000 / 2 * 2
  {
    DivMod(imm, 0x20_0000, q20 / 2, q20 % 2 * 0x10_0000 + q12 % 256 * 0x1000 + q11 % 2 * 0x800 + q1 % 1024 * 2 + imm % 2);
  }

  lemma EvenPart21(off: i32)
    ensures var imm := off % TWO32;
      imm / 0x10_0000 % 2 * 0x10_0000 + imm / 0x1000 % 256 * 0x1000 + imm / 0x800 % 2 * 0x800 + imm / 2 % 1024 * 2
      == off % 0x20_0000 / 2 * 2
  {
    Sliced(off, 0x20_0000);
    var imm := off % TWO32;
    Digits21(imm, imm / 2, imm / 0x800, imm / 0x1000, imm / 0x10_0000);
  }

  lemma JalFields(rd: Reg, off: i32)
    ensures var w := EncodeJal(rd, off); Opcode(w) == 0x6f && RdOf(w) == rd && ImmJ(w) == off % 0x20_0000 / 2 * 2
  {
    var imm := off % TWO32;
    JalParts(EncodeJal(rd, off), imm / 0x10_0000 % 2, imm / 2 % 1024, imm / 0x800 % 2, imm / 0x1000 % 256, rd);
    EvenPart21(off);
  }

  lemma UTypeFields(opcode: int, rd: Reg, imm20: i32, w: u32)
    requires 0 <= opcode < 0x80 && w == imm20 % TWO32 * 0x1000 % TWO32 + rd * 0x80 + opcode
    ensures Opcode(w) == opcode && RdOf(w) == rd && ImmU(w) == imm20 % 0x10_0000 * 0x1000
  {
    var x := imm20 % 0x10_0000;
    assert w == x * 0x1000 + rd * 0x80 + opcode;
    assert w / 0x80 == x * 0x20 + rd;
    assert w / 0x1000 == x;
  }

  // ---------- Decoding inverts encoding ----------

  predicate FitsI(imm: int) { -2048 <= imm <= 2047 }
  predicate FitsB(off: int) { off % 2 == 0 && -4096 <= off <= 4094 }
  predicate FitsJ(off: int) { off % 2 == 0 && -0x10_0000 <= off <= 0xf_fffe }
  predicate FitsU(imm20: int) { -0x8_0000 <= imm20 <= 0x7_ffff }

  /** Out-of-range immediates are cut to the width of their field and read back signed. */
  lemma DecodeIType(rd: Reg, rs1: Reg, imm: i32)
    ensures Decode(EncodeAddi(rd, rs1, imm)) == Addi(rd, rs1, Signed(imm % 0x1000, 0x1000))
    ensures Decode(EncodeLbu(rd, rs1, imm)) == Lbu(rd, rs1, Signed(imm % 0x1000, 0x1000))
  {
    ITypeFields(0x13, rd, rs1, imm, 0);
    ITypeFields(0x03, rd, rs1, imm, 4);
  }

  lemma DecodeBranch(rs1: Reg, rs2: Reg, off: i32)
    ensures Decode(EncodeBeq(rs1, rs2, off)) == Beq(rs1, rs2, Signed(off % 0x2000 / 2 * 2, 0x2000))
    ensures Decode(EncodeBne(rs1, rs2, off)) == Bne(rs1, rs2, Signed(off % 0x2000 / 2 * 2, 0x2000))
    ensures Decode(EncodeBlt(rs1, rs2, off)) == Blt(rs1, rs2, Signed(off % 0x2000 / 2 * 2, 0x2000))
  {
    BranchFields(0, rs1, rs2, off);
    BranchFields(1, rs1, rs2, off);
    BranchFields(4, rs1, rs2, off);
  }

  lemma DecodeJal(rd: Reg, off: i32)
    ensures Decode(EncodeJal(rd, off)) == Jal(rd, Signed(off % 0x20_0000 / 2 * 2, 0x20_0000))
  {
    JalFields(rd, off);
  }

  lemma DecodeUType(rd: Reg, imm20: i32)
    ensures Decode(EncodeLui(rd, imm20)) == Lui(rd, Signed(imm20 % 0x10_0000 * 0x1000, TWO32))
    ensures Decode(EncodeAuipc(rd, imm20)) == Auipc(rd, Signed(imm20 % 0x10_0000 * 0x1000, TWO32))
  {
    UTypeFields(0x37, rd, imm20, EncodeLui(rd, imm20));
    UTypeFields(0x17, rd, imm20, EncodeAuipc(rd, imm20));
  }

  lemma SurvivesI(imm: i32)
    ensures Signed(imm % 0x1000, 0x1000) == imm <==> FitsI(imm)
  {
  }

  lemma SurvivesB(off: i32)
    ensures Signed(off % 0x2000 / 2 * 2, 0x2000) == off <==> FitsB(off)
    ensures -0x1000 <= Signed(off % 0x2000 / 2 * 2, 0x2000) < 0x1000
  {
  }

  lemma SurvivesJ(off: i32)
    ensures Signed(off % 0x20_0000 / 2 * 2, 0x20_0000) == off <==> FitsJ(off)
    ensures -0x10_0000 <= Signed(off % 0x20_0000 / 2 * 2, 0x20_0000) < 0x10_0000
  {
  }

  lemma SurvivesU(imm20: i32)
    ensures Signed(imm20 % 0x10_0000 * 0x1000, TWO32) == imm20 * 0x1000 <==> FitsU(imm20)
  {
  }

  /** An encoded instruction decodes to the very operands it was given exactly when the
      immediate is in range for its format; otherwise the word means something else. */
  lemma EncodeRoundTrip(rd: Reg, rs1: Reg, rs2: Reg, imm: i32)
    ensures Decode(EncodeAddi(rd, rs1, imm)) == Addi(rd, rs1, imm) <==> FitsI(imm)
    ensures Decode(EncodeLbu(rd, rs1, imm)) == Lbu(rd, rs1, imm) <==> FitsI(imm)
    ensures Decode(EncodeBeq(rs1, rs2, imm)) == Beq(rs1, rs2, imm) <==> FitsB(imm)
    ensures Decode(EncodeBne(rs1, rs2, imm)) == Bne(rs1, rs2, imm) <==> FitsB(imm)
    ensures Decode(EncodeBlt(rs1, rs2, imm)) == Blt(rs1, rs2, imm) <==> FitsB(imm)
    ensures Decode(EncodeJal(rd, imm)) == Jal(rd, imm) <==> FitsJ(imm)
    ensures Decode(EncodeLui(rd, imm)) == Lui(rd, imm * 0x1000) <==> FitsU(imm)
    ensures Decode(EncodeAuipc(rd, imm)) == Auipc(rd, imm * 0x1000) <==> FitsU(imm)
  {
    DecodeIType(rd, rs1, imm);
    DecodeBranch(rs1, rs2, imm);
    DecodeJal(rd, imm);
    DecodeUType(rd, imm);
    SurvivesI(imm);
    SurvivesB(imm);
    SurvivesJ(imm);
    SurvivesU(imm);
  }

  lemma AddiDecodes(rd: Reg, rs1: Reg, imm: i32)
    requires FitsI(imm)
    ensures Decode(EncodeAddi(rd, rs1, imm)) == Addi(rd, rs1, imm)
  {
    EncodeRoundTrip(rd, rs1, 0, imm);
  }

  lemma LbuDecodes(rd: Reg, rs1: Reg, imm: i32)
    requires FitsI(imm)
    ensures Decode(EncodeLbu(rd, rs1, imm)) == Lbu(rd, rs1, imm)
  {
    EncodeRoundTrip(rd, rs1, 0, imm);
  }

  lemma BranchDecodes(rs1: Reg, rs2: Reg, off: i32)
    requires FitsB(off)
    ensures Decode(EncodeBeq(rs1, rs2, off)) == Beq(rs1, rs2, off)
    ensures Decode(EncodeBne(rs1, rs2, off)) == Bne(rs1, rs2, off)
    ensures Decode(EncodeBlt(rs1, rs2, off)) == Blt(rs1, rs2, off)
  {
    EncodeRoundTrip(0, rs1, rs2, off);
  }

  lemma JalDecodes(rd: Reg, off: i32)
    requires FitsJ(off)
    ensures Decode(EncodeJal(rd, off)) == Jal(rd, off)
  {
    EncodeRoundTrip(rd, 0, 0, off);
  }

  lemma UpperDecodes(rd: Reg, imm20: i32)
    requires FitsU(imm20)
    ensures Decode(EncodeLui(rd, imm20)) == Lui(rd, imm20 * 0x1000)
    ensures Decode(EncodeAuipc(rd, imm20)) == Auipc(rd, imm20 * 0x1000)
  {
    EncodeRoundTrip(rd, 0, 0, imm20);
  }

  /** One word of each kind, as the RISC-V manual's formats lay it out: addi a7, zero, 16; lbu a0,
      0(s0); beqz a0, 20; bne t0, t1, 36; bltz a0, 8; j -20; auipc s0, 0; lui a1, 0x21000. */
  lemma KnownWords()
    ensures EncodeAddi(17, 0, 16) == 0x0100_0893 && EncodeLbu(10, 8, 0) == 0x0004_4503
    ensures EncodeBeq(10, 0, 20) == 0x0005_0a63 && EncodeBne(5, 6, 36) == 0x0262_9263 && EncodeBlt(10, 0, 8) == 0x0005_4463
    ensures EncodeJal(0, -20) == 0xfedf_f06f && EncodeAuipc(8, 0) == 0x0000_0417 && EncodeLui(11, 0x2_1000) == 0x2100_05b7
  {
  }

  lemma EcallDecodes()
    ensures Decode(ECALL) == Ecall
  {
  }

  lemma SelfJump()
    ensures JAL_SELF == EncodeJal(0, 0)
  {
  }

  // ---------- Whole programs ----------

  /** The immediate fits its field. */
  predicate Encodable(i: Instr) {
    match i
    case Lui(_, imm) => imm % 0x1000 == 0 && FitsU(imm / 0x1000)
    case Auipc(_, imm) => imm % 0x1000 == 0 && FitsU(imm / 0x1000)
    case Addi(_, _, imm) => FitsI(imm)
    case Lbu(_, _, imm) => FitsI(imm)
    case Beq(_, _, off) => FitsB(off)
    case Bne(_, _, off) => FitsB(off)
    case Blt(_, _, off) => FitsB(off)
    case Jal(_, off) => FitsJ(off)
    case Ecall => true
    case Illegal => false
  }

  function Encode(i: Instr): u32
    requires Encodable(i)
  {
    match i
    case Lui(rd, imm) => EncodeLui(rd, imm / 0x1000)
    case Auipc(rd, imm) => EncodeAuipc(rd, imm / 0x1000)
    case Addi(rd, rs1, imm) => EncodeAddi(rd, rs1, imm)
    case Lbu(rd, rs1, imm) => EncodeLbu(rd, rs1, imm)
    case Beq(rs1, rs2, off) => EncodeBeq(rs1, rs2, off)
    case Bne(rs1, rs2, off) => EncodeBne(rs1, rs2, off)
    case Blt(rs1, rs2, off) => EncodeBlt(rs1, rs2, off)
    case Jal(rd, off) => EncodeJal(rd, off)
    case Ecall => ECALL
  }

  lemma EncodeDecodes(i: Instr)
    requires Encodable(i)
    ensures Decode(Encode(i)) == i
  {
    hide Decode, EncodeLui, EncodeAuipc, EncodeAddi, EncodeLbu, EncodeBeq, EncodeBne, EncodeBlt, EncodeJal;
    match i
    case Lui(rd, imm) => UpperDecodes(rd, imm / 0x1000);
    case Auipc(rd, imm) => UpperDecodes(rd, imm / 0x1000);
    case Addi(rd, rs1, imm) => AddiDecodes(rd, rs1, imm);
    case Lbu(rd, rs1, imm) => LbuDecodes(rd, rs1, imm);
    case Beq(rs1, rs2, off) => BranchDecodes(rs1, rs2, off);
    case Bne(rs1, rs2, off) => BranchDecodes(rs1, rs2, off);
    case Blt(rs1, rs2, off) => BranchDecodes(rs1, rs2, off);
    case Jal(rd, off) => JalDecodes(rd, off);
    case Ecall => EcallDecodes();
  }

  /** Every instruction of the program can be encoded. */
  predicate Assembles(code: seq<Instr>) {
    forall k :: 0 <= k < |code| ==> Encodable(code[k])
  }

  function Assembled(code: seq<Instr>): (ws: seq<u32>)
    requires Assembles(code)
    ensures |ws| == |code| && forall k :: 0 <= k < |ws| ==> ws[k] == Encode(code[k])
  {
    seq(|code|, k requires 0 <= k < |code| => Encode(code[k]))
  }

  lemma AssembledDecodes(code: seq<Instr>)
    requires Assembles(code)
    ensures DecodesTo(Assembled(code), code)
  {
    hide Encode, Decode, Encodable;
    forall k | 0 <= k < |code|
      ensures Decode(Assembled(code)[k]) == code[k]
    {
      EncodeDecodes(code[k]);
    }
  }

  // ---------- Constants built from lui and addi ----------

  datatype HiLo = HiLo(hi: i32, lo: i32)

  function SplitHiLo(value: u32): HiLo {
    var hi := (value + 0x800) / 0x1000;
    HiLo(hi, value - hi * 0x1000)
  }

  /** What `lui rd, hi; addi rd, rd, lo` leaves in rd, by the decoded meaning of both words. */
  function LuiAddi(s: HiLo): u64 {
    Wrap(Signed(s.hi % 0x10_0000 * 0x1000, TWO32) + Signed(s.lo % 0x1000, 0x1000))
  }

  lemma SplitParts(value: u32)
    ensures var s := SplitHiLo(value);
      && FitsI(s.lo) && value == s.hi * 0x1000 + s.lo && 0 <= s.hi <= 0x10_0000
      && (s.hi < 0x8_0000 <==> value < 0x7fff_f800)
  {
    var v := value + 0x800;
    assert v == v / 0x1000 * 0x1000 + v % 0x1000;
  }

  lemma UpperPart(hi: int)
    requires 0 <= hi <= 0x10_0000
    ensures Signed(hi % 0x10_0000 * 0x1000, TWO32) == if hi < 0x8_0000 then hi * 0x1000 else hi * 0x1000 - TWO32
  {
    if hi < 0x10_0000 {
      DivMod(hi, 0x10_0000, 0, hi);
    } else {
      DivMod(hi, 0x10_0000, 1, 0);
    }
  }

  lemma WrapEither(value: u32)
    ensures Wrap(value) == value && value % TWO32 == value
    ensures Wrap(value - TWO32) == value - TWO32 + TWO64 && Wrap(value - TWO32) % TWO32 == value
  {
    DivMod(value, TWO64, 0, value);
    DivMod(value, TWO32, 0, value);
    DivMod(value - TWO32, TWO64, -1, value - TWO32 + TWO64);
    DivMod(value - TWO32 + TWO64, TWO32, 0xffff_ffff, value);
  }

  /** The pair rebuilds the value modulo 2^32 with a legal `addi` immediate, and gives exactly
      that address on RV64 if and only if the value is below 0x7ffff800. */
  lemma SplitRebuilds(value: u32)
    ensures FitsI(SplitHiLo(value).lo)
    ensures LuiAddi(SplitHiLo(value)) % TWO32 == value
    ensures LuiAddi(SplitHiLo(value)) == value <==> value < 0x7fff_f800
  {
    hide SplitHiLo, Wrap, Signed, FitsI;
    var s := SplitHiLo(value);
    SplitParts(value);
    SurvivesI(s.lo);
    UpperPart(s.hi);
    WrapEither(value);
  }

  lemma WrapTwice(x: int, y: int)
    ensures Wrap(Wrap(x) + y) == Wrap(x + y)
  {
    DivMod(x + y, TWO64, x / TWO64 + (Wrap(x) + y) / TWO64, (Wrap(x) + y) % TWO64);
  }

  /** What the two words of a constant do when they are executed: the register holds it modulo 2^32,
      and exactly it if and only if it is below 0x7ffff800. */
  lemma SplitRuns(kernel: Kernel, s: State, rd: Reg, value: u32)
    requires rd != 0
    ensures var parts := SplitHiLo(value);
      var t := Execute(kernel, Execute(kernel, s, Decode(EncodeLui(rd, parts.hi))), Decode(EncodeAddi(rd, rd, parts.lo)));
      && Read(t.regs, rd) % TWO32 == value && (Read(t.regs, rd) == value <==> value < 0x7fff_f800)
      && t.mem == s.mem && t.trace == s.trace && forall r: Reg :: r != rd ==> Read(t.regs, r) == Read(s.regs, r)
  {
    hide Decode, EncodeLui, EncodeAddi, SplitHiLo, Wrap, Signed;
    var parts := SplitHiLo(value);
    DecodeUType(rd, parts.hi);
    DecodeIType(rd, rd, parts.lo);
    WrapTwice(Signed(parts.hi % 0x10_0000 * 0x1000, TWO32), Signed(parts.lo % 0x1000, 0x1000));
    SplitRebuilds(value);
  }

  // ---------- Back-patched jumps ----------

  function PatchOffset(idx: int, target: int): int {
    (target - idx) * 4
  }

  lemma Reaches(base: int, idx: int, target: int, got: int)
    requires 0 <= idx < 0x1000_0000 && 0 <= target < 0x1000_0000 && 0 <= base < TWO64 - 0x4000_0000
    requires -0x10_0000 <= got < 0x10_0000
    ensures Wrap(base + 4 * idx + got) == base + 4 * target <==> got == PatchOffset(idx, target)
  {
  }

  lemma InReach(idx: int, target: int)
    requires 0 <= idx < 0x1000_0000 && 0 <= target < 0x1000_0000
    ensures FitsB(PatchOffset(idx, target)) <==> -1024 <= target - idx <= 1023
    ensures FitsJ(PatchOffset(idx, target)) <==> -0x4_0000 <= target - idx <= 0x3_ffff
  {
    var d := target - idx;
    DivMod(4 * d, 2, 2 * d, 0);
    assert PatchOffset(idx, target) == 4 * d;
  }

  predicate LandsExactly(base: int, idx: int, target: int, off: int, lo: int, hi: int) {
    Wrap(base + 4 * idx + off) == base + 4 * target <==> lo <= target - idx <= hi
  }

  /** A jump patched at slot `idx` for slot `target` goes from `base + 4*idx` to
      `base + 4*target` exactly when the distance is within the reach of its format. */
  lemma PatchedJumpLands(base: int, idx: int, target: int, rs1: Reg, rs2: Reg)
    requires 0 <= idx < 0x1000_0000 && 0 <= target < 0x1000_0000 && 0 <= base < TWO64 - 0x4000_0000
    ensures var i := Decode(EncodeBlt(rs1, rs2, PatchOffset(idx, target)));
      i.Blt? && i.rs1 == rs1 && i.rs2 == rs2 && LandsExactly(base, idx, target, i.off, -1024, 1023)
    ensures var i := Decode(EncodeBeq(rs1, rs2, PatchOffset(idx, target)));
      i.Beq? && i.rs1 == rs1 && i.rs2 == rs2 && LandsExactly(base, idx, target, i.off, -1024, 1023)
    ensures var i := Decode(EncodeBne(rs1, rs2, PatchOffset(idx, target)));
      i.Bne? && i.rs1 == rs1 && i.rs2 == rs2 && LandsExactly(base, idx, target, i.off, -1024, 1023)
    ensures var i := Decode(EncodeJal(0, PatchOffset(idx, target)));
      i.Jal? && i.rd == 0 && LandsExactly(base, idx, target, i.off, -0x4_0000, 0x3_ffff)
  {
    hide Decode, EncodeBlt, EncodeBeq, EncodeBne, EncodeJal, Wrap, Signed, FitsB, FitsJ;
    InReach(idx, target);
    var off := PatchOffset(idx, target);
    DecodeBranch(rs1, rs2, off);
    DecodeJal(0, off);
    SurvivesB(off);
    SurvivesJ(off);
    Reaches(base, idx, target, Signed(off % 0x2000 / 2 * 2, 0x2000));
    Reaches(base, idx, target, Signed(off % 0x20_0000 / 2 * 2, 0x20_0000));
  }

  // ---------- Emitting and patching ----------

  /** `ins` is the start of the program, except for the words still to be patched. */
  ghost predicate Drafted(ins: seq<u32>, code: seq<Instr>, holes: set<int>) {
    && |ins| <= |code| && Assembles(code)
    && forall k :: 0 <= k < |ins| && k !in holes ==> ins[k] == Encode(code[k])
  }

  lemma NothingDrafted(code: seq<Instr>, holes: set<int>)
    requires Assembles(code)
    ensures Drafted([], code, holes) && LeWords([]) == []
  {
  }

  method Emit(ins: seq<u32>, op: u32, ghost code: seq<Instr>, ghost holes: set<int>) returns (ins': seq<u32>)
    requires Drafted(ins, code, holes) && |ins| < |code| && op == Encode(code[|ins|])
    ensures |ins'| == |ins| + 1 && Drafted(ins', code, holes)
  {
    hide Encode, Encodable;
    ins' := ins + [op];
  }

  /** A zero word, to be patched once its target is known. */
  method EmitHole(ins: seq<u32>, ghost code: seq<Instr>, ghost holes: set<int>) returns (ins': seq<u32>)
    requires Drafted(ins, code, holes) && |ins| < |code| && |ins| in holes
    ensures |ins'| == |ins| + 1 && Drafted(ins', code, holes)
  {
    hide Encode, Encodable;
    ins' := ins + [0];
  }

  method Patch(ins: seq<u32>, idx: nat, op: u32, ghost code: seq<Instr>, ghost holes: set<int>)
    returns (ins': seq<u32>, ghost holes': set<int>)
    requires Drafted(ins, code, holes) && idx < |ins| && op == Encode(code[idx])
    ensures |ins'| == |ins| && holes' == holes - {idx} && Drafted(ins', code, holes')
  {
    hide Encode, Encodable;
    ins', holes' := ins[idx := op], holes - {idx};
  }

  lemma Finished(ins: seq<u32>, code: seq<Instr>)
    requires Drafted(ins, code, {}) && |ins| == |code|
    ensures ins == Assembled(code)
  {
    hide Encode, Encodable;
  }

  /** The words in memory order, then the data. */
  method Text(ins: seq<u32>, data: seq<byte>) returns (text: seq<byte>)
    ensures text == LeWords(ins) + data
  {
    hide Le;
    text := [];
    for i := 0 to |ins|
      invariant text == LeWords(ins[..i])
    {
      LeWordsAppend(ins[..i], ins[i]);
      assert ins[..i + 1] == ins[..i] + [ins[i]];
      text := text + Le(ins[i], 4);
    }
    assert ins[..|ins|] == ins;
    text := text + data;
  }
}
