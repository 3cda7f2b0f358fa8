/** What an encoding is, by the fields and the numbers of the RISC-V Unprivileged ISA manual
    (20191213): the opcode map and the listings of chapter 24, and for 16-bit encodings section 16.8.
    The vector opcode and its loads and stores are those of the V extension 1.0, and `zext.b` and its
    kin those of Zcb. */
module OpcodeMap {
  import opened Words
  import opened Encoding

  // ---- 32-bit encodings ----

  const LOAD := 0x03
  const LOAD_FP := 0x07
  const MISC_MEM := 0x0f
  const OP_IMM := 0x13
  const AUIPC := 0x17
  const OP_IMM_32 := 0x1b
  const STORE := 0x23
  const STORE_FP := 0x27
  const AMO := 0x2f
  const OP := 0x33
  const LUI := 0x37
  const OP_32 := 0x3b
  const MADD := 0x43
  const MSUB := 0x47
  const NMSUB := 0x4b
  const NMADD := 0x4f
  const OP_FP := 0x53
  const OP_V := 0x57
  const BRANCH := 0x63
  const JALR := 0x67
  const JAL := 0x6f
  const SYSTEM := 0x73

  /** `auipc`, the branches and the jumps. */
  predicate UsesPc(w: u32) {
    Opcode(w) == AUIPC || Opcode(w) == BRANCH || (Opcode(w) == JALR && Funct3(w) == 0) || Opcode(w) == JAL
  }

  predicate Known(op: int) {
    || op == LOAD || op == LOAD_FP || op == MISC_MEM || op == OP_IMM || op == AUIPC || op == OP_IMM_32
    || op == STORE || op == STORE_FP || op == AMO || op == OP || op == LUI || op == OP_32
    || op == MADD || op == MSUB || op == NMSUB || op == NMADD || op == OP_FP || op == OP_V
    || op == BRANCH || op == JALR || op == JAL || op == SYSTEM
  }

  predicate VectorWidth(f3: int) { f3 == 0 || f3 == 5 || f3 == 6 || f3 == 7 }

  /** Floating-point computations by `funct5`, `fmt`, `rs2` and `rm` that are no instruction. */
  predicate ReservedFp(f5: int, fmt: int, rs2: int, rm: int) {
    || (f5 == 0x08 && (rs2 == fmt || rs2 > 3))              // fcvt between equal or unknown formats
    || 0x0c <= f5 <= 0x13 || f5 == 0x19 || f5 == 0x1b
    || (f5 >= 0x1c && rm >= 2) || ((f5 == 0x1d || f5 == 0x1f) && rm == 0)
  }

  /** Encodings that the decoder holds to be undefined. */
  predicate Reserved(w: u32) {
    var op, f3, f7, rs2 := Opcode(w), Funct3(w), Funct7(w), Rs2(w);
    || !Known(op)
    || (op == MISC_MEM && f3 >= 2)
    || ((op == LOAD_FP || op == STORE_FP) && VectorWidth(f3) && f7 / 8 % 2 == 1)       // mew
    || (op == AMO && f7 / 4 == 0x02 && rs2 != 0)                                      // lr
    || ((op == OP || op == OP_32) && f7 == 0x04 && f3 == 4 && rs2 != 0)               // zext.h
    || (op == OP_FP && ReservedFp(f7 / 4, f7 % 4, rs2, f3))
    || (op == JALR && f3 != 0)
  }

  /** A `vsetvl` whose reserved bits are not zero. */
  predicate Unnoticed(w: u32) {
    Opcode(w) == OP_V && Funct3(w) == 7 && Funct7(w) / 0x20 == 2 && Funct7(w) % 0x20 != 0
  }

  /** The instructions of RV64G that do not use their own address, as chapter 24 lists them. */
  predicate Listed(w: u32) {
    var op, f3, f7, rs2 := Opcode(w), Funct3(w), Funct7(w), Rs2(w);
    || op == LUI
    || (op == LOAD && f3 <= 6)                                     // lb lh lw ld lbu lhu lwu
    || (op == STORE && f3 <= 3)                                    // sb sh sw sd
    || (op == OP_IMM && f3 != 1 && f3 != 5)                        // addi slti sltiu xori ori andi
    || (op == OP_IMM && f3 == 1 && f7 / 2 == 0)                    // slli
    || (op == OP_IMM && f3 == 5 && (f7 / 2 == 0 || f7 / 2 == 0x10)) // srli srai
    || (op == OP_IMM_32 && f3 == 0)                                // addiw
    || (op == OP_IMM_32 && f3 == 1 && f7 == 0)                     // slliw
    || (op == OP_IMM_32 && f3 == 5 && (f7 == 0 || f7 == 0x20))     // srliw sraiw
    || (op == OP && (f7 == 0 || f7 == 1))                          // add sll slt sltu xor srl or and, mul .. remu
    || (op == OP && f7 == 0x20 && (f3 == 0 || f3 == 5))            // sub sra
    || (op == OP_32 && f7 == 0 && (f3 == 0 || f3 == 1 || f3 == 5)) // addw sllw srlw
    || (op == OP_32 && f7 == 0x20 && (f3 == 0 || f3 == 5))         // subw sraw
    || (op == OP_32 && f7 == 1 && f3 != 1 && f3 != 2 && f3 != 3)   // mulw divw divuw remw remuw
    || (op == MISC_MEM && f3 <= 1)                                 // fence fence.i
    || (op == SYSTEM && (w == 0x0000_0073 || w == 0x0010_0073))    // ecall ebreak
    || (op == SYSTEM && f3 != 0 && f3 != 4)                        // csrrw csrrs csrrc and their immediate forms
    || (op == AMO && (f3 == 2 || f3 == 3) && ListedAmo(f7 / 4, rs2))
    || ((op == LOAD_FP || op == STORE_FP) && 1 <= f3 <= 4)         // half, word, double and quad
    || op == MADD || op == MSUB || op == NMSUB || op == NMADD
    || (op == OP_FP && ListedFp(f7 / 4, f7 % 4, rs2, f3))
  }

  /** `lr`, `sc` and the nine read-modify-write operations. */
  predicate ListedAmo(f5: int, rs2: int) {
    || (f5 == 0x02 && rs2 == 0) || f5 == 0x03 || f5 == 0x01 || f5 == 0x00 || f5 == 0x04 || f5 == 0x0c || f5 == 0x08
    || f5 == 0x10 || f5 == 0x14 || f5 == 0x18 || f5 == 0x1c
  }

  predicate ListedFp(f5: int, fmt: int, rs2: int, rm: int) {
    || f5 <= 0x03                                                  // fadd fsub fmul fdiv
    || (f5 == 0x0b && rs2 == 0)                                    // fsqrt
    || (f5 == 0x04 && rm <= 2) || (f5 == 0x05 && rm <= 1)          // fsgnj .. fsgnjx, fmin fmax
    || (f5 == 0x08 && rs2 != fmt && rs2 <= 3)                      // fcvt between formats
    || (f5 == 0x14 && rm <= 2)                                     // fle flt feq
    || ((f5 == 0x18 || f5 == 0x1a) && rs2 <= 3)                    // fcvt to and from integers
    || (f5 == 0x1c && rs2 == 0 && rm <= 1)                         // fmv.x fclass
    || (f5 == 0x1e && rs2 == 0 && rm == 0)                         // fmv to a floating-point register
  }

  // ---- 16-bit encodings: quadrant in bits 1..0, funct3 in bits 15..13 ----

  predicate CompressedUsesPc(h: u16) {
    || (h % 4 == 1 && h / 0x2000 >= 5)                                                          // c.j c.beqz c.bnez
    || (h % 4 == 2 && h / 0x2000 == 4 && h / 4 % 0x20 == 0 && h != 0x9002)                      // c.jr c.jalr
  }

  predicate CompressedReserved(h: u16) {
    || (h % 4 == 0 && h / 0x2000 == 0 && h / 0x20 % 0x100 == 0)       // c.addi4spn of nothing, and the zero halfword
    || (h % 4 == 0 && h / 0x2000 == 4)
    || (h % 4 == 1 && h / 0x400 == 0x27 && (h / 0x20 % 4 == 2 || (h / 0x20 % 4 == 3 && h / 4 % 8 >= 5)))
  }

  /** `c.addi` of a zero immediate or to x0, `c.nop` among them. */
  predicate CompressedNop(h: u16) {
    h % 4 == 1 && h / 0x2000 == 0 && (h / 0x80 % 0x20 == 0 || (h / 0x1000 % 2 == 0 && h / 4 % 0x20 == 0))
  }

  // ---- Any encoding ----

  predicate IsReserved(lo: u16, hi: u16) {
    if lo % 4 == 3 then Reserved(lo + 0x1_0000 * hi) else CompressedReserved(lo)
  }

  predicate IsUnnoticed(lo: u16, hi: u16) { lo % 4 == 3 && Unnoticed(lo + 0x1_0000 * hi) }

  predicate IsNop(lo: u16, hi: u16) { lo % 4 != 3 && CompressedNop(lo) }

  predicate IsBranch(lo: u16, hi: u16) { lo % 4 == 3 && Opcode(lo + 0x1_0000 * hi) == BRANCH }

  /** `ret`: `c.jr ra` or `jalr x0, 0(ra)`. */
  predicate IsReturn(lo: u16, hi: u16) { lo == 0x8082 || (lo == 0x8067 && hi == 0) }

  /** The branches with `funct3` 2 and 3. */
  predicate IsBadBranch(lo: u16, hi: u16) {
    IsBranch(lo, hi) && (Funct3(lo + 0x1_0000 * hi) == 2 || Funct3(lo + 0x1_0000 * hi) == 3)
  }

  predicate IsUsingPc(lo: u16, hi: u16) {
    if lo % 4 == 3 then UsesPc(lo + 0x1_0000 * hi) else CompressedUsesPc(lo)
  }
}
