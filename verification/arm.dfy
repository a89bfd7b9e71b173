/** ARM (A32) and Thumb instruction-word builders and the Thumb width rule.
    Each builder packs its operand fields into a fixed opcode pattern; the
    contracts read the fields back out of the word. */
module Arm {
  import opened Common

  /** `ArmRegister`: R0 = 0 … R15 = 15. */
  type ArmRegister = r: bv32 | r < 16

  const ARM_SP: ArmRegister := 13
  const ARM_LR: ArmRegister := 14
  const ARM_PC: ArmRegister := 15

  const STMIA_SP_R0: bv32 := 0xE8AD0001
  const BX_R0: bv32 := 0xE12FFF10

  /** Bits 31-28: the condition field (0xE = always). */
  function Cond(w: bv32): bv32 { w >> 28 }
  /** Bits 19-16: the first operand register. */
  function Rn(w: bv32): bv32 { (w >> 16) & 0xF }
  /** Bits 15-12: the destination register. */
  function Rd(w: bv32): bv32 { (w >> 12) & 0xF }
  /** Bits 3-0: the second operand register. */
  function Rm(w: bv32): bv32 { w & 0xF }

  /** `mrs rd, cpsr` */
  function MrsRmCpsr(rd: ArmRegister): (w: bv32)
    ensures Cond(w) == 0xE && Rd(w) == rd
    ensures w & 0xFFFF0FFF == 0xE10F0000
  {
    0xE10F0000 | (rd << 12)
  }

  /** `msr cpsr_f, rm` */
  function MsrCpsrFRm(rm: ArmRegister): (w: bv32)
    ensures Cond(w) == 0xE && Rm(w) == rm
    ensures w & 0xFFFFFFF0 == 0xE128F000
  {
    0xE128F000 | rm
  }

  /** Bit 23: the "add offset" (U) bit of a load/store. */
  predicate UpBit(w: bv32) { w & 0x0080_0000 != 0 }

  /** An `i32` is carried as its two's-complement bit pattern. */
  predicate NonNegativeI32(imm: bv32) { imm < 0x8000_0000 }

  /** `imm.abs() as u32`. For `i32::MIN` the negation overflows; this is the
      wrapping result a release build produces (the pattern itself). */
  function AbsI32(imm: bv32): bv32
  {
    if NonNegativeI32(imm) then imm else -imm
  }

  /** The magnitude fits the 12-bit offset field of a load/store. */
  predicate FitsOffset12(imm: bv32)
  {
    AbsI32(imm) < 0x1000
  }

  /** The two load/store base patterns: `ldr` (L bit set) and `str`. */
  predicate IsLoadStoreOp(op: bv32) { op == 0xE510_0000 || op == 0xE500_0000 }

  /** The U bit as the builders compute it. */
  function UBit(up: bool): bv32 { if up then 1 << 23 else 0 }

  /** What reads back out of a load/store word: condition "always", the base
      pattern, both registers, the U bit and the 12-bit offset magnitude. */
  predicate LoadStoreFields(w: bv32, op: bv32, up: bool, rn: ArmRegister, rd: ArmRegister, m: bv32)
  {
    && Cond(w) == 0xE
    && w & 0xFF70_0000 == op
    && Rn(w) == rn && Rd(w) == rd
    && (UpBit(w) <==> up)
    && w & 0xFFF == m
  }

  /** Packs a load/store with an immediate: `op | U << 23 | rn << 16 | rd << 12 | m`.
      The magnitude is not masked, so the fields read back only below 0x1000. */
  function LoadStoreWord(op: bv32, up: bool, rn: ArmRegister, rd: ArmRegister, m: bv32): (w: bv32)
    requires IsLoadStoreOp(op)
    ensures m < 0x1000 ==> LoadStoreFields(w, op, up, rn, rd, m)
  {
    var w := op | UBit(up) | (rn << 16) | (rd << 12) | m;
    if m < 0x1000 then
      PackedCond(op, up, rn, rd, m, w);
      PackedOp(op, up, rn, rd, m, w);
      PackedRn(op, up, rn, rd, m, w);
      PackedRd(op, up, rn, rd, m, w);
      PackedUp(op, up, rn, rd, m, w);
      PackedOffset(op, up, rn, rd, m, w);
      w
    else
      w
  }

  ghost predicate Packed(op: bv32, up: bool, rn: ArmRegister, rd: ArmRegister, m: bv32, w: bv32)
  {
    IsLoadStoreOp(op) && m < 0x1000 && w == op | UBit(up) | (rn << 16) | (rd << 12) | m
  }

  // One field per lemma: the solver handles each alone quickly, not together.
  lemma PackedCond(op: bv32, up: bool, rn: ArmRegister, rd: ArmRegister, m: bv32, w: bv32)
    requires Packed(op, up, rn, rd, m, w)
    ensures Cond(w) == 0xE
  {
  }

  lemma PackedOp(op: bv32, up: bool, rn: ArmRegister, rd: ArmRegister, m: bv32, w: bv32)
    requires Packed(op, up, rn, rd, m, w)
    ensures w & 0xFF70_0000 == op
  {
  }

  lemma PackedRn(op: bv32, up: bool, rn: ArmRegister, rd: ArmRegister, m: bv32, w: bv32)
    requires Packed(op, up, rn, rd, m, w)
    ensures Rn(w) == rn
  {
  }

  lemma PackedRd(op: bv32, up: bool, rn: ArmRegister, rd: ArmRegister, m: bv32, w: bv32)
    requires Packed(op, up, rn, rd, m, w)
    ensures Rd(w) == rd
  {
  }

  lemma PackedUp(op: bv32, up: bool, rn: ArmRegister, rd: ArmRegister, m: bv32, w: bv32)
    requires Packed(op, up, rn, rd, m, w)
    ensures UpBit(w) <==> up
  {
  }

  lemma PackedOffset(op: bv32, up: bool, rn: ArmRegister, rd: ArmRegister, m: bv32, w: bv32)
    requires Packed(op, up, rn, rd, m, w)
    ensures w & 0xFFF == m
  {
  }

  /** `ldr rd, [rn, #imm]`: U set exactly when `imm >= 0`, offset `|imm|`. */
  function LdrRdRnImm(rd: ArmRegister, rn: ArmRegister, imm: bv32): (w: bv32)
    ensures FitsOffset12(imm) ==>
      LoadStoreFields(w, 0xE510_0000, NonNegativeI32(imm), rn, rd, AbsI32(imm))
  {
    LoadStoreWord(0xE510_0000, NonNegativeI32(imm), rn, rd, AbsI32(imm))
  }

  /** `str rd, [rn, #imm]`, with the same unmasked immediate. */
  function StrRdRnImm(rd: ArmRegister, rn: ArmRegister, imm: bv32): (w: bv32)
    ensures FitsOffset12(imm) ==>
      LoadStoreFields(w, 0xE500_0000, NonNegativeI32(imm), rn, rd, AbsI32(imm))
  {
    LoadStoreWord(0xE500_0000, NonNegativeI32(imm), rn, rd, AbsI32(imm))
  }

  /** `sub rd, rn, #imm8` */
  function SubRdRnImm(rd: ArmRegister, rn: ArmRegister, imm: bv8): (w: bv32)
    ensures Cond(w) == 0xE && Rn(w) == rn && Rd(w) == rd
    ensures w & 0xFF == imm as bv32
    ensures w & 0xFFF0_0F00 == 0xE240_0000
  {
    0xE2400000 | (rn << 16) | (rd << 12) | ((imm as bv32) & 0xFF)
  }

  /** `blx rm` */
  function BlxRm(rm: ArmRegister): (w: bv32)
    ensures Cond(w) == 0xE && Rm(w) == rm
    ensures w & 0xFFFFFFF0 == 0xE12FFF30
  {
    0xE12FFF30 | rm
  }

  /** `mov rd, rm` */
  function MovRdRm(rd: ArmRegister, rm: ArmRegister): (w: bv32)
    ensures Cond(w) == 0xE && Rd(w) == rd && Rm(w) == rm
    ensures w & 0xFFFF0FF0 == 0xE1A00000
    ensures w != 0
  {
    0xE1A00000 | (rd << 12) | rm
  }

  /** `ldmia sp!, {regs}` */
  function LdmiaSpRegs(regs: bv16): (w: bv32)
    ensures Cond(w) == 0xE && Rn(w) == ARM_SP
    ensures w & 0xFFFF == regs as bv32
    ensures w >> 16 == 0xE8BD
  {
    0xE8B00000 | (ARM_SP << 16) | (regs as bv32)
  }

  /** `stmdb sp!, {regs}` */
  function StmdbSpRegs(regs: bv16): (w: bv32)
    ensures Cond(w) == 0xE && Rn(w) == ARM_SP
    ensures w & 0xFFFF == regs as bv32
    ensures w >> 16 == 0xE92D
  {
    0xE9200000 | (ARM_SP << 16) | (regs as bv32)
  }

  /** Reads the signed offset back out of a load/store word: the U bit chooses
      between adding and subtracting the 12-bit magnitude. */
  function LoadStoreOffset(w: bv32): bv32
  {
    if UpBit(w) then w & 0xFFF else -(w & 0xFFF)
  }

  lemma ArmConstants()
    ensures ARM_SP == 13 && ARM_LR == 14 && ARM_PC == 15
    ensures Cond(STMIA_SP_R0) == 0xE && Rn(STMIA_SP_R0) == ARM_SP && STMIA_SP_R0 & 0xFFFF == 1
    ensures Cond(BX_R0) == 0xE && Rm(BX_R0) == 0
  {
  }

  // ---------------------------------------------------------------------
  // Thumb

  const POP_R0: bv16 := 0xBC01
  const NOP: bv16 := 0x46C0

  /** `b imm8` as the source builds it: `0xDE00 | (imm as u16 & 0xff)`, with
      the `i8` carried as its bit pattern. */
  function ThumbB(imm: bv8): (h: bv16)
    ensures h >> 8 == 0xDE
    ensures h & 0xFF == imm as bv16
  {
    0xDE00 | ((imm as bv16) & 0xFF)
  }

  /** `blx rm` (register unmasked: it reads back when below 16). */
  function ThumbBlx(rm: bv8): (h: bv16)
    ensures rm < 16 ==> h & 0xFF87 == 0x4780 && (h >> 3) & 0xF == rm as bv16
  {
    0x4780 | ((rm as bv16) << 3)
  }

  /** `bx rm` */
  function ThumbBx(rm: bv8): (h: bv16)
    ensures rm < 16 ==> h & 0xFF87 == 0x4700 && (h >> 3) & 0xF == rm as bv16
  {
    0x4700 | ((rm as bv16) << 3)
  }

  /** The "high register" operand layout shared by `add`/`mov` (format 5):
      rd bit 3 at bit 7, rm bit 3 at bit 6, rm low bits at 5-3, rd low bits at 2-0. */
  function HiRegOperands(rd: bv8, rm: bv8): bv16
  {
    ((((rd & 0x8) as bv16) >> 3) << 7) |
    ((((rm & 0x8) as bv16) >> 3) << 6) |
    (((rm & 0x7) as bv16) << 3) |
    ((rd & 0x7) as bv16)
  }

  function HiRd(h: bv16): bv16 { (((h >> 7) & 1) << 3) | (h & 0x7) }
  function HiRm(h: bv16): bv16 { (h >> 3) & 0xF }

  /** `add rd, rm` */
  function ThumbAddRdRm(rd: bv8, rm: bv8): (h: bv16)
    ensures h & 0xFF00 == 0x4400
    ensures HiRd(h) == (rd & 0xF) as bv16 && HiRm(h) == (rm & 0xF) as bv16
  {
    0x4400 | HiRegOperands(rd, rm)
  }

  /** `mov rd, rm` */
  function ThumbMovRdRm(rd: bv8, rm: bv8): (h: bv16)
    ensures h & 0xFF00 == 0x4600
    ensures HiRd(h) == (rd & 0xF) as bv16 && HiRm(h) == (rm & 0xF) as bv16
  {
    0x4600 | HiRegOperands(rd, rm)
  }

  /** `push {regs}`: bit 8 (R) set exactly when LR (regs bit 14) is in the list;
      registers 8-13 of the list are dropped. */
  function ThumbPushRegs(regs: bv16): (h: bv16)
    ensures h & 0xFE00 == 0xB400
    ensures (h & 0x100 != 0) <==> (regs & 0x4000 != 0)
    ensures h & 0xFF == regs & 0xFF
  {
    var lr := (regs & (1 << 14)) >> 14 << 8;
    0xB400 | lr | (regs & 0xFF)
  }

  /** `pop {regs}`: bit 8 (R) set exactly when PC (regs bit 15) is in the list. */
  function ThumbPopRegs(regs: bv16): (h: bv16)
    ensures h & 0xFE00 == 0xBC00
    ensures (h & 0x100 != 0) <==> (regs & 0x8000 != 0)
    ensures h & 0xFF == regs & 0xFF
  {
    var pc := (regs & (1 << 15)) >> 15 << 8;
    0xBC00 | pc | (regs & 0xFF)
  }

  /** `ldr rd, [rn, #imm5 * 4]`: imm masked to 5 bits at 10-6; rn at 5-3, rd at 2-0. */
  function ThumbLdrRdRnImm(rd: bv8, rn: bv8, imm: bv8): (h: bv16)
    ensures h & 0xF800 == 0x6800
    ensures rd < 8 && rn < 8 ==>
      && (h >> 6) & 0x1F == (imm & 0x1F) as bv16
      && (h >> 3) & 0x7 == rn as bv16
      && h & 0x7 == rd as bv16
  {
    0x6800 | (((imm & 0x1F) as bv16) << 6) | ((rn as bv16) << 3) | (rd as bv16)
  }

  /** `ldr rd, [pc, #imm8 * 4]` */
  function ThumbLdrRdPcImm(rd: bv8, imm: bv8): (h: bv16)
    ensures h & 0xFF == imm as bv16
    ensures rd < 8 ==> h >> 11 == 0x09 && (h >> 8) & 0x7 == rd as bv16
  {
    0x4800 | ((rd as bv16) << 8) | ((imm as bv16) & 0xFF)
  }

  /** `cmp rn, #imm8` */
  function ThumbCmpRnImm(rn: bv8, imm: bv8): (h: bv16)
    ensures h & 0xFF == imm as bv16
    ensures rn < 8 ==> h >> 11 == 0x04 && (h >> 8) & 0x7 == rn as bv16
  {
    0x2000 | ((rn as bv16) << 8) | ((imm as bv16) & 0xFF)
  }

  lemma ThumbConstants()
    ensures ThumbPopRegs(1) == POP_R0 == 0xBC01
    ensures ThumbMovRdRm(8, 8) == NOP == 0x46C0
  {
  }

  /** `is_32bit`: the first halfword of a 32-bit Thumb-2 instruction has top
      five bits 0b11101, 0b11110 or 0b11111. */
  function Is32Bit(h: bv16): (b: bool)
    ensures b <==> (h >> 11 == 0x1D || h >> 11 == 0x1E || h >> 11 == 0x1F)
  {
    (h & 0xE000) == 0xE000 && (h & 0x1800) != 0
  }

  /** The halfword at `addr`, little-endian. */
  function HalfwordAt(mem: seq<bv8>, addr: nat): bv16
    requires addr + 2 <= |mem|
  {
    (mem[addr] as bv16) | ((mem[addr + 1] as bv16) << 8)
  }

  /** `get_instruction_width`: ARM code (even address) is 4 bytes wide; for
      Thumb code (odd address) the halfword at `addr & !1` decides. */
  function InstructionWidth(mem: seq<bv8>, addr: U64): (n: nat)
    requires addr % 2 == 1 ==> addr + 1 <= |mem|
    ensures n == 2 || n == 4
    ensures addr % 2 == 0 ==> n == 4
    ensures addr % 2 == 1 ==> (n == 4 <==> Is32Bit(HalfwordAt(mem, addr - 1)))
  {
    if addr % 2 == 0 then InstructionWidthArm()
    else InstructionWidthThumb(mem, addr - addr % 2)
  }

  function InstructionWidthArm(): (n: nat)
    ensures n == 4
  {
    4
  }

  function InstructionWidthThumb(mem: seq<bv8>, addr: nat): (n: nat)
    requires addr + 2 <= |mem|
    ensures n == 4 <==> Is32Bit(HalfwordAt(mem, addr))
    ensures n == 2 || n == 4
  {
    if Is32Bit(HalfwordAt(mem, addr)) then 4 else 2
  }
}
