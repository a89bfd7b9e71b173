/** Read-back properties of the ARM and Thumb builders: offsets and register
    fields decode to what was packed, and the Thumb width rule classifies the
    builders' own output as 16-bit. */
module ArmProperties {
  import opened Common
  import opened Arm

  /** The offset a load or store was built with reads back exactly, for every
      immediate whose magnitude fits the field. */
  lemma LoadStoreOffsetRoundTrip(rd: ArmRegister, rn: ArmRegister, imm: bv32)
    requires FitsOffset12(imm)
    ensures LoadStoreOffset(LdrRdRnImm(rd, rn, imm)) == imm
    ensures LoadStoreOffset(StrRdRnImm(rd, rn, imm)) == imm
  {
    OffsetFieldRoundTrip(LdrRdRnImm(rd, rn, imm), 0xE510_0000, rn, rd, imm);
    OffsetFieldRoundTrip(StrRdRnImm(rd, rn, imm), 0xE500_0000, rn, rd, imm);
  }

  /** A word whose U bit and 12-bit field were set from `imm` reads back `imm`. */
  lemma OffsetFieldRoundTrip(w: bv32, op: bv32, rn: ArmRegister, rd: ArmRegister, imm: bv32)
    requires FitsOffset12(imm)
    requires LoadStoreFields(w, op, NonNegativeI32(imm), rn, rd, AbsI32(imm))
    ensures LoadStoreOffset(w) == imm
  {
  }

  /** Distinct register pairs give distinct `mov` words. */
  lemma MovRdRmInjective(rd: ArmRegister, rm: ArmRegister, rd': ArmRegister, rm': ArmRegister)
    requires MovRdRm(rd, rm) == MovRdRm(rd', rm')
    ensures rd == rd' && rm == rm'
  {
  }

  /** None of the 16-bit Thumb builders produces a first halfword that
      `Is32Bit` would take for a 32-bit instruction. */
  lemma ThumbBuildersAreNarrow(r: bv8, imm: bv8, regs: bv16)
    ensures !Is32Bit(ThumbB(imm))
    ensures r < 16 ==> !Is32Bit(ThumbBlx(r)) && !Is32Bit(ThumbBx(r))
    ensures !Is32Bit(ThumbAddRdRm(r, r)) && !Is32Bit(ThumbMovRdRm(r, r))
    ensures !Is32Bit(ThumbPushRegs(regs)) && !Is32Bit(ThumbPopRegs(regs))
    ensures !Is32Bit(ThumbLdrRdRnImm(r, r, imm))
    ensures r < 8 ==> !Is32Bit(ThumbLdrRdPcImm(r, imm)) && !Is32Bit(ThumbCmpRnImm(r, imm))
    ensures !Is32Bit(POP_R0) && !Is32Bit(NOP)
  {
  }

  /** Distinct register pairs below 16 give distinct Thumb `mov` halfwords. */
  lemma ThumbMovRdRmInjective(rd: bv8, rm: bv8, rd': bv8, rm': bv8)
    requires rd < 16 && rm < 16 && rd' < 16 && rm' < 16
    requires ThumbMovRdRm(rd, rm) == ThumbMovRdRm(rd', rm')
    ensures rd == rd' && rm == rm'
  {
  }

  /** A Thumb `nop` at an odd (Thumb) address is two bytes wide; the same bytes
      at an even (ARM) address count as four. */
  lemma WidthOfThumbNop(mem: seq<bv8>, addr: U64)
    requires addr % 2 == 0 && addr + 2 <= |mem|
    requires mem[addr] == 0xC0 && mem[addr + 1] == 0x46
    ensures InstructionWidth(mem, addr) == 4
    ensures addr + 1 < TWO64 ==> InstructionWidth(mem, addr + 1) == 2
  {
    assert HalfwordAt(mem, addr) == NOP;
  }
}
