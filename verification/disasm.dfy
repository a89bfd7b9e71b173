/** The x86 length decoder front end (`Disassembler`) and the relocation copy
    loop built on it. The decoder itself (`hde64_disasm`) is foreign code; it
    is a parameter here: a function from the bytes at an address to its
    report. An x86 instruction is at most 15 bytes long, so the decoder sees
    the (up to) 15 bytes starting at the address. */
module Disasm {
  import opened Common

  /** The fields of the decoder's report that the engine reads (`hde64s`). */
  datatype Hde = Hde(
    len: nat,
    flags: bv32,
    opcode: bv8,
    opcode2: bv8,
    modrm: bv8,
    modrmMod: bv8,
    modrmReg: bv8,
    modrmRm: bv8)

  /** `hde64_disasm`: what the decoder reports for the bytes at an address. */
  type Decoder = seq<bv8> -> Hde

  /** `DisassembledInstruction`: an accepted length and the full report. */
  datatype Instruction = Instruction(length: nat, data: Hde)

  const MAX_LENGTH: nat := 15

  /** The bytes the decoder may look at for an instruction starting at `addr`. */
  function Window(mem: seq<bv8>, addr: U64): (w: seq<bv8>)
    ensures |w| <= MAX_LENGTH
    ensures addr + MAX_LENGTH <= |mem| ==> w == mem[addr..addr + MAX_LENGTH]
  {
    if addr >= |mem| then []
    else if addr + MAX_LENGTH <= |mem| then mem[addr..addr + MAX_LENGTH]
    else mem[addr..]
  }

  /** `disassemble`: no instruction at the null address, nor when the decoder
      reports a length of 0 or above 15. */
  function Disassemble(decode: Decoder, mem: seq<bv8>, code: U64): (r: Option<Instruction>)
    ensures r.None? <==>
      code == 0 || decode(Window(mem, code)).len == 0 || decode(Window(mem, code)).len > MAX_LENGTH
    ensures r.Some? ==>
      && 1 <= r.value.length <= MAX_LENGTH
      && r.value.length == decode(Window(mem, code)).len
      && r.value.data == decode(Window(mem, code))
  {
    if code == 0 then None
    else
      var hs := decode(Window(mem, code));
      if hs.len == 0 || hs.len > MAX_LENGTH then None
      else Some(Instruction(hs.len, hs))
  }

  /** `instruction_length`: the decoded length, or 0 when there is none. */
  function InstructionLength(decode: Decoder, mem: seq<bv8>, code: U64): (n: nat)
    ensures n <= MAX_LENGTH
    ensures n == 0 <==> Disassemble(decode, mem, code).None?
    ensures n != 0 ==> n == Disassemble(decode, mem, code).value.length
  {
    match Disassemble(decode, mem, code)
    case None => 0
    case Some(i) => i.length
  }

  // ---------------------------------------------------------------------
  // Decoder flags

  const F_MODRM: bv32 := 0x0000_0001
  const F_SIB: bv32 := 0x0000_0002
  const F_IMM8: bv32 := 0x0000_0004
  const F_IMM16: bv32 := 0x0000_0008
  const F_IMM32: bv32 := 0x0000_0010
  const F_IMM64: bv32 := 0x0000_0020
  const F_DISP8: bv32 := 0x0000_0040
  const F_DISP16: bv32 := 0x0000_0080
  const F_DISP32: bv32 := 0x0000_0100
  const F_RELATIVE: bv32 := 0x0000_0200
  const F_ERROR: bv32 := 0x0000_1000

  predicate Flag(i: Instruction, mask: bv32) { i.data.flags & mask != 0 }

  /** Bit `n` of a flag word, counted from the least significant. */
  predicate Bit(x: bv32, n: bv32)
    requires n < 32
  {
    (x >> n) & 1 == 1
  }

  /** `has_modrm`: flag bit 0. */
  function HasModrm(i: Instruction): (b: bool)
    ensures b <==> Bit(i.data.flags, 0)
  {
    Flag(i, F_MODRM)
  }

  /** `has_sib`: flag bit 1. */
  function HasSib(i: Instruction): (b: bool)
    ensures b <==> Bit(i.data.flags, 1)
  {
    Flag(i, F_SIB)
  }

  /** `has_imm8`: flag bit 2. */
  function HasImm8(i: Instruction): (b: bool)
    ensures b <==> Bit(i.data.flags, 2)
  {
    Flag(i, F_IMM8)
  }

  /** `has_imm16`: flag bit 3. */
  function HasImm16(i: Instruction): (b: bool)
    ensures b <==> Bit(i.data.flags, 3)
  {
    Flag(i, F_IMM16)
  }

  /** `has_imm32`: flag bit 4. */
  function HasImm32(i: Instruction): (b: bool)
    ensures b <==> Bit(i.data.flags, 4)
  {
    Flag(i, F_IMM32)
  }

  /** `has_imm64`: flag bit 5. */
  function HasImm64(i: Instruction): (b: bool)
    ensures b <==> Bit(i.data.flags, 5)
  {
    Flag(i, F_IMM64)
  }

  /** `has_disp8`: flag bit 6. */
  function HasDisp8(i: Instruction): (b: bool)
    ensures b <==> Bit(i.data.flags, 6)
  {
    Flag(i, F_DISP8)
  }

  /** `has_disp16`: flag bit 7. */
  function HasDisp16(i: Instruction): (b: bool)
    ensures b <==> Bit(i.data.flags, 7)
  {
    Flag(i, F_DISP16)
  }

  /** `has_disp32`: flag bit 8. */
  function HasDisp32(i: Instruction): (b: bool)
    ensures b <==> Bit(i.data.flags, 8)
  {
    Flag(i, F_DISP32)
  }

  /** `is_relative`: flag bit 9. */
  function IsRelative(i: Instruction): (b: bool)
    ensures b <==> Bit(i.data.flags, 9)
  {
    Flag(i, F_RELATIVE)
  }

  /** `has_error`: flag bit 12; bits 10 and 11 have no getter. */
  function HasError(i: Instruction): (b: bool)
    ensures b <==> Bit(i.data.flags, 12)
  {
    Flag(i, F_ERROR)
  }

  /** `is_rip_relative`: the mask test `modrm & 0xC7 == 0x05` is exactly
      "a ModRM byte with `mod == 00` and `rm == 101`". */
  function IsRipRelative(i: Instruction): (b: bool)
    ensures b <==> HasModrm(i) && i.data.modrm >> 6 == 0 && i.data.modrm & 7 == 5
  {
    HasModrm(i) && i.data.modrm & 0xC7 == 0x05
  }

  /** The flag bits the eleven getters read, in source order. */
  const FLAG_BITS: seq<bv32> := [0, 1, 2, 3, 4, 5, 6, 7, 8, 9, 12]

  /** Answer `j` tests bit `FLAG_BITS[j]`; `GettersInOrder` names them. */
  function Getters(i: Instruction): seq<bool>
  {
    seq(|FLAG_BITS|, j requires 0 <= j < |FLAG_BITS| => Bit(i.data.flags, FLAG_BITS[j]))
  }

  /** Position by position, the answers are the getters in source order. */
  lemma GettersInOrder(i: Instruction)
    ensures var g := Getters(i);
      && |g| == 11
      && g[0] == HasModrm(i) && g[1] == HasSib(i) && g[2] == HasImm8(i)
      && g[3] == HasImm16(i) && g[4] == HasImm32(i) && g[5] == HasImm64(i)
      && g[6] == HasDisp8(i) && g[7] == HasDisp16(i) && g[8] == HasDisp32(i)
      && g[9] == IsRelative(i) && g[10] == HasError(i)
  {
  }

  /** Each getter tests its own bit: with only bit `FLAG_BITS[k]` set,
      getter `k` alone answers yes. */
  lemma OneFlagOneGetter(i: Instruction, k: nat)
    requires k < |FLAG_BITS| && i.data.flags == 1 << FLAG_BITS[k]
    ensures forall j :: 0 <= j < |FLAG_BITS| ==> (Getters(i)[j] <==> j == k)
  {
    forall j | 0 <= j < |FLAG_BITS|
      ensures Getters(i)[j] <==> j == k
    {
      FlagBitsDistinct();
      FlipBit(0, FLAG_BITS[k], FLAG_BITS[j]);
    }
  }

  /** The getters read eleven different bits, all below 13. */
  lemma FlagBitsDistinct()
    ensures forall j :: 0 <= j < |FLAG_BITS| ==> FLAG_BITS[j] < 13
    ensures forall j, k :: 0 <= j < k < |FLAG_BITS| ==> FLAG_BITS[j] < FLAG_BITS[k]
  {
  }

  /** Flipping bit `n` changes bit `n` and no other. */
  lemma FlipBit(x: bv32, n: bv32, m: bv32)
    requires n < 32 && m < 32
    ensures Bit(x ^ (1 << n), m) <==> (if m == n then !Bit(x, m) else Bit(x, m))
  {
  }

  // ---------------------------------------------------------------------
  // Whole-instruction copy

  /** `[at, at + n)` is a run of consecutive whole instructions, as the decoder
      splits it from `at`. */
  predicate Tiles(decode: Decoder, mem: seq<bv8>, at: int, n: nat)
    decreases n
  {
    n == 0 ||
    (0 <= at < TWO64 &&
     var r := Disassemble(decode, mem, at);
     r.Some? && r.value.length <= n && Tiles(decode, mem, at + r.value.length, n - r.value.length))
  }

  /** A run of whole instructions followed by one more decoded instruction is
      again a run of whole instructions. */
  lemma {:induction false} TilesExtend(decode: Decoder, mem: seq<bv8>, at: int, n: nat, len: nat)
    requires Tiles(decode, mem, at, n)
    requires 0 <= at + n < TWO64
    requires Disassemble(decode, mem, at + n) == Some(Instruction(len, decode(Window(mem, at + n))))
    ensures Tiles(decode, mem, at, n + len)
    decreases n
  {
    if n > 0 {
      var l := Disassemble(decode, mem, at).value.length;
      TilesExtend(decode, mem, at + l, n - l, len);
    }
  }

  /** The decoder splits a region one way only: when two runs start at the
      same address, the longer one continues from the end of the shorter. */
  lemma {:induction false} TilesPrefix(decode: Decoder, mem: seq<bv8>, at: int, n: nat, m: nat)
    requires Tiles(decode, mem, at, n) && Tiles(decode, mem, at, m) && n <= m
    ensures Tiles(decode, mem, at + n, m - n)
    decreases n
  {
    if n > 0 {
      var l := Disassemble(decode, mem, at).value.length;
      TilesPrefix(decode, mem, at + l, n - l, m - l);
    }
  }

  /** No run of whole instructions from `at` ends strictly inside the
      instruction that follows a run of length `n`. */
  lemma NoBoundaryInside(decode: Decoder, mem: seq<bv8>, at: int, n: nat, len: nat, m: nat)
    requires Tiles(decode, mem, at, n)
    requires 0 <= at + n < TWO64
    requires Disassemble(decode, mem, at + n) == Some(Instruction(len, decode(Window(mem, at + n))))
    requires n < m < n + len
    ensures !Tiles(decode, mem, at, m)
  {
    if Tiles(decode, mem, at, m) {
      TilesPrefix(decode, mem, at, n, m);
      assert false;
    }
  }

  /** One more whole instruction, taken while still short of `min_size`,
      keeps every earlier boundary below `min_size`. */
  lemma StillMinimal(decode: Decoder, mem: seq<bv8>, at: int, n: nat, len: nat, minSize: nat)
    requires Tiles(decode, mem, at, n) && n < minSize
    requires 0 <= at + n < TWO64
    requires Disassemble(decode, mem, at + n) == Some(Instruction(len, decode(Window(mem, at + n))))
    requires forall m: nat :: m < n && Tiles(decode, mem, at, m) ==> m < minSize
    ensures forall m: nat :: m < n + len && Tiles(decode, mem, at, m) ==> m < minSize
  {
    forall m: nat | n < m < n + len
      ensures !Tiles(decode, mem, at, m)
    {
      NoBoundaryInside(decode, mem, at, n, len, m);
    }
  }

  /** `copy_instructions`: copies whole instructions from `from` until at
      least `min_size` bytes are copied or the decoder rejects the next one.
      Every byte the loop may read must be addressable memory. */
  method CopyInstructions(decode: Decoder, mem: seq<bv8>, from: U64, minSize: U64)
    returns (copied: seq<bv8>)
    requires |mem| <= TWO64
    requires from + minSize + MAX_LENGTH - 1 <= |mem|
    ensures from + |copied| <= |mem| && copied == mem[from..from + |copied|]
    ensures Tiles(decode, mem, from, |copied|)
    ensures |copied| < minSize ==> Disassemble(decode, mem, from + |copied|).None?
    ensures minSize == 0 ==> copied == []
    ensures |copied| < minSize + MAX_LENGTH
    ensures forall n: nat :: n < |copied| && Tiles(decode, mem, from, n) ==> n < minSize
  {
    copied := [];
    var offset: nat := 0;
    while offset < minSize
      invariant offset == |copied|
      invariant offset < minSize + MAX_LENGTH
      invariant minSize == 0 ==> offset == 0
      invariant copied == mem[from..from + offset]
      invariant Tiles(decode, mem, from, offset)
      invariant forall n: nat :: n < offset && Tiles(decode, mem, from, n) ==> n < minSize
      decreases minSize - offset
    {
      var r := Disassemble(decode, mem, from + offset);
      if r.None? {
        break;
      }
      var len := r.value.length;
      TilesExtend(decode, mem, from, offset, len);
      StillMinimal(decode, mem, from, offset, len, minSize);
      assert mem[from..from + offset] + mem[from + offset..from + offset + len]
          == mem[from..from + offset + len];
      copied := copied + mem[from + offset..from + offset + len];
      offset := offset + len;
    }
  }
}
