/** The x86/x64 jump, call and register encoders (`X86Instruction`).
    Every writer is a pure function from a buffer, an offset and its operands
    to the updated buffer and the number of bytes it wrote. The address width
    is 64 bits. `is32` stands for the `IS_32BIT` build constant, which selects
    the near form unconditionally. */
module X86 {
  import opened Common

  /** `X86Register`: RAX = 0, RCX, RDX, RBX, RSP, RBP, RSI, RDI, R8 … R15 = 15. */
  type Register = r: bv8 | r < 16

  /** A writer's result: the whole buffer after the write, and the count it returns. */
  datatype Written = Written(buf: seq<bv8>, len: nat)

  /** Stores `code` at `offset`; every writer below is this applied to its byte pattern. */
  function Emit(buf: seq<bv8>, offset: nat, code: seq<bv8>): (w: Written)
    requires offset + |code| <= |buf|
    ensures w.len == |code| && |w.buf| == |buf|
    ensures w.buf[offset..offset + w.len] == code
    ensures ChangedOnly(buf, w.buf, offset, w.len)
  {
    Written(Splice(buf, offset, code), |code|)
  }

  // ---------------------------------------------------------------------
  // Planning

  /** `is_32bit_offset`: the wrapped distance, read as a signed 64-bit value,
      survives a round trip through `i32`. */
  function Is32BitOffset(target: U64, source: U64): (b: bool)
    ensures b <==> -TWO31 <= Signed64(WrappingSub(target, source)) < TWO31
  {
    var offset := Signed64(WrappingSub(target, source));
    if -TWO31 <= offset < TWO31 then Signed32Fixes(offset); Signed32(offset) == offset
    else Signed32(offset) == offset
  }

  function SizeOfSkip(): (n: nat)
    ensures n == |RelCode(0xE9, 0)|
  {
    5
  }

  function SizeOfPushPointer(target: U64): (n: nat)
    ensures n == 5 || n == 13
    ensures n == 13 <==> target >= TWO32
  {
    if target / TWO32 == 0 then 5 else 13
  }

  /** The near (rel32) form is used: always in a 32-bit build, otherwise when
      the distance from the end of the 5-byte instruction fits in an `i32`. */
  predicate UsesNear(is32: bool, target: U64, source: U64)
    requires source + 5 < TWO64
  {
    is32 || Is32BitOffset(target, source + 5)
  }

  function SizeOfJump(is32: bool, target: U64, source: U64): (n: nat)
    requires source + 5 < TWO64
    ensures n == 5 || n == 6 || n == 14
    ensures n == 5 <==> UsesNear(is32, target, source)
    ensures n == 14 <==> !UsesNear(is32, target, source) && target >= TWO32
  {
    if is32 || Is32BitOffset(target, source + 5) then SizeOfSkip()
    else SizeOfPushPointer(target) + 1
  }

  /** `size_of_jump_blind`: the size reserved when the source is not known yet. */
  function SizeOfJumpBlind(is32: bool, target: U64): (n: nat)
    ensures is32 ==> n == 5
    ensures !is32 ==> n == 6 || n == 14
    ensures !is32 ==> (n == 14 <==> target >= TWO32)
  {
    if is32 then SizeOfSkip() else SizeOfPushPointer(target) + 1
  }

  /** Reserving the blind size is always enough for the jump actually planned. */
  lemma BlindSizeCoversJump(is32: bool, target: U64, source: U64)
    requires source + 5 < TWO64
    ensures SizeOfJump(is32, target, source) <= SizeOfJumpBlind(is32, target)
  {
  }

  /** Moving the target one byte past the furthest forward near destination
      switches the plan to the far form. */
  lemma NearFarForwardBoundary(source: U64)
    requires source + 5 + TWO31 < TWO64
    ensures SizeOfJump(false, source + 5 + TWO31 - 1, source) == 5
    ensures SizeOfJump(false, source + 5 + TWO31, source) > 5
  {
    assert WrappingSub(source + 5 + TWO31 - 1, source + 5) == TWO31 - 1;
    assert WrappingSub(source + 5 + TWO31, source + 5) == TWO31;
  }

  /** The same switch one byte below the furthest backward near destination. */
  lemma NearFarBackwardBoundary(source: U64)
    requires TWO31 + 1 <= source + 5 < TWO64
    ensures SizeOfJump(false, source + 5 - TWO31, source) == 5
    ensures SizeOfJump(false, source + 5 - TWO31 - 1, source) > 5
  {
    assert WrappingSub(source + 5 - TWO31, source + 5) == TWO64 - TWO31;
    assert WrappingSub(source + 5 - TWO31 - 1, source + 5) == TWO64 - TWO31 - 1;
  }

  // ---------------------------------------------------------------------
  // Byte patterns

  /** `(target.wrapping_sub(source + 5)) as i32`: the rel32 operand of a
      near jump or call placed at `source`. */
  function Rel32(target: U64, source: U64): (r: int)
    requires source + 5 < TWO64
    ensures -TWO31 <= r < TWO31
  {
    Signed32(WrappingSub(target, source + 5))
  }

  /** Where a 5-byte rel32 instruction at `source` transfers to, computed
      without wrap-around from its encoded displacement. */
  function NearDestination(code: seq<bv8>, source: int): int
    requires |code| >= 5
  {
    source + 5 + Signed32(FromLittleEndian(code[1..5]))
  }

  /** `write_skip`: `E9` then the displacement as a little-endian `i32`. */
  function SkipCode(size: int): (code: seq<bv8>)
    requires -TWO31 <= size < TWO31
    ensures |code| == SizeOfSkip()
    ensures code[0] == 0xE9
    ensures Signed32(FromLittleEndian(code[1..5])) == size
  {
    RelCode(0xE9, size)
  }

  /** A one-byte opcode followed by a little-endian `i32` displacement. */
  function RelCode(opcode: bv8, size: int): (code: seq<bv8>)
    requires -TWO31 <= size < TWO31
    ensures |code| == 5
    ensures code[0] == opcode
    ensures code[1..5] == LE32(size)
    ensures Signed32(FromLittleEndian(code[1..5])) == size
  {
    var code := [opcode] + LE32(size);
    assert code[1..5] == LE32(size);
    Signed32Fixes(size);
    Signed32Mod(size);
    code
  }

  lemma Signed32Mod(x: int)
    ensures Signed32(x % TWO32) == Signed32(x)
  {
  }

  /** `write_push_pointer`: `68 imm32` with the low half, then
      `C7 44 24 04 imm32` with the high half when it is non-zero. */
  function PushPointerCode(target: U64): (code: seq<bv8>)
    ensures |code| == SizeOfPushPointer(target)
    ensures code[0] == 0x68
    ensures |code| == 13 ==> code[5..9] == [0xC7, 0x44, 0x24, 0x04]
    ensures DecodePushPointer(code) == target
  {
    var high := target / TWO32;
    var low := target % TWO32;
    ModUnique(target, high, low, TWO32);
    assert high < TWO32 && high % TWO32 == high;
    var code := [0x68] + LE32(target) + (if high != 0 then [0xC7, 0x44, 0x24, 0x04] + LE32(high) else []);
    assert code[1..5] == LE32(target);
    assert FromLittleEndian(code[1..5]) == low;
    assert high != 0 ==> code[9..13] == LE32(high) && FromLittleEndian(code[9..13]) == high;
    code
  }

  /** The near form of a jump or call placed at `source`: the opcode and
      the rel32 distance from the end of the instruction to `target`. */
  function NearCode(opcode: bv8, is32: bool, target: U64, source: U64): (code: seq<bv8>)
    requires source + 5 < TWO64
    requires UsesNear(is32, target, source)
    ensures |code| == 5 && code[0] == opcode
    ensures NearDestination(code, source) % TWO32 == target % TWO32
    ensures !is32 ==> NearDestination(code, source) % TWO64 == target
  {
    var rel := Rel32(target, source);
    var code := RelCode(opcode, rel);
    assert NearDestination(code, source) == source + 5 + rel;
    NearRoundTrip(is32, target, source);
    code
  }

  /** The 64-bit value a push-pointer sequence stores: its first immediate
      as the low half and, when present, its second as the high half. */
  function DecodePushPointer(code: seq<bv8>): nat
    requires |code| >= 5
  {
    FromLittleEndian(code[1..5]) + (if |code| >= 13 then TWO32 * FromLittleEndian(code[9..13]) else 0)
  }

  /** The bytes `write_jump_address` produces for a jump placed at `source`. */
  function JumpCode(is32: bool, target: U64, source: U64): (code: seq<bv8>)
    requires source + 5 < TWO64
    ensures |code| == SizeOfJump(is32, target, source)
    ensures UsesNear(is32, target, source) ==>
      && code[0] == 0xE9
      && NearDestination(code, source) % TWO32 == target % TWO32
      && (!is32 ==> NearDestination(code, source) % TWO64 == target)
    ensures !UsesNear(is32, target, source) ==>
      && code[0] == 0x68
      && code[..|code| - 1] == PushPointerCode(target)
      && DecodePushPointer(code[..|code| - 1]) == target
      && code[|code| - 1] == 0xC3
  {
    if is32 || Is32BitOffset(target, source + 5) then
      NearCode(0xE9, is32, target, source)
    else
      var push := PushPointerCode(target);
      assert (push + [0xC3])[..|push|] == push;
      push + [0xC3]
  }

  /** A near displacement leads back to the target: modulo 2^32 always, and
      modulo 2^64 when the 64-bit distance check selected the near form. */
  lemma NearRoundTrip(is32: bool, target: U64, source: U64)
    requires source + 5 < TWO64
    requires UsesNear(is32, target, source)
    ensures (source + 5 + Rel32(target, source)) % TWO32 == target % TWO32
    ensures !is32 ==> (source + 5 + Rel32(target, source)) % TWO64 == target
  {
    var d := source + 5;
    var w := WrappingSub(target, d);
    var c: int := if target >= d then 0 else 1;
    assert w == target - d + c * TWO64;
    var rel := Rel32(target, source);
    var j := (rel - w) / TWO32;
    assert rel == w + j * TWO32;
    // d + rel = target + c * 2^64 + j * 2^32 = target + (c * 2^32 + j) * 2^32
    assert d + rel == target + (c * TWO32 + j) * TWO32;
    AddMultiple(target, c * TWO32 + j, TWO32);
    if !is32 {
      var s := Signed64(w);
      assert Signed32(s) == s;
      assert s == w || s == w - TWO64;
      Signed32Congruent(s, w);
      assert rel == s;
      var e: int := if s == w then c else c - 1;
      assert d + rel == target + e * TWO64;
      AddMultiple(target, e, TWO64);
    }
  }

  lemma Signed32Congruent(a: int, b: int)
    requires a == b || a == b - TWO64
    ensures Signed32(a) == Signed32(b)
  {
    assert a % TWO32 == b % TWO32 by {
      if a != b {
        AddMultiple(b, -TWO32, TWO32);
        assert a == b + (-TWO32) * TWO32;
      }
    }
  }

  /** The bytes `write_call_address` produces for a call placed at `source`:
      `E8 rel32` in the near form, otherwise a push of the target followed by
      `83 C4 08` and `67 FF 54 24 F8`. */
  function CallCode(is32: bool, target: U64, source: U64): (code: seq<bv8>)
    requires source + 5 < TWO64
    ensures UsesNear(is32, target, source) ==>
      && |code| == 5
      && code[0] == 0xE8
      && NearDestination(code, source) % TWO32 == target % TWO32
      && (!is32 ==> NearDestination(code, source) % TWO64 == target)
    ensures !UsesNear(is32, target, source) ==>
      && |code| == SizeOfPushPointer(target) + 8
      && (|code| == 13 || |code| == 21)
      && code[0] == 0x68
      && code[..|code| - 8] == PushPointerCode(target)
      && DecodePushPointer(code[..|code| - 8]) == target
      && code[|code| - 8..] == [0x83, 0xC4, 0x08, 0x67, 0xFF, 0x54, 0x24, 0xF8]
  {
    if is32 || Is32BitOffset(target, source + 5) then
      NearCode(0xE8, is32, target, source)
    else
      FarCallCode(target)
  }

  /** The far form of a call: push the target, then `add rsp, 8` and an
      indirect call through the slot just below the stack pointer. */
  function FarCallCode(target: U64): (code: seq<bv8>)
    ensures |code| == SizeOfPushPointer(target) + 8
    ensures code[0] == 0x68
    ensures code[..|code| - 8] == PushPointerCode(target)
    ensures DecodePushPointer(code[..|code| - 8]) == target
    ensures code[|code| - 8..] == [0x83, 0xC4, 0x08, 0x67, 0xFF, 0x54, 0x24, 0xF8]
  {
    var push := PushPointerCode(target);
    var code := push + [0x83, 0xC4, 0x08] + [0x67, 0xFF, 0x54, 0x24, 0xF8];
    assert code[..|push|] == push;
    code
  }

  /** The optional REX prefix `0x40 | ((reg & 8) >> 3)` that the register
      forms emit when the register number needs a fourth bit. */
  function RexB(reg: bv8): seq<bv8>
  {
    if (reg >> 3) != 0 then [0x40 | ((reg & 0x08) >> 3)] else []
  }

  /** Recovers a register number from a register form: the REX.B bit of an
      optional leading `0x4?` prefix supplies bit 3, the low three bits of
      the last byte supply bits 0-2. */
  function RegisterOf(code: seq<bv8>): bv8
    requires |code| >= 1
  {
    var low := code[|code| - 1] & 0x07;
    if |code| >= 2 && code[0] & 0xF0 == 0x40 then ((code[0] & 0x01) << 3) | low else low
  }

  /** A register form: the optional REX prefix, the opcode bytes, and a last
      byte `base | (reg & 7)` whose low three bits name the register. */
  function RegisterCode(reg: bv8, opcode: seq<bv8>, base: bv8): (code: seq<bv8>)
    requires base & 0x07 == 0
    requires |opcode| == 0 || opcode[0] & 0xF0 != 0x40
    ensures |code| == |RexB(reg)| + |opcode| + 1
    ensures code[|code| - 1] & 0xF8 == base
    ensures code[|RexB(reg)|..|code| - 1] == opcode
    ensures RegisterOf(code) == reg & 0x0F
    ensures (reg >> 3) == 0 ==> |code| == |opcode| + 1
    ensures (reg >> 3) != 0 ==>
      |code| == |opcode| + 2 && code[0] == (if reg & 0x08 != 0 then 0x41 else 0x40)
  {
    var last := base | (reg & 0x07);
    LastByteBits(reg, base);
    RexValue(reg);
    RegisterCodeLayout(RexB(reg), opcode, last);
    RegisterCodeReads(reg, opcode, base);
    RexB(reg) + opcode + [last]
  }

  lemma RegisterCodeLayout(rex: seq<bv8>, opcode: seq<bv8>, last: bv8)
    ensures var code := rex + opcode + [last];
      code[|code| - 1] == last && code[|rex|..|code| - 1] == opcode
  {
    var code := rex + opcode + [last];
    assert code[|rex|..|code| - 1] == opcode;
  }

  lemma RegisterCodeReads(reg: bv8, opcode: seq<bv8>, base: bv8)
    requires base & 0x07 == 0
    requires |opcode| == 0 || opcode[0] & 0xF0 != 0x40
    ensures RegisterOf(RexB(reg) + opcode + [base | (reg & 0x07)]) == reg & 0x0F
  {
    var last := base | (reg & 0x07);
    LastByteBits(reg, base);
    var code := RexB(reg) + opcode + [last];
    assert code[|code| - 1] == last;
    if (reg >> 3) != 0 {
      RegisterOfWithRex(code, reg);
    } else {
      assert |code| >= 2 ==> code[0] == opcode[0];
      RegisterOfWithoutRex(code, reg);
    }
  }

  lemma RegisterOfWithRex(code: seq<bv8>, reg: bv8)
    requires |code| >= 2 && (reg >> 3) != 0
    requires code[0] == 0x40 | ((reg & 0x08) >> 3)
    requires code[|code| - 1] & 0x07 == reg & 0x07
    ensures RegisterOf(code) == reg & 0x0F
  {
    RexBits(reg);
  }

  lemma RegisterOfWithoutRex(code: seq<bv8>, reg: bv8)
    requires |code| >= 1 && (reg >> 3) == 0
    requires |code| >= 2 ==> code[0] & 0xF0 != 0x40
    requires code[|code| - 1] & 0x07 == reg & 0x07
    ensures RegisterOf(code) == reg & 0x0F
  {
    NoRexBits(reg);
  }

  lemma RexValue(reg: bv8)
    ensures 0x40 | ((reg & 0x08) >> 3) == (if reg & 0x08 != 0 then 0x41 else 0x40)
  {
  }

  lemma LastByteBits(reg: bv8, base: bv8)
    requires base & 0x07 == 0
    ensures (base | (reg & 0x07)) & 0x07 == reg & 0x07
    ensures (base | (reg & 0x07)) & 0xF8 == base
  {
  }

  lemma RexBits(reg: bv8)
    requires (reg >> 3) != 0
    ensures (0x40 | ((reg & 0x08) >> 3)) & 0xF0 == 0x40
    ensures (((0x40 | ((reg & 0x08) >> 3)) & 0x01) << 3) | (reg & 0x07) == reg & 0x0F
  {
  }

  lemma SmallRegister(reg: Register)
    ensures reg & 0x0F == reg
  {
  }

  lemma NoRexBits(reg: bv8)
    requires (reg >> 3) == 0
    ensures reg & 0x07 == reg & 0x0F
  {
  }

  // ---------------------------------------------------------------------
  // Writers

  /** `write_skip`: stores a 5-byte `E9 rel32` at `offset`. */
  function WriteSkip(buf: seq<bv8>, offset: nat, size: int): (r: seq<bv8>)
    requires -TWO31 <= size < TWO31
    requires offset + 5 <= |buf|
    ensures ChangedOnly(buf, r, offset, 5)
    ensures r[offset] == 0xE9
    ensures Signed32(FromLittleEndian(r[offset + 1..offset + 5])) == size
  {
    var w := Emit(buf, offset, SkipCode(size));
    assert w.buf[offset + 1..offset + 5] == SkipCode(size)[1..5];
    w.buf
  }

  function WritePushPointer(buf: seq<bv8>, offset: nat, target: U64): (w: Written)
    requires offset + SizeOfPushPointer(target) <= |buf|
    ensures w.len == SizeOfPushPointer(target)
    ensures ChangedOnly(buf, w.buf, offset, w.len)
    ensures w.buf[offset] == 0x68
    ensures w.len == 13 ==> w.buf[offset + 5..offset + 9] == [0xC7, 0x44, 0x24, 0x04]
    ensures DecodePushPointer(w.buf[offset..offset + w.len]) == target
  {
    Emit(buf, offset, PushPointerCode(target))
  }

  function WriteJumpAddress(is32: bool, buf: seq<bv8>, offset: nat, target: U64, source: U64): (w: Written)
    requires source + 5 < TWO64
    requires offset + SizeOfJump(is32, target, source) <= |buf|
    ensures w.len == SizeOfJump(is32, target, source)
    ensures ChangedOnly(buf, w.buf, offset, w.len)
    ensures w.buf[offset..offset + w.len] == JumpCode(is32, target, source)
  {
    Emit(buf, offset, JumpCode(is32, target, source))
  }

  function WriteCallAddress(is32: bool, buf: seq<bv8>, offset: nat, target: U64, source: U64): (w: Written)
    requires source + 5 < TWO64
    requires offset + |CallCode(is32, target, source)| <= |buf|
    ensures w.len == (if UsesNear(is32, target, source) then 5 else SizeOfPushPointer(target) + 8)
    ensures ChangedOnly(buf, w.buf, offset, w.len)
    ensures w.buf[offset..offset + w.len] == CallCode(is32, target, source)
  {
    Emit(buf, offset, CallCode(is32, target, source))
  }

  function SizeOfPop(target: bv8): (n: nat)
    ensures n == 1 || n == 2
    ensures n == 2 <==> target >= 8
  {
    if (target >> 3) != 0 then 2 else 1
  }

  /** `write_pop`: `[REX] 58+r`. */
  function WritePop(buf: seq<bv8>, offset: nat, target: bv8): (w: Written)
    requires offset + SizeOfPop(target) <= |buf|
    ensures w.len == SizeOfPop(target)
    ensures ChangedOnly(buf, w.buf, offset, w.len)
    ensures w.buf[offset + w.len - 1] & 0xF8 == 0x58
    ensures RegisterOf(w.buf[offset..offset + w.len]) == target & 0x0F
    ensures w.len == 2 ==> w.buf[offset] == (if target & 0x08 != 0 then 0x41 else 0x40)
  {
    var code := RegisterCode(target, [], 0x58);
    assert |code| == SizeOfPop(target);
    var w := Emit(buf, offset, code);
    var last := code[|code| - 1];
    assert w.buf[offset + w.len - 1] == last;
    assert last & 0xF8 == 0x58;
    w
  }

  /** `write_push`: `[REX] 50+r`; the same length as popping that register. */
  function WritePush(buf: seq<bv8>, offset: nat, reg: Register): (w: Written)
    requires offset + SizeOfPop(reg) <= |buf|
    ensures w.len == SizeOfPop(reg)
    ensures ChangedOnly(buf, w.buf, offset, w.len)
    ensures w.buf[offset + w.len - 1] & 0xF8 == 0x50
    ensures RegisterOf(w.buf[offset..offset + w.len]) == reg
    ensures reg >= 8 ==> w.buf[offset] == 0x41
  {
    SmallRegister(reg);
    var code := RegisterCode(reg, [], 0x50);
    var w := Emit(buf, offset, code);
    assert w.buf[offset + w.len - 1] == code[|code| - 1];
    w
  }

  /** `write_call_register`: `[REX] FF /2` with a register-direct ModRM. */
  function WriteCallRegister(buf: seq<bv8>, offset: nat, reg: Register): (w: Written)
    requires offset + SizeOfPop(reg) + 1 <= |buf|
    ensures w.len == 2 || w.len == 3
    ensures w.len == 3 <==> reg >= 8
    ensures ChangedOnly(buf, w.buf, offset, w.len)
    ensures w.buf[offset + w.len - 2] == 0xFF
    ensures w.buf[offset + w.len - 1] & 0xF8 == 0xD0
    ensures RegisterOf(w.buf[offset..offset + w.len]) == reg
    ensures reg >= 8 ==> w.buf[offset] == 0x41
  {
    SmallRegister(reg);
    var code := RegisterCode(reg, [0xFF], 0xD0);
    var w := Emit(buf, offset, code);
    assert w.buf[offset + w.len - 1] == code[|code| - 1];
    w
  }

  /** `write_jump_register`: `[REX] FF /4` with a register-direct ModRM. */
  function WriteJumpRegister(buf: seq<bv8>, offset: nat, reg: Register): (w: Written)
    requires offset + SizeOfPop(reg) + 1 <= |buf|
    ensures w.len == 2 || w.len == 3
    ensures w.len == 3 <==> reg >= 8
    ensures ChangedOnly(buf, w.buf, offset, w.len)
    ensures w.buf[offset + w.len - 2] == 0xFF
    ensures w.buf[offset + w.len - 1] & 0xF8 == 0xE0
    ensures RegisterOf(w.buf[offset..offset + w.len]) == reg
    ensures reg >= 8 ==> w.buf[offset] == 0x41
  {
    SmallRegister(reg);
    var code := RegisterCode(reg, [0xFF], 0xE0);
    var w := Emit(buf, offset, code);
    assert w.buf[offset + w.len - 1] == code[|code| - 1];
    w
  }

  function SizeOfMove64(): (n: nat)
    ensures n == 3
  {
    3
  }

  /** `write_add`: `83 /0 ib` with ModRM `C4 | (reg & 7)`, so the r/m field
      always has bit 2 set. */
  function WriteAdd(buf: seq<bv8>, offset: nat, reg: Register, value: bv8): (w: Written)
    requires offset + 3 <= |buf|
    ensures w.len == 3
    ensures ChangedOnly(buf, w.buf, offset, w.len)
    ensures w.buf[offset] == 0x83
    ensures w.buf[offset + 1] >> 3 == 0x18
    ensures w.buf[offset + 1] & 0x07 == (reg & 0x07) | 0x04
    ensures w.buf[offset + 2] == value
  {
    Emit(buf, offset, [0x83, 0xC4 | (reg & 0x07), value])
  }

  /** `write_set64`: `REX.W B8+r imm64`; the register's bit 3 goes to REX bit 2. */
  function WriteSet64(buf: seq<bv8>, offset: nat, reg: Register, value: U64): (w: Written)
    requires offset + 10 <= |buf|
    ensures w.len == 10
    ensures ChangedOnly(buf, w.buf, offset, w.len)
    ensures w.buf[offset] & 0xFB == 0x48
    ensures w.buf[offset + 1] & 0xF8 == 0xB8
    ensures ((w.buf[offset] & 0x04) << 1) | (w.buf[offset + 1] & 0x07) == reg
    ensures FromLittleEndian(w.buf[offset + 2..offset + 10]) == value
  {
    var code := [0x48 | (((reg & 0x08) >> 3) << 2), 0xB8 | (reg & 0x07)] + LE64(value);
    assert code[2..10] == LE64(value);
    var w := Emit(buf, offset, code);
    assert w.buf[offset + 2..offset + 10] == w.buf[offset..offset + w.len][2..10];
    w
  }

  /** `write_move64`: `REX.W 8B /r` with ModRM mod = 00, reg = target, r/m = source. */
  function WriteMove64(buf: seq<bv8>, offset: nat, source: bv8, target: bv8): (w: Written)
    requires offset + SizeOfMove64() <= |buf|
    ensures w.len == SizeOfMove64()
    ensures ChangedOnly(buf, w.buf, offset, w.len)
    ensures w.buf[offset] & 0xFA == 0x48
    ensures w.buf[offset + 1] == 0x8B
    ensures w.buf[offset + 2] >> 6 == 0
    ensures ((w.buf[offset] & 0x04) << 1) | ((w.buf[offset + 2] >> 3) & 0x07) == target & 0x0F
    ensures ((w.buf[offset] & 0x01) << 3) | (w.buf[offset + 2] & 0x07) == source & 0x0F
  {
    Emit(buf, offset, [
      0x48 | (((target & 0x08) >> 3) << 2) | ((source & 0x08) >> 3),
      0x8B,
      ((target & 0x07) << 3) | (source & 0x07)])
  }

  /** The jump bytes a hook installs: `write_jump_address` into a zeroed
      buffer of exactly `size_of_jump` bytes. */
  lemma JumpIntoFreshBuffer(is32: bool, target: U64, source: U64)
    requires source + 5 < TWO64
    ensures WriteJumpAddress(is32, Zeros(SizeOfJump(is32, target, source)), 0, target, source).buf
            == JumpCode(is32, target, source)
  {
    var w := WriteJumpAddress(is32, Zeros(SizeOfJump(is32, target, source)), 0, target, source);
    assert w.buf == w.buf[0..w.len];
  }

  /** The unit-test facts about sizes. */
  lemma SizeExamples()
    ensures SizeOfSkip() == 5
    ensures SizeOfPushPointer(0x12345678) >= 5
  {
  }
}
