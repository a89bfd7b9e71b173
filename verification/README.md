# cydia-substrate-rs inline-hook engine, modelled in Dafny

This project models the Rust side of the inline-hook engine of
cydia-substrate-rs and proves properties of it:

- the x86/x64 jump and call planner and byte encoder (`X86Instruction`);
- the ARM and Thumb instruction-word builders and the Thumb width rule;
- the page arithmetic and protection sequencing of `MemoryProtection`;
- the `Disassembler` front end and the `copy_instructions` loop;
- the `Trampoline` / `InlineHook` / `HookChain` life cycle over an abstract
  process memory;
- `string_to_offset` and the maps-line parse behind `get_absolute_address`;
- `Debug::print_hex`, as a function that returns the text it would print.

Every operation is a pure function or a method over immutable values.

- Process memory is a `seq<bv8>` indexed by address; address 0 is null.
- `usize` is 64 bits wide (`U64`). The `IS_32BIT` build constant is the
  parameter `is32`; the target architecture is the parameter `arch`.
- The operating system is an `Os` value. It supplies the page size, whether
  each `mprotect` succeeds, and the address each `mmap` returns.
- Every operation returns the system calls it issued, in order, as a trace
  (`Protect`, `FlushCache`, `MapAnon`, `Unmap`). That makes the sequencing
  of the calls a provable property.
- The C length decoder `hde64_disasm` is a parameter of type `Decoder`: a
  function from the bytes at an address to its report.

Modules follow the source files:

| module | source |
|---|---|
| `Common` | shared words, bytes, little-endian, errors |
| `X86` | `src/arch/x86.rs` |
| `Arm`, `ArmProperties` | `src/arch/arm.rs` |
| `Protection` | `src/memory.rs` (`MemoryProtection`) |
| `Disasm` | `src/disasm.rs` |
| `Advanced` | `src/advanced.rs` (`Trampoline`, `InlineHook`) |
| `Chain` | `src/advanced.rs` (`HookChain`) |
| `Hex`, `Utils` | `src/utils.rs` |
| `HexDump` | `src/debug.rs` (`print_hex`) |

## Model

| member | source | states |
|---|---|---|
| X86.Is32BitOffset | src/arch/x86.rs:18-21 | holds exactly when the wrapped difference `target - source`, read as a signed 64-bit value, lies in `[-2^31, 2^31)` |
| X86.SizeOfSkip | src/arch/x86.rs:23-25 | the length of the `E9 rel32` pattern `write_skip` writes |
| Common.WrappingSub | src/arch/x86.rs:19 | `a.wrapping_sub(b)`: the 64-bit value that added to `b` gives `a` modulo 2^64 |
| Common.WrappingAdd | src/utils.rs:24 | the release-build `lib_base + relative_addr`: congruent to the sum modulo 2^64, and subtracting the offset gives the base back |
| Common.Signed64 | src/arch/x86.rs:19 | `as isize`: the value in `[-2^63, 2^63)` congruent to the word modulo 2^64 |
| Common.Signed32 | src/arch/x86.rs:20 | `as i32`: the value in `[-2^31, 2^31)` congruent modulo 2^32 |
| Common.LittleEndianRoundTrip | src/arch/x86.rs:60 | `to_le_bytes` read back least significant byte first gives the value |
| X86.SizeOfPushPointer | src/arch/x86.rs:27-33 | 5 or 13 bytes, and 13 exactly when the target's high 32 bits are non-zero |
| X86.SizeOfJumpBlind | src/arch/x86.rs:35-41 | 5 in a 32-bit build; otherwise the push plus `ret`: 14 exactly when the target needs more than 32 bits, else 6 |
| X86.SizeOfJump | src/arch/x86.rs:43-49 | 5, 6 or 14 bytes; 5 exactly when the near form is chosen (32-bit build, or the distance from `source + 5` fits an `i32`); 14 exactly for the far form to a target at or above 2^32 |
| X86.BlindSizeCoversJump | src/arch/x86.rs:35-49 | the blind size is never smaller than the size planned for a known source |
| X86.NearFarForwardBoundary | src/arch/x86.rs:43-49 | on x64 a target `2^31 - 1` bytes past `source + 5` still takes the near form, and one byte further takes the far form |
| X86.NearFarBackwardBoundary | src/arch/x86.rs:43-49 | a target `2^31` bytes before `source + 5` still takes the near form, and one byte further back takes the far form |
| X86.SkipCode | src/arch/x86.rs:51-54 | `write_skip`'s pattern: 5 bytes, opcode `E9`, and the little-endian displacement reads back as the `i32` it was given |
| X86.RelCode | src/arch/x86.rs:90-92 | an opcode byte then `rel32` as little-endian `i32`; the displacement reads back as the value it encodes |
| X86.PushPointerCode | src/arch/x86.rs:56-74 | `68` + low half; then `C7 44 24 04` + high half when the high half is non-zero; the length is `size_of_push_pointer`, and the two immediates decode back to the 64-bit target |
| X86.NearCode | src/arch/x86.rs:105-107 | the near form is 5 bytes, and the end of the instruction plus the sign-extended displacement reaches the target modulo 2^32, and modulo 2^64 on x64 |
| X86.NearRoundTrip | src/arch/x86.rs:89-91 | whenever the near branch is taken, `source + 5 + (target.wrapping_sub(source + 5) as i32)` is congruent to the target (mod 2^32 always, mod 2^64 in a 64-bit build) |
| X86.JumpCode | src/arch/x86.rs:104-114 | the jump bytes have exactly `size_of_jump` bytes; the near form is `E9 rel32` landing on the target; the far form is exactly the push-pointer bytes for the target (marker included) and `C3` |
| X86.CallCode | src/arch/x86.rs:88-102 | near form: 5 bytes `E8 rel32` landing on the target; far form: exactly the push-pointer bytes for the target (marker included), then `83 C4 08` and `67 FF 54 24 F8`, 13 or 21 bytes |
| X86.FarCallCode | src/arch/x86.rs:94-101 | the far call is exactly the push-pointer bytes for the target, `C7 44 24 04` marker included, followed by the fixed 8-byte tail |
| X86.RegisterCode | src/arch/x86.rs:128-136 | a register form writes a prefix only when `reg >> 3 != 0`, and then exactly `0x41` when bit 3 is set and `0x40` otherwise; the register number reads back from the REX.B bit and the low three bits of the last byte |
| X86.WriteSkip | src/arch/x86.rs:51-54 | writes only `buffer[offset..offset+5)`: `E9` then the displacement |
| X86.WritePushPointer | src/arch/x86.rs:56-74 | returns `size_of_push_pointer(target)`, changes only the bytes it reports, and the written immediates decode to the target |
| X86.WriteJumpAddress | src/arch/x86.rs:104-114 | returns exactly `size_of_jump` for the same arguments (planner and encoder agree) and changes only those bytes |
| X86.WriteCallAddress | src/arch/x86.rs:88-102 | returns 5 in the near case and `size_of_push_pointer + 8` otherwise, changing only those bytes |
| X86.SizeOfPop | src/arch/x86.rs:138-140 | 1 or 2, and 2 exactly for register numbers 8 and up |
| X86.WritePop | src/arch/x86.rs:128-136 | returns `size_of_pop`, writes `58+r` last, and the register reads back as the low four bits of the argument; a 2-byte form starts with `0x41` when bit 3 is set, else `0x40` |
| X86.WritePush | src/arch/x86.rs:142-151 | returns 1 or 2 (the size of popping that register), writes `50+r` last, and the register reads back; R8-R15 get the prefix `0x41` |
| X86.WriteCallRegister | src/arch/x86.rs:76-86 | returns 2 or 3 (3 exactly for R8-R15), `FF` then ModRM `D0+r`, the register reads back, and R8-R15 get the prefix `0x41` |
| X86.WriteJumpRegister | src/arch/x86.rs:116-126 | returns 2 or 3 (3 exactly for R8-R15), `FF` then ModRM `E0+r`, the register reads back, and R8-R15 get the prefix `0x41` |
| X86.WriteAdd | src/arch/x86.rs:153-158 | returns 3, writes `83`, a ModRM with `/0` and r/m `4 | (reg & 7)`, and the immediate |
| X86.WriteSet64 | src/arch/x86.rs:160-166 | returns 10, writes `REX.W B8+r` and the 64-bit value little-endian; the register reads back from REX bit 2 and the opcode |
| X86.WriteMove64 | src/arch/x86.rs:168-173 | returns 3 (`size_of_move64`), writes `REX.W 8B` and a ModRM whose reg and r/m fields, with the REX bits, read back as target and source |
| X86.SizeOfMove64 | src/arch/x86.rs:175-177 | 3, the length `write_move64` returns |
| X86.JumpIntoFreshBuffer | src/advanced.rs:126-129 | writing the jump into a zeroed buffer of `size_of_jump` bytes yields exactly the jump bytes |
| X86.SizeExamples | src/tests.rs:100-104 | `size_of_skip() == 5` and `size_of_push_pointer(0x12345678) >= 5` |
| Arm.MrsRmCpsr | src/arch/arm.rs:27-29 | condition AL, the register in bits 15-12, the rest the `mrs` pattern |
| Arm.MsrCpsrFRm | src/arch/arm.rs:31-33 | condition AL, the register in bits 3-0, the rest the `msr` pattern |
| Arm.LoadStoreWord | src/arch/arm.rs:35-43 | for a magnitude below 4096 the condition, base pattern, both registers, U bit and offset all read back |
| Arm.LdrRdRnImm | src/arch/arm.rs:35-38 | when `|imm| < 4096`: bit 23 set exactly when `imm >= 0`, the low 12 bits are `|imm|`, and rn and rd read back |
| Arm.StrRdRnImm | src/arch/arm.rs:40-43 | the same read-back for `str` |
| Arm.SubRdRnImm | src/arch/arm.rs:45-47 | condition AL, rn, rd and the 8-bit immediate read back |
| Arm.BlxRm | src/arch/arm.rs:49-51 | condition AL and the register in bits 3-0 |
| Arm.MovRdRm | src/arch/arm.rs:53-55 | condition AL, rd in bits 15-12, rm in bits 3-0, and the word is non-zero |
| Arm.LdmiaSpRegs | src/arch/arm.rs:57-59 | the word is `0xE8BD0000 | regs`: base register SP and the list in the low 16 bits |
| Arm.StmdbSpRegs | src/arch/arm.rs:61-63 | the word is `0xE92D0000 | regs` |
| Arm.ArmConstants | src/arch/arm.rs:10-12 | SP, LR and PC are registers 13, 14 and 15 |
| Arm.ThumbB | src/arch/arm.rs:75-77 | high byte `DE`, low byte the immediate's bit pattern |
| Arm.ThumbBlx | src/arch/arm.rs:79-81 | for a register below 16, the `blx` pattern with the register at bits 6-3 |
| Arm.ThumbBx | src/arch/arm.rs:83-85 | for a register below 16, the `bx` pattern with the register at bits 6-3 |
| Arm.ThumbAddRdRm | src/arch/arm.rs:87-92 | the `add` pattern, and the low four bits of rd and rm read back from the split fields |
| Arm.ThumbPushRegs | src/arch/arm.rs:94-97 | bit 8 set exactly when LR (bit 14) is in the list; the low byte is the list's low byte |
| Arm.ThumbPopRegs | src/arch/arm.rs:99-102 | bit 8 set exactly when PC (bit 15) is in the list; the low byte is the list's low byte |
| Arm.ThumbMovRdRm | src/arch/arm.rs:104-109 | the `mov` pattern, and the low four bits of rd and rm read back |
| Arm.ThumbLdrRdRnImm | src/arch/arm.rs:111-113 | the immediate masked to 5 bits at 10-6; for registers below 8, rn and rd read back |
| Arm.ThumbLdrRdPcImm | src/arch/arm.rs:115-117 | the immediate in the low byte; for a register below 8, the register at bits 10-8 |
| Arm.ThumbCmpRnImm | src/arch/arm.rs:119-121 | the immediate in the low byte; for a register below 8, the register at bits 10-8 |
| Arm.ThumbConstants | src/tests.rs:127-128 | `pop {r0}` is `POP_R0 == 0xBC01` and `mov r8, r8` is `NOP == 0x46C0` |
| Arm.Is32Bit | src/arch/arm.rs:123-125 | holds exactly when the top five bits are `0b11101`, `0b11110` or `0b11111` |
| Arm.InstructionWidthThumb | src/arch/arm.rs:132-139 | 4 exactly when the halfword starts a 32-bit instruction, else 2 |
| Arm.InstructionWidth | src/arch/arm.rs:141-148 | 2 or 4; 4 at an even address; at an odd address the halfword at `addr & !1` decides |
| Arm.InstructionWidthArm | src/arch/arm.rs:128-130 | every ARM-state instruction is 4 bytes |
| ArmProperties.LoadStoreOffsetRoundTrip | src/arch/arm.rs:35-43 | the signed offset read back from a `ldr`/`str` word is the immediate it was built with, whenever `|imm| < 4096` |
| ArmProperties.MovRdRmInjective | src/arch/arm.rs:53-55 | different register pairs give different `mov` words |
| ArmProperties.ThumbMovRdRmInjective | src/arch/arm.rs:104-109 | different register pairs below 16 give different Thumb `mov` halfwords |
| ArmProperties.ThumbBuildersAreNarrow | src/arch/arm.rs:123-125 | no 16-bit Thumb builder's output (nor `POP_R0`, `NOP`) is taken for the first half of a 32-bit instruction |
| ArmProperties.WidthOfThumbNop | src/arch/arm.rs:141-148 | the bytes of a Thumb `nop` count 2 wide at an odd address and 4 at an even one |
| Protection.PageBase | src/memory.rs:108 | the base is a multiple of the page size, at most `addr`, and within one page of it |
| Protection.PageEnd | src/memory.rs:109 | the end of the last page is a page multiple at or after `addr + size`, less than a page beyond it |
| Protection.AlignedSize | src/memory.rs:109 | a multiple of the page size that covers `[addr, addr+size)` with no extra page, and zero exactly for an empty request at a page start |
| Protection.EmptyRange | src/memory.rs:108-109 | the page range is empty exactly when `size == 0` and `addr` is page-aligned |
| Protection.MakeWritable | src/memory.rs:103-124 | one `mprotect` to RWX over the covering pages; success exactly when it returns 0, otherwise "mprotect failed" |
| Protection.MakeExecutable | src/memory.rs:132-150 | one `mprotect` to RX over the covering pages; on success one cache flush over exactly `[addr, addr+size)`, on failure no flush and "mprotect failed" |
| Protection.SameRange | src/memory.rs:107-142 | both protection changes request the same page range |
| Protection.CoverUnique | src/memory.rs:108-109 | any whole-page range that covers a non-empty request within one page is the one computed |
| Protection.StraddlingPatch | src/memory.rs:107-109 | with 4096-byte pages, a 5-byte patch at 0x1FFE requests two pages from 0x1000; an empty request at 0x2000 requests none |
| Disasm.Disassemble | src/disasm.rs:16-33 | no instruction exactly for the null address or a decoder length of 0 or above 15; otherwise the decoder's length (1-15) and report |
| Disasm.Window | src/disasm.rs:23 | the decoder is given at most 15 bytes, and exactly the 15 at the address when memory holds them (an x86 instruction is at most 15 bytes long) |
| Disasm.InstructionLength | src/disasm.rs:36-40 | 0 exactly when there is no instruction, otherwise its length |
| Disasm.IsRipRelative | src/disasm.rs:146-148 | holds exactly when a ModRM byte is present with mod field 00 and rm field 101: the `modrm & 0xC7 == 0x05` test means RIP-relative addressing |
| Disasm.HasModrm | src/disasm.rs:102-104 | `has_modrm` holds exactly when bit 0 of the flag word is set |
| Disasm.HasSib | src/disasm.rs:106-108 | `has_sib` holds exactly when bit 1 of the flag word is set |
| Disasm.HasImm8 | src/disasm.rs:110-112 | `has_imm8` holds exactly when bit 2 of the flag word is set |
| Disasm.HasImm16 | src/disasm.rs:114-116 | `has_imm16` holds exactly when bit 3 of the flag word is set |
| Disasm.HasImm32 | src/disasm.rs:118-120 | `has_imm32` holds exactly when bit 4 of the flag word is set |
| Disasm.HasImm64 | src/disasm.rs:122-124 | `has_imm64` holds exactly when bit 5 of the flag word is set |
| Disasm.HasDisp8 | src/disasm.rs:126-128 | `has_disp8` holds exactly when bit 6 of the flag word is set |
| Disasm.HasDisp16 | src/disasm.rs:130-132 | `has_disp16` holds exactly when bit 7 of the flag word is set |
| Disasm.HasDisp32 | src/disasm.rs:134-136 | `has_disp32` holds exactly when bit 8 of the flag word is set |
| Disasm.IsRelative | src/disasm.rs:138-140 | `is_relative` holds exactly when bit 9 of the flag word is set |
| Disasm.HasError | src/disasm.rs:142-144 | `has_error` holds exactly when bit 12 of the flag word is set |
| Disasm.GettersInOrder | src/disasm.rs:102-144 | the bit list 0-9, 12, read in order, gives `has_modrm`, `has_sib`, `has_imm8` … `is_relative`, `has_error`, the getters in source order |
| Disasm.FlagBitsDistinct | src/disasm.rs:102-144 | the eleven getters read eleven different bits, in increasing order (bits 10 and 11 have no getter) |
| Disasm.OneFlagOneGetter | src/disasm.rs:102-144 | with only getter `k`'s bit set, getter `k` alone answers yes |
| Disasm.TilesPrefix | src/disasm.rs:46-56 | the decoder splits a region one way only: a longer run of whole instructions continues from the end of a shorter one |
| Disasm.TilesExtend | src/disasm.rs:46-56 | a run of whole instructions followed by one more decoded instruction is a longer run |
| Disasm.NoBoundaryInside | src/disasm.rs:46-56 | no run of whole instructions ends strictly inside the instruction that follows a run |
| Disasm.CopyInstructions | src/disasm.rs:42-58 | the copy is the memory at `from`, split into whole decoded instructions; it stops at the first instruction boundary at or past `min_size` (no shorter run of whole instructions reaches `min_size`); shorter than `min_size` only when decoding failed right after it; less than `min_size + 15` long; empty for `min_size == 0` |
| Advanced.NewTrampoline | src/advanced.rs:10-34 | one anonymous mapping; "Failed to allocate trampoline memory" exactly when it fails; otherwise an empty trampoline of the requested capacity at the mapped address |
| Advanced.WriteBytes | src/advanced.rs:42-57 | fails with "Trampoline capacity exceeded" exactly when `len + |bytes| > capacity`, leaving the trampoline as it was; otherwise the contents become `old ++ bytes`; `len <= capacity` is kept |
| Advanced.WriteBytesCopiesIntoRegion | src/advanced.rs:47-53 | a successful write copies the bytes into the mapped region right after the old contents and changes nothing else there |
| Advanced.ThreeNopsIntoFreshTrampoline | src/tests.rs:33-39 | three bytes written into a fresh 256-byte trampoline succeed and give length 3 |
| Advanced.Len | src/advanced.rs:68-70 | the length never exceeds the capacity |
| Advanced.LenCountsWrites | src/advanced.rs:68-70 | `len` counts the bytes written: 0 after `new`, plus the byte count after an accepted `write_bytes`, unchanged after a refused one |
| Advanced.Drop | src/advanced.rs:77-88 | dropping a trampoline unmaps its whole capacity, unless the pointer is null |
| Advanced.Finalize | src/advanced.rs:59-62 | succeeds exactly when `make_executable` does and returns the pointer; on every path the trace ends with the drop's `munmap` |
| Advanced.FinalizeUnmapsReturned | src/advanced.rs:59-62 | a successful `finalize` ends by unmapping the region whose address it returns |
| Advanced.FinalizeRetained | src/advanced.rs:59-62 | the corrected `finalize`: same result, and a successful call issues no `munmap` |
| Advanced.FinalizeRetainedKeepsMapping | src/advanced.rs:59-62 | with the corrected `finalize`, the returned region is never unmapped |
| Advanced.NewInlineHook | src/advanced.rs:97-111 | "Target is null" exactly for a null target; otherwise the captured bytes are `mem[target..target+hook_size)` and there is no trampoline |
| Advanced.Install | src/advanced.rs:113-148 | a null replacement fails before any call; then `make_writable` over the captured length; on failure nothing is written; on x86 exactly the jump bytes are written at the target and the outcome is that of `make_executable` over the jump's length, and the calls issued are exactly the two `mprotect`s (RWX, then RX with its cache flush); elsewhere "not yet implemented" with memory unchanged and only the first `mprotect` issued |
| Advanced.Uninstall | src/advanced.rs:150-164 | `make_writable` first; on success the captured bytes are written back unconditionally, the outcome is that of `make_executable`, and the calls issued are exactly the RWX `mprotect` and then `make_executable`'s over the captured range |
| Advanced.InstallTouchesOnlyJump | src/advanced.rs:124-137 | on x86, installing changes at most the `size_of_jump` bytes at the target |
| Advanced.InstallUninstallRestores | src/advanced.rs:113-164 | with install and uninstall asking the system separately: when the jump fits in the captured bytes, uninstall after install restores memory byte for byte exactly when uninstall's own `make_writable` succeeds, whatever install's outcome; when it fails, what install wrote stays |
| Advanced.RestoreUndoes | src/advanced.rs:153-159 | writing back the saved bytes of a range undoes any change confined to that range |
| Advanced.NewInstallUninstallRestores | src/advanced.rs:97-164 | a hook captured by `new` restores the memory it was captured from after any install, once uninstall's `make_writable` succeeds |
| Advanced.UninstallIdempotent | src/advanced.rs:150-164 | after an uninstall whose `make_writable` succeeded, a second uninstall leaves memory unchanged, whatever its own `mprotect` answers |
| Advanced.ShortCaptureLeavesJumpTail | src/advanced.rs:118-139 | when the capture is shorter than the jump, uninstall leaves the tail of the jump in memory (a concrete instance) |
| Advanced.JumpBack | src/advanced.rs:171-182 | the jump back exists exactly on x86 |
| Advanced.TrampolineCode | src/advanced.rs:169-181 | the trampoline holds the captured bytes followed by the jump back |
| Advanced.BuildTrampoline | src/advanced.rs:169-186 | over capacity: "Trampoline capacity exceeded" and the trampoline is unmapped; otherwise the contents are the captured bytes and jump, and the result follows `make_executable`; the hook records the pointer only on success |
| Advanced.FinishTrampoline | src/advanced.rs:184-186 | the hook records the trampoline exactly when finalisation succeeds |
| Advanced.CreateWith | src/advanced.rs:166-187 | allocation failure is reported with the single `mmap` in the trace; otherwise the build runs with the jump computed for the mapped address |
| Advanced.CreateTrampoline | src/advanced.rs:166-187 | fails with "Trampoline capacity exceeded" exactly when the captured bytes and jump exceed 256; fails with "mprotect failed" when the mapping and capacity allow but `finalize` does not; succeeds exactly when mapping, capacity and protection allow; then the hook holds the returned pointer and the trampoline holds captured bytes plus the jump back; on error the hook is unchanged |
| Advanced.CreateTrampolineUnmapsReturned | src/advanced.rs:184-186 | as written, a successful `create_trampoline` ends by unmapping the trampoline it returns |
| Advanced.CreateTrampolineRetained | src/advanced.rs:166-187 | with the corrected `finalize`: the same result, hook and contents, and the returned trampoline is never unmapped |
| Advanced.BuildSameOutcome | src/advanced.rs:184-186 | the choice of `finalize` changes only the trace |
| Advanced.BuildRetainedDropsOnlyFinalUnmap | src/advanced.rs:184-186 | a successful build differs between the two `finalize`s only in the final `munmap` |
| Chain.Len | src/advanced.rs:230-232 | 0 exactly when the chain holds no hooks |
| Chain.IsEmpty | src/advanced.rs:234-236 | holds exactly when `len` is 0 |
| Chain.NewChain | src/advanced.rs:203-205 | a new chain is empty |
| Chain.AddHook | src/advanced.rs:207-209 | appends the hook and keeps the ones before it |
| Chain.AddHooksCount | src/advanced.rs:207-236 | after adding hooks one by one, the chain holds the old hooks then the new ones in order, `len` grows by their number, and the chain is empty only if it was and none were added |
| Chain.Perform | src/advanced.rs:216-226 | a hook call keeps the memory size and never reports a count mismatch |
| Chain.HookCallWellBehaved | src/advanced.rs:216-226 | calling `install` or `uninstall` through the chain keeps the memory size and never reports a count mismatch |
| Chain.Run | src/advanced.rs:216-219 | calls hooks in order and stops at the first error: a pass means every hook was called; a failure means at least one was |
| Chain.RunAppend | src/advanced.rs:216-219 | a chain run over two lists is the first run, followed by the second only if the first passed |
| Chain.RunStopsAtFirstError | src/advanced.rs:216-219 | a failed run failed at the last hook it called: every earlier hook passed, and the memory is what the failing call left, so no later hook was touched |
| Chain.RunSnoc | src/advanced.rs:216-219 | after a passing run, one more hook is called on the memory it left |
| Chain.RunPrefixFails | src/advanced.rs:216-219 | once a prefix of the chain fails, the hooks after it change nothing |
| Chain.RunInOrder | src/advanced.rs:216-220 | the loop with early return computes exactly the chain run |
| Chain.InstallAll | src/advanced.rs:211-221 | "Hook count mismatch" exactly when the counts differ, with nothing called; otherwise the hooks are installed in order up to the first error |
| Chain.UninstallAll | src/advanced.rs:223-228 | the hooks are uninstalled in order up to the first error |
| Chain.NewChainIsEmpty | src/tests.rs:52-57 | a new chain has length 0 and is empty, and installing one replacement into it reports a count mismatch |
| Hex.DigitChar | src/debug.rs:45 | the lowercase digit printed for a value below 16 reads back as that value |
| Hex.ToHex | src/debug.rs:43 | lowercase hex digits, at least one, with a leading zero only for 0 |
| Hex.ToHexRoundTrip | src/debug.rs:43 | the printed digits read back as the number |
| Hex.LeadingZeros | src/utils.rs:41 | leading zeros do not change the value |
| Hex.PadHex | src/debug.rs:43 | lowercase digits, zero-padded to at least the width, that read back as the number |
| Hex.CaseInsensitive | src/utils.rs:41 | the digit set and the value ignore letter case |
| Utils.FromStrRadix16 | src/utils.rs:41 | empty text and a lone sign are rejected; one leading `+` is allowed; a result is the value of the hex digits after it |
| Utils.FromStrRadix16RejectsStray | src/utils.rs:41 | any character other than a hex digit or one leading `+` makes the parse fail |
| Utils.ParseRadix16 | src/utils.rs:41 | the digit-by-digit parse with checked multiply-add computes exactly the parse |
| Utils.FromStrRadix16RoundTrip | src/utils.rs:41 | printed digits, after any leading zeros and an optional `+`, parse back to the number |
| Utils.DigitsParse | src/utils.rs:41 | hex digits whose value is below 2^64 parse to that value, with or without a leading `+` |
| Utils.Parses1A | src/utils.rs:41 | "1a" and "1A" both parse to 26 |
| Utils.FromStrRadix16IgnoresCase | src/utils.rs:41 | texts equal up to letter case parse the same |
| Utils.FromStrRadix16Overflow | src/utils.rs:41 | a value of 2^64 or more is rejected |
| Utils.TrimStartMatches | src/utils.rs:40 | the result is no longer than the input and no longer starts with the pattern |
| Utils.TrimRemovesCopies | src/utils.rs:40 | what is removed is a whole number of copies of the pattern |
| Utils.StringToOffset | src/utils.rs:39-42 | the text left after both strips does not start with `0X`, and the result is `Some` exactly when that remainder parses, with its value |
| Utils.StringToOffsetStrips | src/utils.rs:39-42 | for every remainder the strips cannot reach into, any number of `0x` followed by any number of `0X` in front of it give exactly the parse of the remainder |
| Utils.TrimCopies | src/utils.rs:40 | stripping `n` copies of the pattern from text that does not start with it gives that text |
| Utils.StringToOffsetRoundTrip | src/utils.rs:39-42 | printed digits read back as the number bare, behind `0x` and behind `0X` |
| Utils.StringToOffsetExamples | src/utils.rs:39-42 | "0x1A", "0X1a" and "1a" all give 26 |
| Utils.StringToOffsetEmpty | src/utils.rs:39-42 | "", "0x" and "0x0x" give no number |
| Utils.StripOrder | src/utils.rs:40 | "0x0X10" gives 16 but "0X0x10" gives none |
| Utils.BeforeDash | src/utils.rs:13 | the longest dash-free prefix of the line |
| Utils.FindLibrary | src/utils.rs:6-20 | no mentioning line gives none; otherwise the first mentioning line alone decides, by parsing its text before the first `-` |
| Utils.FindLibraryRoundTrip | src/utils.rs:10-14 | a line starting with a printed base address and a `-` yields that base |
| Utils.GetAbsoluteAddress | src/utils.rs:22-25 | a result exactly when the library is found, and it is the base plus the offset (subtracting the offset gives the base back) |
| HexDump.Chunks | src/debug.rs:42 | `ceil(n/16)` pieces, each 1 to 16 bytes |
| HexDump.ChunkAt | src/debug.rs:42 | piece `i` is `data[16i .. min(16i+16, n))` |
| HexDump.ChunksFlatten | src/debug.rs:42 | the pieces joined are the data |
| HexDump.ByteHex | src/debug.rs:45 | two lowercase digits that read back as the byte |
| HexDump.AsciiChar | src/debug.rs:52-56 | a byte in `0x20..0x80` prints as itself (0x7F included), any other as `.` |
| HexDump.Cell | src/debug.rs:44-46 | two digits and a space |
| HexDump.AsciiColumn | src/debug.rs:51-58 | one character per byte |
| HexDump.Lines | src/debug.rs:42-60 | `ceil(n/16)` lines, line `i` at offset `16i` over piece `i` |
| HexDump.DumpEmpty | src/debug.rs:42 | empty input prints nothing |
| HexDump.HexColumnReadsBack | src/debug.rs:44-46 | cell `k` of the hex column is byte `k`'s |
| HexDump.HexFieldLayout | src/debug.rs:44-49 | the hex field is always 48 wide: each byte's digits and a space, then three spaces per missing byte |
| HexDump.OffsetFieldLayout | src/debug.rs:43 | the offset field is at least four lowercase hex digits that read back as the offset, followed by ": " |
| HexDump.AsciiFieldLayout | src/debug.rs:50-59 | `" |"`, each byte's character, then `"|"` |
| HexDump.OneNewlinePerLine | src/debug.rs:43-59 | a line holds one newline, at its end |
| HexDump.Dump | src/debug.rs:41-61 | `print_hex` prints the lines of `Lines` back to back: `ceil(n/16)` lines (one newline each), and nothing at all exactly for empty data |
| HexDump.DumpAppendLine | src/debug.rs:41-61 | the dump grows in order: one more piece after a 16-byte boundary appends exactly that piece's line, at its offset |
| HexDump.TwoLines | src/debug.rs:42-49 | 20 bytes print as a full line and a 4-byte line |
| HexDump.OffsetsOfTwoLines | src/debug.rs:43 | offsets 0 and 16 print as `0000` and `0010` |

## Design notes

The model follows the code where the two could be read differently.

- `uninstall` keeps no record of whether the hook is installed. It always
  writes the captured bytes back once the range is writable, so a second
  call after a successful one is harmless (`Advanced.UninstallIdempotent`).
- Install and uninstall each ask the system for their own `mprotect`. The
  restore property therefore holds only when uninstall's own
  `make_writable` succeeds; if it fails, the jump stays in memory.
- `install` is not atomic. If `make_executable` fails after the jump is
  written, the bytes stay written and the error is returned.
- `install` never checks that the jump fits in the captured bytes.
  `make_writable` covers the captured length, but the write covers the
  jump's length. The restore property therefore needs
  `size_of_jump <= hook_size` as a hypothesis. Without it, uninstall leaves
  the tail of the jump behind (`Advanced.ShortCaptureLeavesJumpTail`).
- `uninstall_all` stops at the first error, like `install_all`.
- `find_library` returns the parse of the first line that mentions the
  library, even when that parse fails; it does not look further.
- In `string_to_offset` the two strips run in a fixed order. `0X0x…` is not
  accepted (`Utils.StripOrder`).
- `usize::from_str_radix` accepts one leading `+` and refuses a lone sign.

## Left out

- The thin FFI wrappers over the C Substrate library (`lib.rs`, `hook.rs`,
  `symbol.rs`, `image.rs`, `ios.rs`, `and64.rs`, `android.rs`, `ffi.rs`),
  the `Process` / `Memory` handles of `memory.rs`, and the macros of
  `macros.rs`: their only logic is a null check before a foreign call.
- The build script and the example programs.
- `hde64_disasm` and the x86 `get_instruction_width`: foreign C code. The
  decoder is the parameter `Decoder`, and nothing is assumed about its
  answers.
- `mmap`, `munmap`, `mprotect`, `sysconf` and `__clear_cache` are not
  executed. Their results come from the `Os` value, and the calls appear
  only as effects in the returned trace.
- Reading `/proc/self/maps`: the lines are a parameter, and a line that
  fails to read is taken as absent. `is_library_loaded` and
  `wait_for_library` (file reads and thread sleeps) are not modelled.
- `Debug::enable` / `disable` / `is_enabled` (a foreign global) and
  `print_memory` (raw reads, `{:p}` formatting) are not modelled;
  `print_hex` returns its text instead of printing it.
- `Trampoline::as_ptr` and `is_empty`, `InlineHook::original_bytes` and
  `trampoline`: plain field reads, visible directly as datatype fields.
- Non-unix builds: the `cfg(not(unix))` branches of `Trampoline::new`,
  `make_writable` and `make_executable` return "Unsupported platform"
  (`Common.UnsupportedPlatform`) without touching memory; the model
  describes a unix build only.
- Concurrency (`Send` / `Sync`) and what the CPU does with the emitted
  bytes. In particular `68 imm32` sign-extends on x64, so the model states
  which bytes are written, never that the pushed value is the target.
- `Vec` capacity growth: a trampoline's capacity is fixed, as the code
  never exceeds it.
- Arm.AbsI32: `i32::abs` of `i32::MIN` panics in a debug build; the model
  gives the release-build wrapping result, and `Arm.LdrRdRnImm` /
  `Arm.StrRdRnImm` state their read-back only for `|imm| < 4096`, because
  the code does not mask the offset.
- Utils.GetAbsoluteAddress: `lib_base + relative_addr` panics on overflow
  in a debug build; the model wraps, as a release build does.
- Protection.MakeWritable: `RangeOk` requires `addr + size >= 1` (the code
  underflows at `addr = size = 0`) and keeps the range a page below 2^64 so
  the rounding cannot overflow; this is slightly stronger than needed.
- Protection.MakeExecutable: the same `RangeOk` requires, for the same
  reason; `Protection.PageEnd`, `Protection.AlignedSize` and
  `Protection.SameRange` carry it too.
- Advanced.Finalize: the same `RangeOk` requires over the written bytes,
  through `make_executable`; so do `Advanced.FinalizeRetained` and the
  lemmas about the two.
- Advanced.Uninstall: the same `RangeOk` requires over the captured bytes,
  through `make_writable`.
- Advanced.Install: requires the patched range and the jump to lie in the
  modelled memory and satisfy `RangeOk`; the code reads and writes raw
  pointers unchecked.
- Chain.InstallAll and Chain.UninstallAll: a hook that does not lie in the
  modelled memory is treated as one whose `mprotect` is refused (both go
  through the same per-hook call); the code would touch unmapped memory
  instead.
- X86.WriteSkip, X86.WritePushPointer, X86.WriteJumpAddress,
  X86.WriteCallAddress, X86.WritePop, X86.WritePush, X86.WriteCallRegister,
  X86.WriteJumpRegister, X86.WriteAdd, X86.WriteSet64 and X86.WriteMove64:
  require the buffer to hold the bytes written at `offset`; the code panics
  on an out-of-bounds slice index instead.
- Advanced.CreateTrampoline: requires a sane `Os` (`mmap` returns a
  non-null address in the lower half of the address space) and
  `target + hook_size < 2^63`, so the address sums cannot wrap.
- Disasm.CopyInstructions: requires `from + min_size + 14` to lie in the
  modelled memory, so every byte the loop may read exists.

## Findings

| source | as written | input that shows it | evidently intended | confidence | as-written member | corrected member |
|---|---|---|---|---|---|---|
| src/advanced.rs:59-62 | `finalize(self)` consumes the trampoline, so `Drop` runs at the end of `finalize` and `munmap`s the region whose pointer it returns | any trampoline at a non-null address whose `make_executable` succeeds | the region stays mapped on success and is released only on failure | high (not executed) | Advanced.FinalizeUnmapsReturned | Advanced.FinalizeRetainedKeepsMapping |
| src/advanced.rs:184-186 | `create_trampoline` stores and returns the pointer from `finalize`, whose region has just been unmapped | any hook whose trampoline fits in 256 bytes, with `mmap` and `mprotect` succeeding | the hook records a live, executable trampoline | high (not executed) | Advanced.CreateTrampolineUnmapsReturned | Advanced.CreateTrampolineRetained |
