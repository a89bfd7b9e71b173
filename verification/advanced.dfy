/** The inline-hook engine proper: the trampoline buffer, a single hook's
    capture / patch / restore cycle, and a chain of hooks installed and
    removed in order.

    Process memory is a byte sequence indexed by address (address 0 is null).
    A trampoline's mapped region is its own byte sequence, since `mmap` hands
    out memory the rest of the process does not see. Every operation returns
    the system calls it issued (see `Protection.Effect`). */
module Advanced {
  import opened Common
  import opened X86
  import opened Protection

  /** The target the engine is compiled for: x86 (32- or 64-bit) or any
      other architecture, where inline patching is not implemented. */
  datatype Arch = X86Arch(is32: bool) | OtherArch

  /** What the engine relies on from the operating system: a page size, and
      `mmap` returning a non-null mapping in the lower half of the address
      space (user space on x86-64). */
  ghost predicate SaneOs(os: Os)
  {
    && 0 < os.pageSize < TWO63
    && forall len: U64 :: os.mapAnon(len).Some? ==>
         0 < os.mapAnon(len).value && os.mapAnon(len).value + len < TWO63
  }

  // ---------------------------------------------------------------------
  // Trampoline

  /** `Trampoline`: the logical contents `code` (a `Vec` created with
      `capacity`), and the mapped region at `ptr` they are copied into. */
  datatype Trampoline = Trampoline(code: seq<bv8>, capacity: U64, ptr: U64, region: seq<bv8>)

  /** The contents fit the capacity and the region holds them. */
  predicate Valid(t: Trampoline)
  {
    |t.code| <= t.capacity && |t.region| == t.capacity && t.region[..|t.code|] == t.code
  }

  /** A fallible call that may produce a trampoline. */
  datatype Made = Made(result: Result<Trampoline>, effects: seq<Effect>)

  /** A `&mut self` update: the new state and the call's outcome. */
  datatype Updated = Updated(tramp: Trampoline, outcome: Outcome)

  /** `Trampoline::new`: one anonymous mapping of `capacity` bytes. */
  function NewTrampoline(os: Os, capacity: U64): (m: Made)
    ensures m.effects == [MapAnon(capacity)]
    ensures m.result.Err? <==> os.mapAnon(capacity).None?
    ensures m.result.Err? ==> m.result.error == AllocationFailed
    ensures m.result.Ok? ==>
      && Valid(m.result.value)
      && m.result.value.code == []
      && m.result.value.capacity == capacity
      && m.result.value.ptr == os.mapAnon(capacity).value
  {
    match os.mapAnon(capacity)
    case None => Made(Err(AllocationFailed), [MapAnon(capacity)])
    case Some(ptr) => Made(Ok(Trampoline([], capacity, ptr, Zeros(capacity))), [MapAnon(capacity)])
  }

  /** `Trampoline::write_bytes`: appends within the capacity, or fails and
      leaves the trampoline as it was. */
  function WriteBytes(t: Trampoline, bytes: seq<bv8>): (u: Updated)
    requires Valid(t)
    ensures Valid(u.tramp)
    ensures u.outcome.Fail? <==> |t.code| + |bytes| > t.capacity
    ensures u.outcome.Fail? ==> u.outcome.error == CapacityExceeded && u.tramp == t
    ensures u.outcome.Pass? ==>
      && u.tramp.code == t.code + bytes
      && u.tramp.capacity == t.capacity && u.tramp.ptr == t.ptr
  {
    if |t.code| + |bytes| > t.capacity then
      Updated(t, Fail(CapacityExceeded))
    else
      var region := Splice(t.region, |t.code|, bytes);
      assert region[..|t.code| + |bytes|] == t.code + bytes;
      Updated(Trampoline(t.code + bytes, t.capacity, t.ptr, region), Pass)
  }

  /** A successful write copies the bytes into the mapped region right after
      the previous contents, and changes nothing else there. */
  lemma WriteBytesCopiesIntoRegion(t: Trampoline, bytes: seq<bv8>)
    requires Valid(t) && |t.code| + |bytes| <= t.capacity
    ensures var r := WriteBytes(t, bytes).tramp.region;
      && r[|t.code|..|t.code| + |bytes|] == bytes
      && ChangedOnly(t.region, r, |t.code|, |bytes|)
  {
  }

  /** The unit test's write: three `nop`s into a fresh 256-byte trampoline
      succeed and leave its length at 3. */
  lemma ThreeNopsIntoFreshTrampoline(os: Os)
    requires os.mapAnon(256).Some?
    ensures var t := NewTrampoline(os, 256).result.value;
      var u := WriteBytes(t, [0x90, 0x90, 0x90]);
      u.outcome == Pass && Len(u.tramp) == 3
  {
  }

  /** `Trampoline::len` */
  function Len(t: Trampoline): (n: nat)
    requires Valid(t)
    ensures n <= t.capacity
  {
    |t.code|
  }

  /** `len` counts the bytes written: a new trampoline has length 0, an
      accepted write adds its length, and a refused write changes nothing. */
  lemma LenCountsWrites(os: Os, capacity: U64, t: Trampoline, bytes: seq<bv8>)
    requires Valid(t)
    ensures os.mapAnon(capacity).Some? ==> Len(NewTrampoline(os, capacity).result.value) == 0
    ensures var u := WriteBytes(t, bytes);
      && (u.outcome.Pass? ==> Len(u.tramp) == Len(t) + |bytes|)
      && (u.outcome.Fail? ==> Len(u.tramp) == Len(t))
  {
  }

  /** `Drop for Trampoline`: unmap the whole capacity unless the pointer is null. */
  function Drop(t: Trampoline): (effects: seq<Effect>)
    ensures t.ptr != 0 ==> effects == [Unmap(t.ptr, t.capacity)]
    ensures t.ptr == 0 ==> effects == []
  {
    if t.ptr != 0 then [Unmap(t.ptr, t.capacity)] else []
  }

  /** The outcome of finalising: the pointer, and the calls issued. */
  datatype Finalized = Finalized(result: Result<U64>, effects: seq<Effect>)

  /** `Trampoline::finalize(self)`, as written: make the written part
      executable and return the pointer. `self` is consumed, so it is
      dropped on the way out on every path, and its region is unmapped. */
  function Finalize(os: Os, t: Trampoline): (f: Finalized)
    requires RangeOk(os.pageSize, t.ptr, |t.code|)
    ensures f.result.Ok? <==> MakeExecutable(os, t.ptr, |t.code|).outcome == Pass
    ensures f.result.Ok? ==> f.result.value == t.ptr
    ensures f.result.Err? ==> f.result.error == MprotectFailed
    ensures f.effects == MakeExecutable(os, t.ptr, |t.code|).effects + Drop(t)
  {
    var x := MakeExecutable(os, t.ptr, |t.code|);
    match x.outcome
    case Pass => Finalized(Ok(t.ptr), x.effects + Drop(t))
    case Fail(e) => Finalized(Err(e), x.effects + Drop(t))
  }

  /** The corrected `finalize`: on success the region is handed to
      the caller and stays mapped; only a failed finalisation releases it. */
  function FinalizeRetained(os: Os, t: Trampoline): (f: Finalized)
    requires RangeOk(os.pageSize, t.ptr, |t.code|)
    ensures f.result.Ok? <==> MakeExecutable(os, t.ptr, |t.code|).outcome == Pass
    ensures f.result.Ok? ==> f.result.value == t.ptr
    ensures f.result.Ok? ==> f.effects == MakeExecutable(os, t.ptr, |t.code|).effects
    ensures f.result.Err? ==> f.effects == MakeExecutable(os, t.ptr, |t.code|).effects + Drop(t)
  {
    var x := MakeExecutable(os, t.ptr, |t.code|);
    match x.outcome
    case Pass => Finalized(Ok(t.ptr), x.effects)
    case Fail(e) => Finalized(Err(e), x.effects + Drop(t))
  }

  /** No effect in the trace releases the mapping at `ptr`. */
  predicate NoUnmapOf(effects: seq<Effect>, ptr: U64)
  {
    forall i :: 0 <= i < |effects| ==> !(effects[i].Unmap? && effects[i].addr == ptr)
  }

  /** As written, a successful `finalize` ends by unmapping the very region
      whose address it returns. */
  lemma FinalizeUnmapsReturned(os: Os, t: Trampoline)
    requires t.ptr != 0 && RangeOk(os.pageSize, t.ptr, |t.code|)
    requires Finalize(os, t).result.Ok?
    ensures var f := Finalize(os, t);
      |f.effects| >= 1 && f.effects[|f.effects| - 1] == Unmap(f.result.value, t.capacity)
  {
  }

  /** With the corrected `finalize`, the returned region is never unmapped. */
  lemma FinalizeRetainedKeepsMapping(os: Os, t: Trampoline)
    requires RangeOk(os.pageSize, t.ptr, |t.code|)
    requires FinalizeRetained(os, t).result.Ok?
    ensures NoUnmapOf(FinalizeRetained(os, t).effects, t.ptr)
  {
  }

  // ---------------------------------------------------------------------
  // InlineHook

  /** `InlineHook`: the patched address, the bytes captured there, and the
      trampoline built for it, if any. */
  datatype InlineHook = InlineHook(target: U64, originalBytes: seq<bv8>, trampoline: Option<U64>)

  /** A patch of process memory: the new memory, the outcome, and the calls. */
  datatype Patched = Patched(mem: seq<bv8>, outcome: Outcome, effects: seq<Effect>)

  /** `InlineHook::new`: refuses the null target; otherwise captures
      `hook_size` bytes at the target. */
  function NewInlineHook(mem: seq<bv8>, target: U64, hookSize: U64): (r: Result<InlineHook>)
    requires target != 0 ==> target + hookSize <= |mem|
    ensures r.Err? <==> target == 0
    ensures r.Err? ==> r.error == TargetNull
    ensures r.Ok? ==>
      && r.value.target == target
      && r.value.originalBytes == mem[target..target + hookSize]
      && r.value.trampoline == None
  {
    if target == 0 then Err(TargetNull)
    else Ok(InlineHook(target, mem[target..target + hookSize], None))
  }

  /** What the source leaves unchecked but needs: the hook sits in
      addressable memory, its protection ranges neither underflow nor
      overflow, and on x86 the jump to `replacement` lies in memory too. */
  predicate HookFits(arch: Arch, os: Os, memLen: nat, h: InlineHook, replacement: U64)
  {
    && h.target != 0
    && h.target + |h.originalBytes| <= memLen
    && RangeOk(os.pageSize, h.target, |h.originalBytes|)
    && (arch.X86Arch? ==>
          && h.target + 5 < TWO64
          && h.target + SizeOfJump(arch.is32, replacement, h.target) <= memLen
          && RangeOk(os.pageSize, h.target, SizeOfJump(arch.is32, replacement, h.target)))
  }

  /** Whether `make_writable` over the captured range succeeds. */
  predicate WritableOk(os: Os, h: InlineHook)
    requires RangeOk(os.pageSize, h.target, |h.originalBytes|)
  {
    MakeWritable(os, h.target, |h.originalBytes|).outcome == Pass
  }

  /** `InlineHook::install`. A null replacement is refused before any call.
      Then the captured range is made writable, and on x86 the jump is written
      over the target and that many bytes are made executable. Elsewhere the
      call fails after the protection change. */
  function Install(arch: Arch, os: Os, mem: seq<bv8>, h: InlineHook, replacement: U64): (p: Patched)
    requires HookFits(arch, os, |mem|, h, replacement)
    ensures |p.mem| == |mem|
    ensures replacement == 0 ==> p == Patched(mem, Fail(ReplacementNull), [])
    ensures replacement != 0 ==>
      |p.effects| >= 1 && p.effects[..1] == MakeWritable(os, h.target, |h.originalBytes|).effects
    ensures replacement != 0 && !WritableOk(os, h) ==>
      p == Patched(mem, Fail(MprotectFailed), MakeWritable(os, h.target, |h.originalBytes|).effects)
    ensures replacement != 0 && WritableOk(os, h) && arch.OtherArch? ==>
      && p.mem == mem && p.outcome == Fail(UnsupportedArchitecture)
      && p.effects == MakeWritable(os, h.target, |h.originalBytes|).effects
    ensures replacement != 0 && WritableOk(os, h) && arch.X86Arch? ==>
      && p.mem == Splice(mem, h.target, JumpCode(arch.is32, replacement, h.target))
      && p.outcome == MakeExecutable(os, h.target, SizeOfJump(arch.is32, replacement, h.target)).outcome
      && p.effects == MakeWritable(os, h.target, |h.originalBytes|).effects
                      + MakeExecutable(os, h.target, SizeOfJump(arch.is32, replacement, h.target)).effects
  {
    if replacement == 0 then
      Patched(mem, Fail(ReplacementNull), [])
    else
      var w := MakeWritable(os, h.target, |h.originalBytes|);
      if w.outcome.Fail? then
        Patched(mem, w.outcome, w.effects)
      else
        match arch
        case OtherArch => Patched(mem, Fail(UnsupportedArchitecture), w.effects)
        case X86Arch(is32) =>
          var code := JumpCode(is32, replacement, h.target);
          var x := MakeExecutable(os, h.target, |code|);
          Patched(Splice(mem, h.target, code), x.outcome, w.effects + x.effects)
  }

  /** `InlineHook::uninstall`: no lifecycle state is kept, so it always writes
      the captured bytes back once the range is writable. */
  function Uninstall(os: Os, mem: seq<bv8>, h: InlineHook): (p: Patched)
    requires h.target + |h.originalBytes| <= |mem|
    requires RangeOk(os.pageSize, h.target, |h.originalBytes|)
    ensures |p.mem| == |mem|
    ensures |p.effects| >= 1 && p.effects[..1] == MakeWritable(os, h.target, |h.originalBytes|).effects
    ensures !WritableOk(os, h) ==>
      p == Patched(mem, Fail(MprotectFailed), MakeWritable(os, h.target, |h.originalBytes|).effects)
    ensures WritableOk(os, h) ==>
      && p.mem == Splice(mem, h.target, h.originalBytes)
      && p.outcome == MakeExecutable(os, h.target, |h.originalBytes|).outcome
      && p.effects == MakeWritable(os, h.target, |h.originalBytes|).effects
                      + MakeExecutable(os, h.target, |h.originalBytes|).effects
  {
    var w := MakeWritable(os, h.target, |h.originalBytes|);
    if w.outcome.Fail? then
      Patched(mem, w.outcome, w.effects)
    else
      var x := MakeExecutable(os, h.target, |h.originalBytes|);
      Patched(Splice(mem, h.target, h.originalBytes), x.outcome, w.effects + x.effects)
  }

  /** Installing changes at most the jump's bytes at the target. */
  lemma InstallTouchesOnlyJump(arch: Arch, os: Os, mem: seq<bv8>, h: InlineHook, replacement: U64)
    requires HookFits(arch, os, |mem|, h, replacement) && arch.X86Arch?
    ensures ChangedOnly(mem, Install(arch, os, mem, h, replacement).mem,
                        h.target, SizeOfJump(arch.is32, replacement, h.target))
  {
  }

  /** When the jump fits inside the captured bytes, uninstall after install
      restores memory byte for byte whenever uninstall's own `make_writable`
      succeeds, whatever install's outcome; when it fails, whatever install
      wrote stays. The two calls ask the system separately (`os`, `os'`). */
  lemma InstallUninstallRestores(arch: Arch, os: Os, os': Os, mem: seq<bv8>, h: InlineHook, replacement: U64)
    requires HookFits(arch, os, |mem|, h, replacement)
    requires RangeOk(os'.pageSize, h.target, |h.originalBytes|)
    requires mem[h.target..h.target + |h.originalBytes|] == h.originalBytes
    requires arch.X86Arch? ==> SizeOfJump(arch.is32, replacement, h.target) <= |h.originalBytes|
    ensures var installed := Install(arch, os, mem, h, replacement).mem;
      && (WritableOk(os', h) ==> Uninstall(os', installed, h).mem == mem)
      && (!WritableOk(os', h) ==> Uninstall(os', installed, h).mem == installed)
  {
    var installed := Install(arch, os, mem, h, replacement).mem;
    if arch.X86Arch? && replacement != 0 && WritableOk(os, h) {
      InstallTouchesOnlyJump(arch, os, mem, h, replacement);
    }
    assert ChangedOnly(mem, installed, h.target, |h.originalBytes|);
    if WritableOk(os', h) {
      RestoreUndoes(mem, installed, h.target, h.originalBytes);
    }
  }

  /** Writing back the bytes a range held undoes any change confined to it. */
  lemma RestoreUndoes(mem: seq<bv8>, changed: seq<bv8>, offset: nat, saved: seq<bv8>)
    requires offset + |saved| <= |mem|
    requires mem[offset..offset + |saved|] == saved
    requires ChangedOnly(mem, changed, offset, |saved|)
    ensures Splice(changed, offset, saved) == mem
  {
    var restored := Splice(changed, offset, saved);
    forall i | 0 <= i < |mem|
      ensures restored[i] == mem[i]
    {
      if offset <= i < offset + |saved| {
        assert restored[i] == saved[i - offset];
      }
    }
  }

  /** A hook captured from memory restores that memory after any install,
      once uninstall's `make_writable` succeeds. */
  lemma NewInstallUninstallRestores(arch: Arch, os: Os, os': Os, mem: seq<bv8>, target: U64, hookSize: U64, replacement: U64)
    requires target != 0 && target + hookSize <= |mem|
    requires HookFits(arch, os, |mem|, NewInlineHook(mem, target, hookSize).value, replacement)
    requires RangeOk(os'.pageSize, target, hookSize)
    requires arch.X86Arch? ==> SizeOfJump(arch.is32, replacement, target) <= hookSize
    ensures var h := NewInlineHook(mem, target, hookSize).value;
      WritableOk(os', h) ==> Uninstall(os', Install(arch, os, mem, h, replacement).mem, h).mem == mem
  {
    InstallUninstallRestores(arch, os, os', mem, NewInlineHook(mem, target, hookSize).value, replacement);
  }

  /** Once an uninstall has written the captured bytes back, a second one,
      whatever its own `mprotect` answers, leaves memory as it is. A first
      call that failed wrote nothing, so nothing is promised after it. */
  lemma UninstallIdempotent(os: Os, os': Os, mem: seq<bv8>, h: InlineHook)
    requires h.target + |h.originalBytes| <= |mem|
    requires RangeOk(os.pageSize, h.target, |h.originalBytes|)
    requires RangeOk(os'.pageSize, h.target, |h.originalBytes|)
    ensures var once := Uninstall(os, mem, h);
      WritableOk(os, h) ==> Uninstall(os', once.mem, h).mem == once.mem
  {
    var once := Uninstall(os, mem, h);
    if WritableOk(os, h) && WritableOk(os', h) {
      var twice := Splice(once.mem, h.target, h.originalBytes);
      assert twice == once.mem;
    }
  }

  /** When the hook captured fewer bytes than the jump needs, uninstall
      leaves the tail of the jump in place: a two-byte capture at 0x10 in
      memory filled with `int3` (0xCC), patched with a five-byte near jump to
      0x18, leaves the jump's displacement byte 0x00 at 0x12 for good. */
  lemma ShortCaptureLeavesJumpTail()
    ensures var os := Os(4096, (b, l, p) => true, n => None);
      var mem := seq(0x20, _ => 0xCC);
      var h := InlineHook(0x10, [0xCC, 0xCC], None);
      && HookFits(X86Arch(false), os, |mem|, h, 0x18)
      && SizeOfJump(false, 0x18, 0x10) == 5
      && Uninstall(os, Install(X86Arch(false), os, mem, h, 0x18).mem, h).mem[0x12] == 0x00
      && mem[0x12] == 0xCC
  {
    var os := Os(4096, (b, l, p) => true, n => None);
    var mem: seq<bv8> := seq(0x20, _ => 0xCC);
    var h := InlineHook(0x10, [0xCC, 0xCC], None);
    JumpEightAhead();
    var code := JumpCode(false, 0x18, 0x10);
    var installed := Install(X86Arch(false), os, mem, h, 0x18).mem;
    assert installed[0x12] == code[2];
  }

  /** The jump from 0x10 to 0x18 is the near form `E9 03 00 00 00`; its
      third byte is 0x00. */
  lemma JumpEightAhead()
    ensures SizeOfJump(false, 0x18, 0x10) == 5
    ensures |JumpCode(false, 0x18, 0x10)| == 5
    ensures JumpCode(false, 0x18, 0x10)[2] == 0x00
  {
    assert Is32BitOffset(0x18, 0x15);
    var code := JumpCode(false, 0x18, 0x10);
    assert code == SkipCode(3);
    assert code[2] == LE32(3)[1];
    ThreeHasZeroSecondByte();
  }

  lemma ThreeHasZeroSecondByte()
    ensures LE32(3)[1] == 0x00
  {
    assert LE32(3) == LittleEndian(3, 4);
    assert LittleEndian(3, 4)[1] == LittleEndian(0, 3)[0] == LowByte(0);
  }

  // ---------------------------------------------------------------------
  // Trampoline for a hook

  /** The outcome of `create_trampoline`: the updated hook, the pointer, the
      contents the trampoline held when it was finalised, and the calls. */
  datatype Created = Created(hook: InlineHook, result: Result<U64>, code: seq<bv8>, effects: seq<Effect>)

  const TRAMPOLINE_CAPACITY: U64 := 256

  /** The jump `create_trampoline` appends after the captured bytes of a
      trampoline at `ptr`: on x86, from the first byte after the copy back to
      the first byte after the capture; elsewhere that code is compiled out. */
  function JumpBack(arch: Arch, h: InlineHook, ptr: U64): (j: Option<seq<bv8>>)
    requires h.target + |h.originalBytes| < TWO63 && ptr + 5 < TWO63
    ensures j.None? <==> arch.OtherArch?
  {
    var n := |h.originalBytes|;
    match arch
    case OtherArch => None
    case X86Arch(is32) => Some(JumpCode(is32, h.target + n, ptr + n))
  }

  /** The bytes a trampoline holds once filled: the captured instructions,
      then the jump back, if any. */
  function TrampolineCode(h: InlineHook, jump: Option<seq<bv8>>): (code: seq<bv8>)
    ensures |code| >= |h.originalBytes| && code[..|h.originalBytes|] == h.originalBytes
    ensures jump.None? ==> code == h.originalBytes
    ensures jump.Some? ==> code[|h.originalBytes|..] == jump.value
  {
    match jump
    case None => h.originalBytes
    case Some(j) =>
      assert (h.originalBytes + j)[|h.originalBytes|..] == j;
      h.originalBytes + j
  }

  /** The filled trampoline fits in its 256 bytes. */
  predicate TrampolineFits(h: InlineHook, jump: Option<seq<bv8>>)
  {
    |TrampolineCode(h, jump)| <= TRAMPOLINE_CAPACITY
  }

  /** The part of `create_trampoline` after allocation, for a given jump
      back and either `finalize` (`retain` selects the corrected one): copy
      the captured bytes, then the jump, then finalise. */
  function BuildTrampoline(os: Os, h: InlineHook, t: Trampoline, jump: Option<seq<bv8>>, retain: bool): (c: Created)
    requires 0 < os.pageSize < TWO63
    requires Valid(t) && t.code == [] && t.capacity == TRAMPOLINE_CAPACITY
    requires 0 < t.ptr && t.ptr + TRAMPOLINE_CAPACITY < TWO63
    ensures c.result.Err? ==> c.hook == h
    ensures !TrampolineFits(h, jump) ==>
      c == Created(h, Err(CapacityExceeded), [], [Unmap(t.ptr, TRAMPOLINE_CAPACITY)])
    ensures TrampolineFits(h, jump) ==>
      && c.code == TrampolineCode(h, jump)
      && RangeOk(os.pageSize, t.ptr, |c.code|)
      && (c.result.Ok? <==> MakeExecutable(os, t.ptr, |c.code|).outcome == Pass)
      && (c.result.Err? ==> c.result.error == MprotectFailed)
      && (c.result.Ok? ==> c.result.value == t.ptr && c.hook == h.(trampoline := Some(t.ptr)))
      && c.effects == MakeExecutable(os, t.ptr, |c.code|).effects +
           (if retain && c.result.Ok? then [] else [Unmap(t.ptr, TRAMPOLINE_CAPACITY)])
  {
    var u1 := WriteBytes(t, h.originalBytes);
    if u1.outcome.Fail? then
      Created(h, Err(u1.outcome.error), [], Drop(t))
    else
      var t1 := u1.tramp;
      assert t1.code == h.originalBytes;
      match jump
      case None => FinishTrampoline(os, h, t1, retain)
      case Some(j) =>
        var u2 := WriteBytes(t1, j);
        if u2.outcome.Fail? then
          Created(h, Err(u2.outcome.error), [], Drop(t1))
        else
          FinishTrampoline(os, h, u2.tramp, retain)
  }

  /** The last step of `create_trampoline`: finalise the filled trampoline
      and, on success, record its address in the hook. */
  function FinishTrampoline(os: Os, h: InlineHook, t: Trampoline, retain: bool): (c: Created)
    requires 0 < os.pageSize < TWO63 && Valid(t) && t.capacity == TRAMPOLINE_CAPACITY
    requires 0 < t.ptr && t.ptr + TRAMPOLINE_CAPACITY < TWO63
    ensures RangeOk(os.pageSize, t.ptr, |t.code|)
    ensures c.code == t.code
    ensures c.result.Ok? <==> MakeExecutable(os, t.ptr, |t.code|).outcome == Pass
    ensures c.result.Err? ==> c.result.error == MprotectFailed && c.hook == h
    ensures c.result.Ok? ==> c.result.value == t.ptr && c.hook == h.(trampoline := Some(t.ptr))
    ensures c.effects == MakeExecutable(os, t.ptr, |t.code|).effects +
      (if retain && c.result.Ok? then [] else [Unmap(t.ptr, TRAMPOLINE_CAPACITY)])
  {
    var f := if retain then FinalizeRetained(os, t) else Finalize(os, t);
    match f.result
    case Ok(ptr) => Created(h.(trampoline := Some(ptr)), Ok(ptr), t.code, f.effects)
    case Err(e) => Created(h, Err(e), t.code, f.effects)
  }

  /** The address `mmap` hands out for a trampoline, if any. */
  function MappedAt(os: Os): Option<U64>
  {
    os.mapAnon(TRAMPOLINE_CAPACITY)
  }

  /** A sane `mmap` places the trampoline in the lower half, above null. */
  lemma MappedLow(os: Os)
    requires SaneOs(os)
    ensures MappedAt(os).Some? ==> 0 < MappedAt(os).value && MappedAt(os).value + TRAMPOLINE_CAPACITY < TWO63
  {
  }

  /** `create_trampoline` with either `finalize`: allocation, then the build
      with the jump back computed for the mapped address. */
  function CreateWith(arch: Arch, os: Os, h: InlineHook, retain: bool): (c: Created)
    requires SaneOs(os)
    requires h.target + |h.originalBytes| < TWO63
    ensures MappedAt(os).None? ==>
      c == Created(h, Err(AllocationFailed), [], [MapAnon(TRAMPOLINE_CAPACITY)])
    ensures MappedAt(os).Some? ==>
      var b := BuildTrampoline(os, h, NewTrampoline(os, TRAMPOLINE_CAPACITY).result.value,
                               JumpBack(arch, h, MappedAt(os).value), retain);
      c == b.(effects := [MapAnon(TRAMPOLINE_CAPACITY)] + b.effects)
  {
    var m := NewTrampoline(os, TRAMPOLINE_CAPACITY);
    match m.result
    case Err(e) => Created(h, Err(e), [], m.effects)
    case Ok(t) =>
      var b := BuildTrampoline(os, h, t, JumpBack(arch, h, t.ptr), retain);
      Created(b.hook, b.result, b.code, m.effects + b.effects)
  }

  /** `InlineHook::create_trampoline`, as written: map 256 bytes, copy the
      captured bytes and the jump back into them, finalise, and record the
      pointer in the hook. It succeeds exactly when the mapping, the
      capacity and the protection change all allow it. */
  function CreateTrampoline(arch: Arch, os: Os, h: InlineHook): (c: Created)
    requires SaneOs(os)
    requires h.target + |h.originalBytes| < TWO63
    ensures MappedAt(os).None? ==>
      c == Created(h, Err(AllocationFailed), [], [MapAnon(TRAMPOLINE_CAPACITY)])
    ensures c.result.Err? ==> c.hook == h
    ensures c.result == Err(CapacityExceeded) <==>
      MappedAt(os).Some? && !TrampolineFits(h, JumpBack(arch, h, MappedAt(os).value))
    ensures c.result.Err? && MappedAt(os).Some? && TrampolineFits(h, JumpBack(arch, h, MappedAt(os).value)) ==>
      c.result.error == MprotectFailed
    ensures c.result.Ok? ==>
      && MappedAt(os).Some?
      && c.result.value == MappedAt(os).value
      && c.hook == h.(trampoline := Some(c.result.value))
      && c.code == TrampolineCode(h, JumpBack(arch, h, c.result.value))
      && |c.code| <= TRAMPOLINE_CAPACITY
      && MakeExecutable(os, c.result.value, |c.code|).outcome == Pass
    ensures (&& MappedAt(os).Some?
             && TrampolineFits(h, JumpBack(arch, h, MappedAt(os).value))
             && MakeExecutable(os, MappedAt(os).value,
                               |TrampolineCode(h, JumpBack(arch, h, MappedAt(os).value))|).outcome == Pass)
            ==> c.result.Ok?
  {
    MappedLow(os);
    CreateWith(arch, os, h, false)
  }

  /** As written, a successful `create_trampoline` ends by unmapping the
      trampoline whose address it returns and records in the hook. */
  lemma CreateTrampolineUnmapsReturned(arch: Arch, os: Os, h: InlineHook)
    requires SaneOs(os)
    requires h.target + |h.originalBytes| < TWO63
    requires CreateTrampoline(arch, os, h).result.Ok?
    ensures var c := CreateTrampoline(arch, os, h);
      |c.effects| >= 2 && c.effects[|c.effects| - 1] == Unmap(c.result.value, TRAMPOLINE_CAPACITY)
  {
  }

  /** `create_trampoline` over the corrected `finalize`: the same result,
      and a successful call leaves the returned trampoline mapped. */
  function CreateTrampolineRetained(arch: Arch, os: Os, h: InlineHook): (c: Created)
    requires SaneOs(os)
    requires h.target + |h.originalBytes| < TWO63
    ensures c.result == CreateTrampoline(arch, os, h).result
    ensures c.hook == CreateTrampoline(arch, os, h).hook
    ensures c.code == CreateTrampoline(arch, os, h).code
    ensures c.result.Ok? ==> NoUnmapOf(c.effects, c.result.value)
  {
    MappedLow(os);
    if MappedAt(os).Some? then
      BuildSameOutcome(os, h, NewTrampoline(os, TRAMPOLINE_CAPACITY).result.value,
                       JumpBack(arch, h, MappedAt(os).value));
      CreateWith(arch, os, h, true)
    else
      CreateWith(arch, os, h, true)
  }

  /** Which `finalize` is used changes only the trace. */
  lemma BuildSameOutcome(os: Os, h: InlineHook, t: Trampoline, jump: Option<seq<bv8>>)
    requires 0 < os.pageSize < TWO63
    requires Valid(t) && t.code == [] && t.capacity == TRAMPOLINE_CAPACITY
    requires 0 < t.ptr && t.ptr + TRAMPOLINE_CAPACITY < TWO63
    ensures BuildTrampoline(os, h, t, jump, true).result == BuildTrampoline(os, h, t, jump, false).result
    ensures BuildTrampoline(os, h, t, jump, true).hook == BuildTrampoline(os, h, t, jump, false).hook
    ensures BuildTrampoline(os, h, t, jump, true).code == BuildTrampoline(os, h, t, jump, false).code
  {
  }

  /** The two `finalize`s build the same trampoline; a successful build
      differs only in the final `munmap`. */
  lemma BuildRetainedDropsOnlyFinalUnmap(os: Os, h: InlineHook, t: Trampoline, jump: Option<seq<bv8>>)
    requires 0 < os.pageSize < TWO63
    requires Valid(t) && t.code == [] && t.capacity == TRAMPOLINE_CAPACITY
    requires 0 < t.ptr && t.ptr + TRAMPOLINE_CAPACITY < TWO63
    requires BuildTrampoline(os, h, t, jump, false).result.Ok?
    ensures BuildTrampoline(os, h, t, jump, true).result == BuildTrampoline(os, h, t, jump, false).result
    ensures BuildTrampoline(os, h, t, jump, false).effects ==
      BuildTrampoline(os, h, t, jump, true).effects + [Unmap(t.ptr, TRAMPOLINE_CAPACITY)]
  {
  }
}
