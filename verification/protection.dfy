/** Page-granular protection changes (`MemoryProtection`). The system calls are
    not executed: an `Os` value supplies the page size and the outcome of each
    `mprotect` / `mmap`, and every operation returns the calls it issued, in
    order, as a trace of effects. */
module Protection {
  import opened Common

  /** `PROT_READ | PROT_WRITE | PROT_EXEC` and `PROT_READ | PROT_EXEC`. */
  datatype Prot = ReadWriteExec | ReadExec

  /** One observable call into the operating system. */
  datatype Effect =
    | Protect(base: U64, len: U64, prot: Prot)      // mprotect(base, len, prot)
    | FlushCache(begin: U64, end: int)              // __clear_cache(begin, end)
    | MapAnon(len: U64)                             // mmap(null, len, RW, ANON|PRIVATE)
    | Unmap(addr: U64, len: U64)                    // munmap(addr, len)

  /** The environment: `sysconf(_SC_PAGESIZE)`, whether `mprotect` on a range
      returns 0, and the address `mmap` returns for a length (`None` for
      `MAP_FAILED`). */
  datatype Os = Os(pageSize: nat, protectOk: (U64, U64, Prot) -> bool, mapAnon: U64 -> Option<U64>)

  /** The result of a fallible call together with the calls it issued. */
  datatype Call = Call(outcome: Outcome, effects: seq<Effect>)

  // ---------------------------------------------------------------------
  // Page arithmetic

  /** `(addr / page_size) * page_size`: the start of the page holding `addr`. */
  function PageBase(ps: nat, addr: U64): (base: U64)
    requires ps > 0
    ensures base % ps == 0
    ensures base <= addr < base + ps
  {
    var q := addr / ps;
    DivBounds(addr, ps);
    MulMod(q, ps);
    MulNonNegative(q, ps);
    q * ps
  }

  /** The conditions under which `addr + size - 1` does not underflow and
      the page arithmetic `((addr + size - 1) / ps + 1) * ps` cannot overflow
      a `usize`: the range stays a page below the top of the address space. */
  predicate RangeOk(ps: nat, addr: U64, size: nat)
  {
    && ps > 0
    && addr + size >= 1
    && addr + size + ps <= TWO64
  }

  /** The end of the last page touched by `[addr, addr + size)`. */
  function PageEnd(ps: nat, addr: U64, size: nat): (end: int)
    requires RangeOk(ps, addr, size)
    ensures end % ps == 0
    ensures addr + size <= end < addr + size + ps
  {
    DivBounds(addr + size - 1, ps);
    MulMod((addr + size - 1) / ps + 1, ps);
    ((addr + size - 1) / ps + 1) * ps
  }

  /** `aligned_size`: the length of the whole pages covering `[addr, addr + size)`. */
  function AlignedSize(ps: nat, addr: U64, size: nat): (n: U64)
    requires RangeOk(ps, addr, size)
    ensures n % ps == 0
    ensures PageBase(ps, addr) + n >= addr + size
    ensures n > 0 ==> PageBase(ps, addr) + n - ps < addr + size
    ensures n == 0 <==> (size == 0 && addr % ps == 0)
  {
    var base := PageBase(ps, addr);
    var end := PageEnd(ps, addr, size);
    SubMultiple(end, base, ps);
    EmptyRange(ps, addr, size, base, end);
    end - base
  }

  /** The page range is empty exactly for an empty request at a page start. */
  lemma EmptyRange(ps: nat, addr: U64, size: U64, base: int, end: int)
    requires ps > 0 && base % ps == 0 && end % ps == 0
    requires base <= addr < base + ps
    requires addr + size <= end < addr + size + ps
    ensures end == base <==> (size == 0 && addr % ps == 0)
  {
    if size == 0 && addr % ps == 0 {
      AlignedUnique(base, addr, ps, addr);
      AlignedUnique(end, addr, ps, end);
    }
  }

  /** `(x / m) * m <= x < (x / m + 1) * m` */
  lemma DivBounds(x: int, m: int)
    requires m > 0
    ensures (x / m) * m <= x < (x / m) * m + m
    ensures (x / m + 1) * m == (x / m) * m + m
  {
  }

  lemma MulNonNegative(a: int, b: int)
    requires a >= 0 && b >= 0
    ensures a * b >= 0
  {
  }

  lemma MulMod(k: int, m: int)
    requires m > 0
    ensures (k * m) % m == 0
  {
    AddMultiple(0, k, m);
  }

  lemma SubMultiple(a: int, b: int, m: int)
    requires m > 0 && a % m == 0 && b % m == 0
    ensures (a - b) % m == 0
  {
    AddMultiple(0, a / m - b / m, m);
    assert a - b == (a / m - b / m) * m;
  }

  // ---------------------------------------------------------------------
  // Protection changes

  /** `make_writable`: one `mprotect` of the covering pages to RWX. */
  function MakeWritable(os: Os, addr: U64, size: nat): (c: Call)
    requires RangeOk(os.pageSize, addr, size)
    ensures |c.effects| == 1 && c.effects[0].Protect? && c.effects[0].prot == ReadWriteExec
    ensures Covers(c.effects[0], os.pageSize, addr, size)
    ensures c.outcome == Pass <==> os.protectOk(c.effects[0].base, c.effects[0].len, ReadWriteExec)
    ensures c.outcome != Pass ==> c.outcome == Fail(MprotectFailed)
  {
    var base := PageBase(os.pageSize, addr);
    var len := AlignedSize(os.pageSize, addr, size);
    var ok := os.protectOk(base, len, ReadWriteExec);
    Call(if ok then Pass else Fail(MprotectFailed), [Protect(base, len, ReadWriteExec)])
  }

  /** `make_executable`: `mprotect` the covering pages to RX and, only when
      that succeeds, flush the instruction cache over exactly `[addr, addr + size)`. */
  function MakeExecutable(os: Os, addr: U64, size: nat): (c: Call)
    requires RangeOk(os.pageSize, addr, size)
    ensures 1 <= |c.effects| <= 2 && c.effects[0].Protect? && c.effects[0].prot == ReadExec
    ensures Covers(c.effects[0], os.pageSize, addr, size)
    ensures c.outcome == Pass <==> os.protectOk(c.effects[0].base, c.effects[0].len, ReadExec)
    ensures c.outcome != Pass ==> c.outcome == Fail(MprotectFailed) && |c.effects| == 1
    ensures c.outcome == Pass ==> c.effects[1..] == [FlushCache(addr, addr + size)]
  {
    var base := PageBase(os.pageSize, addr);
    var len := AlignedSize(os.pageSize, addr, size);
    if os.protectOk(base, len, ReadExec) then
      Call(Pass, [Protect(base, len, ReadExec), FlushCache(addr, addr + size)])
    else
      Call(Fail(MprotectFailed), [Protect(base, len, ReadExec)])
  }

  /** A protection request on whole pages that covers `[addr, addr + size)`
      and ends within one page of it. */
  ghost predicate Covers(e: Effect, ps: nat, addr: U64, size: nat)
    requires ps > 0
  {
    && e.Protect?
    && e.base % ps == 0 && e.len % ps == 0
    && e.base <= addr < e.base + ps
    && e.base + e.len >= addr + size
    && (e.len > 0 ==> e.base + e.len - ps < addr + size)
  }

  /** Both protection changes compute the same page range; they differ only
      in the protection requested and in the cache flush. */
  lemma SameRange(os: Os, addr: U64, size: nat)
    requires RangeOk(os.pageSize, addr, size)
    ensures MakeWritable(os, addr, size).effects[0].base == MakeExecutable(os, addr, size).effects[0].base
    ensures MakeWritable(os, addr, size).effects[0].len == MakeExecutable(os, addr, size).effects[0].len
  {
  }

  /** The covering range is unique: two whole-page requests that both
      satisfy `Covers` for the same non-empty bytes are the same request. */
  lemma CoverUnique(e: Effect, f: Effect, ps: nat, addr: U64, size: nat)
    requires ps > 0 && size > 0
    requires Covers(e, ps, addr, size) && Covers(f, ps, addr, size)
    ensures e.base == f.base && e.len == f.len
  {
    AlignedUnique(e.base, f.base, ps, addr);
    var last := addr + size - 1;
    var a := e.base + e.len - ps;
    var b := f.base + f.len - ps;
    AddMod(e.base, e.len, ps);
    AddMod(f.base, f.len, ps);
    SubMultiple(e.base + e.len, ps, ps);
    SubMultiple(f.base + f.len, ps, ps);
    AlignedUnique(a, b, ps, last);
  }

  lemma AddMod(a: int, b: int, m: int)
    requires m > 0 && a % m == 0 && b % m == 0
    ensures (a + b) % m == 0
  {
    AddMultiple(0, a / m + b / m, m);
    assert a + b == (a / m + b / m) * m;
  }

  /** Two multiples of `m` in `(x - m, x]` coincide. */
  lemma AlignedUnique(a: int, b: int, m: int, x: int)
    requires m > 0 && a % m == 0 && b % m == 0
    requires a <= x < a + m && b <= x < b + m
    ensures a == b
  {
    var k := a / m - b / m;
    assert a - b == k * m;
    if k > 0 {
      MulAtLeast(k, m);
    } else if k < 0 {
      MulAtLeast(-k, m);
    }
  }

  /** Page size 4096: a five-byte patch straddling a page boundary needs two pages. */
  lemma StraddlingPatch()
    ensures RangeOk(4096, 0x1FFE, 5)
    ensures PageBase(4096, 0x1FFE) == 0x1000
    ensures AlignedSize(4096, 0x1FFE, 5) == 0x2000
    ensures AlignedSize(4096, 0x2000, 0) == 0
  {
  }
}
