/** Shared vocabulary of the hooking engine model: machine words, bytes,
    little-endian encoding, two's-complement reinterpretation, and the
    error values the engine reports. */
module Common {

  const TWO31: int := 0x8000_0000
  const TWO32: int := 0x1_0000_0000
  const TWO63: int := 0x8000_0000_0000_0000
  const TWO64: int := 0x1_0000_0000_0000_0000

  /** A `usize` on a 64-bit target: addresses and sizes. */
  type U64 = x: int | 0 <= x < 0x1_0000_0000_0000_0000

  datatype Option<+T> = None | Some(value: T)

  /** The engine's `&'static str` errors, one constructor per distinct message. */
  datatype Error =
    | TargetNull
    | ReplacementNull
    | MprotectFailed
    | CapacityExceeded
    | AllocationFailed
    | CountMismatch
    | UnsupportedArchitecture
    | UnsupportedPlatform

  /** The text the engine returns for each error. */
  function Message(e: Error): string
  {
    match e
    case TargetNull => "Target is null"
    case ReplacementNull => "Replacement is null"
    case MprotectFailed => "mprotect failed"
    case CapacityExceeded => "Trampoline capacity exceeded"
    case AllocationFailed => "Failed to allocate trampoline memory"
    case CountMismatch => "Hook count mismatch"
    case UnsupportedArchitecture => "Inline hooks not yet implemented for this architecture"
    case UnsupportedPlatform => "Unsupported platform"
  }

  /** `Result<T, &'static str>` */
  datatype Result<+T> = Ok(value: T) | Err(error: Error)

  /** `Result<(), &'static str>` */
  datatype Outcome = Pass | Fail(error: Error)

  // ---------------------------------------------------------------------
  // Integer reinterpretation

  /** `x as isize` for a `usize` bit pattern. */
  function Signed64(x: U64): (r: int)
    ensures -TWO63 <= r < TWO63
    ensures (r - x) % TWO64 == 0
  {
    if x < TWO63 then x else x - TWO64
  }

  /** `x as i32` (and `x as u32` read as signed): keep the low 32 bits and
      read them as two's complement. */
  function Signed32(x: int): (r: int)
    ensures -TWO31 <= r < TWO31
    ensures (r - x) % TWO32 == 0
  {
    var m := x % TWO32;
    if m < TWO31 then m else m - TWO32
  }

  /** `a.wrapping_sub(b)` on `usize`. */
  function WrappingSub(a: U64, b: U64): (r: U64)
    ensures (b + r) % TWO64 == a
  {
    (a - b) % TWO64
  }

  /** `a.wrapping_add(b)` on `usize` (release-mode `+`); subtracting `b`
      again gives `a` back. */
  function WrappingAdd(a: U64, b: U64): (r: U64)
    ensures (a + b - r) % TWO64 == 0
    ensures WrappingSub(r, b) == a
  {
    if a + b < TWO64 then
      ModUnique(a, 0, a, TWO64);
      ModUnique(0, 0, 0, TWO64);
      a + b
    else
      ModUnique(a - TWO64, -1, a, TWO64);
      ModUnique(TWO64, 1, 0, TWO64);
      a + b - TWO64
  }

  lemma Signed32Fixes(x: int)
    requires -TWO31 <= x < TWO31
    ensures Signed32(x) == x
  {
  }

  /** Division by a positive modulus has a unique quotient and remainder. */
  lemma ModUnique(x: int, q: int, r: int, m: int)
    requires m > 0 && 0 <= r < m && x == q * m + r
    ensures x % m == r && x / m == q
  {
    var q' := x / m;
    var r' := x % m;
    assert (q - q') * m == r' - r;
    if q > q' {
      MulAtLeast(q - q', m);
    } else if q < q' {
      MulAtLeast(q' - q, m);
    }
  }

  lemma MulAtLeast(t: int, m: int)
    requires t >= 1 && m > 0
    ensures t * m >= m
  {
  }

  lemma AddMultiple(a: int, k: int, m: int)
    requires m > 0
    ensures (a + k * m) % m == a % m
  {
    ModUnique(a + k * m, a / m + k, a % m, m);
  }

  // ---------------------------------------------------------------------
  // Bytes

  function Pow256(n: nat): (p: nat)
    ensures p >= 1
  {
    if n == 0 then 1 else 256 * Pow256(n - 1)
  }

  lemma Pow256Widths()
    ensures Pow256(2) == 0x1_0000
    ensures Pow256(4) == TWO32
    ensures Pow256(8) == TWO64
  {
  }

  /** The low eight bits of `x` (`x as u8`). */
  function LowByte(x: int): (b: bv8)
    ensures b as int == x % 256
  {
    ByteOf(x % 256)
  }

  /** The byte whose value is `m`, counted up from zero. Written this way
      rather than as a cast `m as bv8`, whose int-to-bit-vector conversion
      the solver handles far more slowly inside the encoders' proofs. */
  function ByteOf(m: nat): (b: bv8)
    requires m < 256
    ensures b as int == m
  {
    if m == 0 then 0
    else
      var p := ByteOf(m - 1);
      ByteSucc(p);
      p + 1
  }

  lemma ByteSucc(b: bv8)
    requires b as int < 255
    ensures (b + 1) as int == b as int + 1
  {
  }

  /** `v.to_le_bytes()` for an `n`-byte unsigned value. */
  function LittleEndian(v: nat, n: nat): (s: seq<bv8>)
    requires v < Pow256(n)
    ensures |s| == n
  {
    if n == 0 then [] else [LowByte(v)] + LittleEndian(v / 256, n - 1)
  }

  /** Reads an unsigned little-endian value back from its bytes. */
  function FromLittleEndian(s: seq<bv8>): (v: nat)
    ensures v < Pow256(|s|)
  {
    if |s| == 0 then 0 else s[0] as nat + 256 * FromLittleEndian(s[1..])
  }

  lemma {:induction false} LittleEndianRoundTrip(v: nat, n: nat)
    requires v < Pow256(n)
    ensures FromLittleEndian(LittleEndian(v, n)) == v
  {
    if n > 0 {
      var s := LittleEndian(v, n);
      assert s[1..] == LittleEndian(v / 256, n - 1);
      LittleEndianRoundTrip(v / 256, n - 1);
    }
  }

  /** `(v as u32).to_le_bytes()`: the low 32 bits of `v`, least significant byte first. */
  function LE32(v: int): (s: seq<bv8>)
    ensures |s| == 4
    ensures FromLittleEndian(s) == v % TWO32
  {
    Pow256Widths();
    LittleEndianRoundTrip(v % TWO32, 4);
    LittleEndian(v % TWO32, 4)
  }

  /** `v.to_le_bytes()` for a `u64`. */
  function LE64(v: U64): (s: seq<bv8>)
    ensures |s| == 8
    ensures FromLittleEndian(s) == v
  {
    Pow256Widths();
    LittleEndianRoundTrip(v, 8);
    LittleEndian(v, 8)
  }

  /** `vec![0u8; n]` */
  function Zeros(n: nat): (s: seq<bv8>)
    ensures |s| == n && forall i :: 0 <= i < n ==> s[i] == 0
  {
    seq(n, _ => 0)
  }

  /** Copies `bytes` into `buf` at `offset` (`copy_from_slice` / `copy_nonoverlapping`). */
  function Splice(buf: seq<bv8>, offset: nat, bytes: seq<bv8>): (r: seq<bv8>)
    requires offset + |bytes| <= |buf|
    ensures |r| == |buf|
    ensures r[offset..offset + |bytes|] == bytes
    ensures forall i :: 0 <= i < |buf| && !(offset <= i < offset + |bytes|) ==> r[i] == buf[i]
  {
    buf[..offset] + bytes + buf[offset + |bytes|..]
  }

  /** `r` differs from `buf` at most inside `[offset, offset + len)`. */
  ghost predicate ChangedOnly(buf: seq<bv8>, r: seq<bv8>, offset: nat, len: nat)
  {
    |r| == |buf| && forall i :: 0 <= i < |buf| && !(offset <= i < offset + len) ==> r[i] == buf[i]
  }
}
