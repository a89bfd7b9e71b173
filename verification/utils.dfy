/** The pure parts of `utils.rs`: `usize::from_str_radix(_, 16)`,
    `string_to_offset`, and the `/proc/self/maps` line parse behind
    `find_library` / `get_absolute_address`. The maps file itself is not read:
    its lines are a parameter. */
module Utils {
  import opened Common
  import opened Hex

  // ---------------------------------------------------------------------
  // usize::from_str_radix(s, 16)

  /** The digits after the optional leading `+` an unsigned parse accepts. */
  function Unsigned(s: string): (d: string)
    ensures d == s || (|s| >= 1 && s[0] == '+' && d == s[1..])
  {
    if |s| > 0 && s[0] == '+' then s[1..] else s
  }

  /** `usize::from_str_radix(s, 16).ok()`: an empty text and a lone sign
      are rejected; otherwise one leading `+` is allowed, every other
      character must be a hex digit of either case, and the value must fit
      in 64 bits. */
  function FromStrRadix16(s: string): (r: Option<U64>)
    ensures r.Some? ==> |s| >= 1 && s != "+" && s != "-"
    ensures r.Some? ==> AllHex(Unsigned(s)) && r.value == HexValue(Unsigned(s))
  {
    if |s| == 0 then None
    else if |s| == 1 && (s[0] == '+' || s[0] == '-') then None
    else
      var d := Unsigned(s);
      if AllHex(d) && HexValue(d) < TWO64 then Some(HexValue(d)) else None
  }

  /** Any character other than a hex digit or one leading `+` (a `-`, an
      `x`, a space) makes the parse fail. */
  lemma FromStrRadix16RejectsStray(s: string, k: nat)
    requires k < |s| && !IsHexDigit(s[k]) && !(k == 0 && s[k] == '+')
    ensures FromStrRadix16(s).None?
  {
    if |s| > 0 && s[0] == '+' {
      assert Unsigned(s)[k - 1] == s[k];
    } else {
      assert Unsigned(s)[k] == s[k];
    }
  }

  /** A prefix of digits never denotes more than the whole run. */
  lemma {:induction false} PrefixValueAtMost(s: string, i: nat)
    requires AllHex(s) && i <= |s|
    ensures AllHex(s[..i]) && HexValue(s[..i]) <= HexValue(s)
    decreases |s| - i
  {
    if i < |s| {
      PrefixValueAtMost(s, i + 1);
      assert s[..i + 1][..i] == s[..i];
    } else {
      assert s[..i] == s;
    }
  }

  /** The parse as the standard library runs it: digit by digit, with a
      checked multiply-add that gives up as soon as the value leaves `u64`. */
  method ParseRadix16(s: string) returns (r: Option<U64>)
    ensures r == FromStrRadix16(s)
  {
    if |s| == 0 {
      return None;
    }
    if |s| == 1 && (s[0] == '+' || s[0] == '-') {
      return None;
    }
    var digits := if s[0] == '+' then s[1..] else s;
    assert Unsigned(s) == digits;
    var acc: U64 := 0;
    var i := 0;
    while i < |digits|
      invariant i <= |digits|
      invariant AllHex(digits[..i]) && acc == HexValue(digits[..i])
    {
      if !IsHexDigit(digits[i]) {
        assert !AllHex(digits);
        return None;
      }
      assert digits[..i + 1][..i] == digits[..i];
      var next := acc * 16 + DigitValue(digits[i]);
      if next >= TWO64 {
        if AllHex(digits) {
          PrefixValueAtMost(digits, i + 1);
        }
        return None;
      }
      acc := next;
      i := i + 1;
    }
    assert digits[..i] == digits;
    r := Some(acc);
  }

  /** What the lowercase formatter prints, with any leading zeros and an
      optional `+`, parses back to the same value. */
  lemma FromStrRadix16RoundTrip(n: U64, zeros: nat, plus: bool)
    ensures FromStrRadix16((if plus then "+" else "") + (seq(zeros, _ => '0') + ToHex(n))) == Some(n)
  {
    var z: string := seq(zeros, _ => '0');
    ToHexRoundTrip(n);
    LeadingZeros(z, ToHex(n));
    DigitsParse(z + ToHex(n));
  }

  /** A non-empty run of digits below 2^64 parses to its value, with or
      without a leading `+`. */
  lemma DigitsParse(d: string)
    requires |d| >= 1 && AllHex(d) && HexValue(d) < TWO64
    ensures FromStrRadix16(d) == Some(HexValue(d))
    ensures FromStrRadix16("+" + d) == Some(HexValue(d))
    ensures FromStrRadix16("" + d) == Some(HexValue(d))
  {
    assert d[0] != '+' && d[0] != '-';
    assert Unsigned(d) == d;
    var s := "+" + d;
    assert s[0] == '+' && s[1..] == d;
    assert Unsigned(s) == d;
    assert "" + d == d;
  }

  /** The parse does not see letter case. */
  lemma FromStrRadix16IgnoresCase(s: string, t: string)
    requires SameUpToCase(s, t)
    ensures FromStrRadix16(s) == FromStrRadix16(t)
  {
    if |s| > 0 {
      assert Lower(s[0]) == Lower(t[0]);
      assert s[0] == '+' <==> t[0] == '+';
      assert s[0] == '-' <==> t[0] == '-';
      var d := Unsigned(s);
      var e := Unsigned(t);
      assert SameUpToCase(d, e);
      CaseInsensitive(d, e);
    }
  }

  /** A value of 2^64 or more is rejected even when every digit is valid. */
  lemma FromStrRadix16Overflow(s: string)
    requires |s| >= 1 && AllHex(s) && HexValue(s) >= TWO64
    ensures FromStrRadix16(s).None?
  {
  }

  // ---------------------------------------------------------------------
  // string_to_offset

  predicate StartsWith(s: string, p: string)
  {
    |p| <= |s| && s[..|p|] == p
  }

  /** `n` copies of `p`, back to back. */
  function Repeat(p: string, n: nat): (r: string)
    ensures |r| == n * |p|
  {
    if n == 0 then [] else p + Repeat(p, n - 1)
  }

  /** `str::trim_start_matches(p)`: drop copies of `p` from the front for as
      long as the text starts with it. */
  function TrimStartMatches(s: string, p: string): (r: string)
    requires |p| > 0
    ensures |r| <= |s|
    ensures !StartsWith(r, p)
    decreases |s|
  {
    if StartsWith(s, p) then TrimStartMatches(s[|p|..], p) else s
  }

  /** What the trim removes is whole copies of `p`, and nothing else. */
  lemma {:induction false} TrimRemovesCopies(s: string, p: string)
    requires |p| > 0
    ensures exists n: nat :: s == Repeat(p, n) + TrimStartMatches(s, p)
    decreases |s|
  {
    if StartsWith(s, p) {
      TrimRemovesCopies(s[|p|..], p);
      var n: nat :| s[|p|..] == Repeat(p, n) + TrimStartMatches(s[|p|..], p);
      assert s == p + s[|p|..];
      assert s == Repeat(p, n + 1) + TrimStartMatches(s, p);
    } else {
      assert s == Repeat(p, 0) + s;
    }
  }

  /** `string_to_offset`: strip every leading `0x`, then every leading `0X`,
      and parse the rest in base 16. */
  function StringToOffset(s: string): (r: Option<U64>)
    ensures var t := TrimStartMatches(TrimStartMatches(s, "0x"), "0X");
      && !StartsWith(t, "0X")
      && (r.Some? ==> t != [] && r == FromStrRadix16(t))
      && (r.None? ==> FromStrRadix16(t).None?)
  {
    FromStrRadix16(TrimStartMatches(TrimStartMatches(s, "0x"), "0X"))
  }

  /** Stripping `n` copies of `p` from the front of text that does not
      itself start with `p` gives that text back. */
  lemma {:induction false} TrimCopies(p: string, n: nat, t: string)
    requires |p| > 0 && !StartsWith(t, p)
    ensures TrimStartMatches(Repeat(p, n) + t, p) == t
    decreases n
  {
    if n > 0 {
      var s := Repeat(p, n) + t;
      assert s == p + (Repeat(p, n - 1) + t);
      assert StartsWith(s, p) && s[|p|..] == Repeat(p, n - 1) + t;
      TrimCopies(p, n - 1, t);
    } else {
      assert Repeat(p, n) + t == t;
    }
  }

  /** Any run of `0x` prefixes followed by any run of `0X` prefixes is
      stripped, and the rest is parsed: for every remainder `t` the strips
      cannot reach into. */
  lemma StringToOffsetStrips(i: nat, j: nat, t: string)
    requires !StartsWith(t, "0X")
    requires j == 0 ==> !StartsWith(t, "0x")
    ensures StringToOffset(Repeat("0x", i) + Repeat("0X", j) + t) == FromStrRadix16(t)
  {
    var u := Repeat("0X", j) + t;
    NoLowerPrefixAfter(j, t);
    assert Repeat("0x", i) + Repeat("0X", j) + t == Repeat("0x", i) + u;
    TrimCopies("0x", i, u);
    TrimCopies("0X", j, t);
  }

  /** Text behind at least one `0X`, or text that does not start with `0x`
      to begin with, does not start with `0x`. */
  lemma NoLowerPrefixAfter(j: nat, t: string)
    requires j == 0 ==> !StartsWith(t, "0x")
    ensures !StartsWith(Repeat("0X", j) + t, "0x")
  {
    var u := Repeat("0X", j) + t;
    if j > 0 {
      assert u == "0X" + (Repeat("0X", j - 1) + t);
      assert u[1] == 'X';
    } else {
      assert u == t;
    }
  }

  /** Text with no prefix to strip is left alone. */
  lemma TrimNothing(s: string, p: string)
    requires |p| > 0 && !StartsWith(s, p)
    ensures TrimStartMatches(s, p) == s
  {
  }

  /** The formatter's output never starts with either prefix. */
  lemma ToHexHasNoPrefix(n: nat)
    ensures TrimStartMatches(ToHex(n), "0x") == ToHex(n)
    ensures TrimStartMatches(ToHex(n), "0X") == ToHex(n)
  {
    var h := ToHex(n);
    if |h| >= 2 {
      assert h[..2][1] == h[1];
    }
  }

  /** The formatter's output parses back. */
  lemma ToHexParses(n: U64)
    ensures FromStrRadix16(ToHex(n)) == Some(n)
  {
    FromStrRadix16RoundTrip(n, 0, false);
    assert "" + (seq(0, _ => '0') + ToHex(n)) == ToHex(n);
  }

  /** The formatter's output reads back, bare or behind one `0x` / `0X`. */
  lemma StringToOffsetRoundTrip(n: U64)
    ensures StringToOffset(ToHex(n)) == Some(n)
    ensures StringToOffset("0x" + ToHex(n)) == Some(n)
    ensures StringToOffset("0X" + ToHex(n)) == Some(n)
  {
    var h := ToHex(n);
    ToHexHasNoPrefix(n);
    ToHexParses(n);
    var a := "0x" + h;
    assert StartsWith(a, "0x") && a[2..] == h;
    assert TrimStartMatches(a, "0x") == h;
    var b := "0X" + h;
    assert !StartsWith(b, "0x") by { assert b[..2][1] == 'X'; }
    assert StartsWith(b, "0X") && b[2..] == h;
    assert TrimStartMatches(b, "0x") == b;
    assert TrimStartMatches(b, "0X") == h;
  }

  /** "1a" and "1A" are 26. */
  lemma Parses1A()
    ensures FromStrRadix16("1a") == Some(26)
    ensures FromStrRadix16("1A") == Some(26)
  {
    var d := "1a";
    assert AllHex(d) && HexValue(d) == 26 by {
      assert d[..1] == "1";
      assert ("1")[..0] == [];
    }
    assert Unsigned(d) == d;
    FromStrRadix16IgnoresCase("1A", d);
  }

  /** Hex digits of either case are accepted, with or without a prefix. */
  lemma StringToOffsetExamples()
    ensures StringToOffset("0x1A") == Some(26)
    ensures StringToOffset("0X1a") == Some(26)
    ensures StringToOffset("1a") == Some(26)
  {
    Parses1A();
    TrimNothing("1A", "0x");
    TrimNothing("1A", "0X");
    TrimNothing("1a", "0x");
    TrimNothing("1a", "0X");
    assert StartsWith("0x1A", "0x") && ("0x1A")[2..] == "1A";
    assert TrimStartMatches("0x1A", "0x") == "1A";
    assert ("0X1a")[..2] == "0X" && ("0X1a")[2..] == "1a";
    TrimNothing("0X1a", "0x");
    assert TrimStartMatches("0X1a", "0X") == "1a";
  }

  /** With nothing left after the prefixes, there is no number. */
  lemma StringToOffsetEmpty()
    ensures StringToOffset("") == None
    ensures StringToOffset("0x") == None
    ensures StringToOffset("0x0x") == None
  {
    assert ("0x0x")[2..] == "0x" && ("0x")[2..] == [];
    assert TrimStartMatches("0x0x", "0x") == [];
  }

  /** The two strips run in a fixed order, so `0X` before `0x` is not
      stripped: "0x0X10" reads as 16, while "0X0x10" is rejected because the
      `x` is left in front of the digits. */
  lemma StripOrder()
    ensures StringToOffset("0x0X10") == Some(16)
    ensures StringToOffset("0X0x10") == None
  {
    var a := "0x0X10";
    assert StartsWith(a, "0x") && a[2..] == "0X10";
    assert !StartsWith("0X10", "0x") by { assert ("0X10")[..2][1] == 'X'; }
    assert StartsWith("0X10", "0X") && ("0X10")[2..] == "10";
    assert !StartsWith("10", "0X");
    assert AllHex("10") && HexValue("10") == 16 by {
      assert ("10")[..1] == "1";
      assert ("1")[..0] == [];
    }
    var b := "0X0x10";
    assert !StartsWith(b, "0x");
    assert StartsWith(b, "0X") && b[2..] == "0x10";
    assert !StartsWith("0x10", "0X");
    assert !IsHexDigit(("0x10")[1]);
  }

  // ---------------------------------------------------------------------
  // find_library / get_absolute_address

  /** `str::contains`: `name` occurs somewhere in `line`. */
  predicate Contains(line: string, name: string)
  {
    exists i :: 0 <= i <= |line| - |name| && OccursAt(line, name, i)
  }

  predicate OccursAt(line: string, name: string, i: int)
    requires 0 <= i <= |line| - |name|
  {
    line[i..i + |name|] == name
  }

  /** `line.split('-').next()`: the text before the first `-` (all of it when
      there is none). */
  function BeforeDash(line: string): (r: string)
    ensures |r| <= |line| && r == line[..|r|]
    ensures forall k :: 0 <= k < |r| ==> r[k] != '-'
    ensures |r| < |line| ==> line[|r|] == '-'
  {
    if |line| == 0 || line[0] == '-' then [] else [line[0]] + BeforeDash(line[1..])
  }

  /** `find_library`: the first maps line that mentions the library decides
      the answer; its start address is parsed, and a line that does not
      parse is not skipped over. */
  function FindLibrary(lines: seq<string>, name: string): (r: Option<U64>)
    ensures (forall i :: 0 <= i < |lines| ==> !Contains(lines[i], name)) ==> r.None?
    ensures forall i :: (0 <= i < |lines| && Contains(lines[i], name) &&
      (forall j :: 0 <= j < i ==> !Contains(lines[j], name))) ==> r == FromStrRadix16(BeforeDash(lines[i]))
  {
    if |lines| == 0 then None
    else if Contains(lines[0], name) then FromStrRadix16(BeforeDash(lines[0]))
    else
      var r := FindLibrary(lines[1..], name);
      assert forall i :: 1 <= i < |lines| ==> lines[1..][i - 1] == lines[i];
      r
  }

  /** `get_absolute_address`: the library base plus the offset, wrapping
      like release-mode `usize` addition. */
  function GetAbsoluteAddress(lines: seq<string>, name: string, offset: U64): (r: Option<U64>)
    ensures r.Some? <==> FindLibrary(lines, name).Some?
    ensures r.Some? ==> WrappingSub(r.value, offset) == FindLibrary(lines, name).value
  {
    match FindLibrary(lines, name)
    case None => None
    case Some(base) => Some(WrappingAdd(base, offset))
  }

  /** A maps line built from the base address the formatter prints, for the
      first line that names the library, yields that base. */
  lemma FindLibraryRoundTrip(lines: seq<string>, name: string, i: nat, base: U64, rest: string)
    requires i < |lines| && lines[i] == ToHex(base) + "-" + rest
    requires Contains(lines[i], name)
    requires forall j :: 0 <= j < i ==> !Contains(lines[j], name)
    ensures FindLibrary(lines, name) == Some(base)
  {
    var line := lines[i];
    var h := ToHex(base);
    var b := BeforeDash(line);
    assert forall k :: 0 <= k < |h| ==> line[k] == h[k] && line[k] != '-';
    assert line[|h|] == '-';
    assert |b| == |h|;
    assert b == h;
    FromStrRadix16RoundTrip(base, 0, false);
    assert "" + (seq(0, _ => '0') + h) == h;
  }
}
