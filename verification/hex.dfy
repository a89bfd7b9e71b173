/** Hexadecimal text: the digits Rust's radix-16 parser accepts (either
    case) and the lowercase digits its `{:x}` formatter prints. */
module Hex {

  /** `char::to_digit(16)` succeeds. */
  predicate IsHexDigit(c: char)
  {
    '0' <= c <= '9' || 'a' <= c <= 'f' || 'A' <= c <= 'F'
  }

  /** `char::to_digit(16)`: both letter cases have the same value. */
  function DigitValue(c: char): (d: nat)
    requires IsHexDigit(c)
    ensures d < 16
  {
    if '0' <= c <= '9' then c as int - '0' as int
    else if 'a' <= c <= 'f' then c as int - 'a' as int + 10
    else c as int - 'A' as int + 10
  }

  /** The lowercase digit `{:x}` prints for a value below 16. */
  function DigitChar(d: nat): (c: char)
    requires d < 16
    ensures IsHexDigit(c) && DigitValue(c) == d
    ensures '0' <= c <= '9' || 'a' <= c <= 'f'
  {
    if d < 10 then ('0' as int + d) as char else ('a' as int + d - 10) as char
  }

  /** A digit reads back as the lowercase digit of its value. */
  lemma DigitCharOfValue(c: char)
    requires '0' <= c <= '9' || 'a' <= c <= 'f'
    ensures DigitChar(DigitValue(c)) == c
  {
  }

  predicate AllHex(s: string)
  {
    forall k :: 0 <= k < |s| ==> IsHexDigit(s[k])
  }

  /** The number a run of hex digits denotes, most significant digit first. */
  function HexValue(s: string): (v: nat)
    requires AllHex(s)
    decreases |s|
  {
    if |s| == 0 then 0 else HexValue(s[..|s| - 1]) * 16 + DigitValue(s[|s| - 1])
  }

  /** `format!("{:x}", n)`: lowercase digits, no leading zero except for 0. */
  function ToHex(n: nat): (s: string)
    ensures |s| >= 1 && AllHex(s)
    ensures forall k :: 0 <= k < |s| ==> '0' <= s[k] <= '9' || 'a' <= s[k] <= 'f'
    ensures s[0] == '0' <==> n == 0
    decreases n
  {
    if n < 16 then [DigitChar(n)] else ToHex(n / 16) + [DigitChar(n % 16)]
  }

  /** Printing and reading back are inverse. */
  lemma {:induction false} ToHexRoundTrip(n: nat)
    ensures HexValue(ToHex(n)) == n
    decreases n
  {
    if n >= 16 {
      ToHexRoundTrip(n / 16);
      var s := ToHex(n);
      assert s[..|s| - 1] == ToHex(n / 16);
    }
  }

  /** Leading zeros do not change the value. */
  lemma {:induction false} LeadingZeros(z: string, s: string)
    requires forall k :: 0 <= k < |z| ==> z[k] == '0'
    requires AllHex(s)
    ensures AllHex(z + s) && HexValue(z + s) == HexValue(s)
    decreases |s|
  {
    if |s| == 0 {
      assert z + s == z;
      ZerosValue(z);
    } else {
      var t := z + s;
      assert t[..|t| - 1] == z + s[..|s| - 1];
      LeadingZeros(z, s[..|s| - 1]);
    }
  }

  lemma {:induction false} ZerosValue(z: string)
    requires forall k :: 0 <= k < |z| ==> z[k] == '0'
    ensures AllHex(z) && HexValue(z) == 0
    decreases |z|
  {
    if |z| > 0 {
      ZerosValue(z[..|z| - 1]);
    }
  }

  /** `format!("{:0w$x}", n)`: the digits of `n` padded on the left with
      zeros to at least `w` characters. */
  function PadHex(n: nat, w: nat): (s: string)
    ensures |s| == if |ToHex(n)| < w then w else |ToHex(n)|
    ensures AllHex(s) && HexValue(s) == n
    ensures forall k :: 0 <= k < |s| ==> '0' <= s[k] <= '9' || 'a' <= s[k] <= 'f'
  {
    var digits := ToHex(n);
    var z := seq(if |digits| < w then w - |digits| else 0, _ => '0');
    ToHexRoundTrip(n);
    LeadingZeros(z, digits);
    LowercaseAfterZeros(z, digits);
    z + digits
  }

  /** Zeros in front of lowercase digits keep them lowercase. */
  lemma LowercaseAfterZeros(z: string, d: string)
    requires forall k :: 0 <= k < |z| ==> z[k] == '0'
    requires forall k :: 0 <= k < |d| ==> '0' <= d[k] <= '9' || 'a' <= d[k] <= 'f'
    ensures forall k :: 0 <= k < |z + d| ==> '0' <= (z + d)[k] <= '9' || 'a' <= (z + d)[k] <= 'f'
  {
    forall k | 0 <= k < |z + d|
      ensures '0' <= (z + d)[k] <= '9' || 'a' <= (z + d)[k] <= 'f'
    {
      if k >= |z| {
        assert (z + d)[k] == d[k - |z|];
      }
    }
  }

  /** Folding letter case: `A`..`F` to `a`..`f`, everything else unchanged. */
  function Lower(c: char): char
  {
    if 'A' <= c <= 'F' then (c as int - 'A' as int + 'a' as int) as char else c
  }

  /** Two texts that agree up to the case of their letters. */
  predicate SameUpToCase(s: string, t: string)
  {
    |s| == |t| && forall k :: 0 <= k < |s| ==> Lower(s[k]) == Lower(t[k])
  }

  /** The digit set and the values ignore letter case. */
  lemma {:induction false} CaseInsensitive(s: string, t: string)
    requires SameUpToCase(s, t)
    ensures AllHex(s) <==> AllHex(t)
    ensures AllHex(s) ==> HexValue(s) == HexValue(t)
    decreases |s|
  {
    assert forall k :: 0 <= k < |s| ==> (IsHexDigit(s[k]) <==> IsHexDigit(t[k]));
    if |s| > 0 && AllHex(s) {
      CaseInsensitive(s[..|s| - 1], t[..|t| - 1]);
    }
  }
}
