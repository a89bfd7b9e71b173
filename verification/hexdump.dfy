/** `Debug::print_hex`: a classic 16-bytes-per-line hex dump. The model
    returns the text that would be printed, line by line. */
module HexDump {
  import opened Common
  import opened Hex

  function Min(a: int, b: int): int { if a <= b then a else b }

  /** `data.chunks(16)`: consecutive pieces of 16 bytes, the last one
      possibly shorter, and no empty piece. */
  function Chunks(data: seq<bv8>): (cs: seq<seq<bv8>>)
    ensures |cs| == (|data| + 15) / 16
    ensures forall i :: 0 <= i < |cs| ==> 1 <= |cs[i]| <= 16
    decreases |data|
  {
    if |data| == 0 then []
    else if |data| <= 16 then [data]
    else [data[..16]] + Chunks(data[16..])
  }

  /** Piece `i` is bytes `16 * i` up to `16 * i + 16` or the end. */
  lemma {:induction false} ChunkAt(data: seq<bv8>, i: nat)
    requires i < |Chunks(data)|
    ensures 16 * i < |data|
    ensures Chunks(data)[i] == data[16 * i .. Min(16 * i + 16, |data|)]
    decreases |data|
  {
    if i > 0 {
      assert |data| > 16;
      var rest := data[16..];
      var cs := Chunks(rest);
      assert Chunks(data) == [data[..16]] + cs;
      assert i - 1 < |cs|;
      assert ([data[..16]] + cs)[i] == cs[i - 1];
      ChunkAt(rest, i - 1);
      assert 16 * (i - 1) + 16 == 16 * i;
      assert rest[16 * (i - 1) .. Min(16 * (i - 1) + 16, |rest|)]
          == data[16 * i .. Min(16 * i + 16, |data|)];
    }
  }

  /** All the pieces of a list, back to back. */
  function Flatten<T>(xs: seq<seq<T>>): seq<T>
  {
    if |xs| == 0 then [] else xs[0] + Flatten(xs[1..])
  }

  /** The pieces put back together are the data, so no byte is dropped or
      repeated. */
  lemma {:induction false} ChunksFlatten(data: seq<bv8>)
    ensures Flatten(Chunks(data)) == data
    decreases |data|
  {
    if |data| > 16 {
      ChunksFlatten(data[16..]);
      var cs := Chunks(data);
      assert cs[1..] == Chunks(data[16..]);
      assert data == data[..16] + data[16..];
    } else if |data| > 0 {
      assert Chunks(data) == [data];
      assert Chunks(data)[1..] == [];
      assert data + [] == data;
    }
  }

  // ---------------------------------------------------------------------
  // One line

  /** `format!("{:02x}", b)` */
  function ByteHex(b: bv8): (s: string)
    ensures |s| == 2 && AllHex(s) && HexValue(s) == b as int
    ensures forall k :: 0 <= k < 2 ==> '0' <= s[k] <= '9' || 'a' <= s[k] <= 'f'
  {
    var hi := b as int / 16;
    var lo := b as int % 16;
    var s := [DigitChar(hi), DigitChar(lo)];
    assert s[..1][..0] == [];
    assert HexValue(s[..1]) == hi;
    assert hi * 16 + lo == b as int;
    s
  }

  /** The ASCII column's character: the byte itself when it is printable
      ASCII (`0x20 <= b < 0x80`, so 0x7F too), `.` otherwise. */
  function AsciiChar(b: bv8): (c: char)
    ensures 0x20 <= b < 0x80 ==> c as int == b as int
    ensures !(0x20 <= b < 0x80) ==> c == '.'
  {
    if 0x20 <= b < 0x80 then (b as int) as char else '.'
  }

  /** What one byte prints in the hex column: two digits and a space. */
  function Cell(b: bv8): (s: string)
    ensures |s| == 3 && s[..2] == ByteHex(b) && s[2] == ' '
  {
    ByteHex(b) + " "
  }

  /** The bytes, one cell each. */
  function HexColumn(chunk: seq<bv8>): (s: string)
    ensures |s| == 3 * |chunk|
    decreases |chunk|
  {
    if |chunk| == 0 then [] else Cell(chunk[0]) + HexColumn(chunk[1..])
  }

  function Spaces(n: nat): (s: string)
    ensures |s| == n && forall k :: 0 <= k < n ==> s[k] == ' '
  {
    seq(n, _ => ' ')
  }

  function AsciiColumn(chunk: seq<bv8>): (s: string)
    ensures |s| == |chunk|
    ensures forall k :: 0 <= k < |chunk| ==> s[k] == AsciiChar(chunk[k])
  {
    seq(|chunk|, k requires 0 <= k < |chunk| => AsciiChar(chunk[k]))
  }

  /** The offset, at least four lowercase hex digits, and `": "`. */
  function OffsetField(offset: nat): string
  {
    PadHex(offset, 4) + ": "
  }

  /** The cells, and three spaces for each byte missing from a short line. */
  function HexField(chunk: seq<bv8>): string
    requires |chunk| <= 16
  {
    HexColumn(chunk) + Spaces(3 * (16 - |chunk|))
  }

  /** `" |"`, the ASCII column and `"|"`. */
  function AsciiField(chunk: seq<bv8>): string
  {
    " |" + AsciiColumn(chunk) + "|"
  }

  /** One line of the dump. */
  function Line(offset: nat, chunk: seq<bv8>): string
    requires |chunk| <= 16
  {
    OffsetField(offset) + HexField(chunk) + AsciiField(chunk) + "\n"
  }

  /** The lines of the dump, one per chunk, the i-th at offset `16 * i`. */
  function Lines(data: seq<bv8>): (ls: seq<string>)
    ensures |ls| == (|data| + 15) / 16
    ensures forall i :: 0 <= i < |ls| ==> ls[i] == Line(16 * i, Chunks(data)[i])
  {
    var cs := Chunks(data);
    seq(|cs|, i requires 0 <= i < |cs| => Line(16 * i, cs[i]))
  }

  /** `print_hex(data)`: everything it prints, one line per started
      16-byte piece and nothing at all for no data. */
  function Dump(data: seq<bv8>): (d: string)
    ensures d == Flatten(Lines(data))
    ensures Newlines(d) == (|data| + 15) / 16
    ensures d == "" <==> data == []
  {
    var ls := Lines(data);
    LinesHaveOneNewline(data);
    FlattenNewlines(ls);
    Flatten(ls)
  }

  // ---------------------------------------------------------------------
  // Properties

  /** The dump grows line by line, in order: data that ends on a 16-byte
      boundary, followed by one more piece of 1 to 16 bytes, prints the old
      dump and then that piece's line at offset `|data|`. */
  lemma DumpAppendLine(data: seq<bv8>, chunk: seq<bv8>)
    requires |data| % 16 == 0 && 1 <= |chunk| <= 16
    ensures Dump(data + chunk) == Dump(data) + Line(|data|, chunk)
  {
    ChunksAppend(data, chunk);
    var line := Line(|data|, chunk);
    var ls := Lines(data);
    var ls' := Lines(data + chunk);
    assert |ls| == |data| / 16;
    assert ls' == ls + [line];
    FlattenSnoc(ls, line);
  }

  /** A 16-byte-aligned prefix keeps its pieces; the rest is one more piece. */
  lemma {:induction false} ChunksAppend(data: seq<bv8>, chunk: seq<bv8>)
    requires |data| % 16 == 0 && 1 <= |chunk| <= 16
    ensures Chunks(data + chunk) == Chunks(data) + [chunk]
    decreases |data|
  {
    if |data| == 0 {
      assert data + chunk == chunk;
    } else {
      var rest := data[16..];
      ChunksAppend(rest, chunk);
      assert (data + chunk)[..16] == data[..16];
      assert (data + chunk)[16..] == rest + chunk;
      assert Chunks(data + chunk) == [data[..16]] + Chunks(rest + chunk);
      if |data| == 16 {
        assert data[..16] == data && rest == [];
      } else {
        assert Chunks(data) == [data[..16]] + Chunks(rest);
      }
    }
  }

  /** Joining one more piece at the end appends it. */
  lemma {:induction false} FlattenSnoc(xs: seq<string>, x: string)
    ensures Flatten(xs + [x]) == Flatten(xs) + x
    decreases |xs|
  {
    if |xs| == 0 {
      assert xs + [x] == [x];
      assert Flatten([x]) == x + Flatten([x][1..]);
    } else {
      FlattenSnoc(xs[1..], x);
      assert (xs + [x])[1..] == xs[1..] + [x];
    }
  }

  /** Empty input prints nothing. */
  lemma DumpEmpty()
    ensures Dump([]) == ""
  {
  }

  /** Cell `k` of the hex column is byte `k`'s. */
  lemma {:induction false} HexColumnReadsBack(chunk: seq<bv8>, k: nat)
    requires k < |chunk|
    ensures forall j :: 0 <= j < 3 ==> HexColumn(chunk)[3 * k + j] == Cell(chunk[k])[j]
    decreases |chunk|
  {
    var t := HexColumn(chunk[1..]);
    assert HexColumn(chunk) == Cell(chunk[0]) + t;
    if k > 0 {
      HexColumnReadsBack(chunk[1..], k - 1);
      assert chunk[1..][k - 1] == chunk[k];
      forall j | 0 <= j < 3
        ensures HexColumn(chunk)[3 * k + j] == Cell(chunk[k])[j]
      {
        assert HexColumn(chunk)[3 * k + j] == t[3 * (k - 1) + j];
      }
    }
  }

  /** The hex field is always 48 characters wide, so the ASCII column of a
      short last line lines up with the full lines above it; each byte
      prints as its two digits (which read back as the byte) and a space. */
  lemma HexFieldLayout(chunk: seq<bv8>)
    requires |chunk| <= 16
    ensures |HexField(chunk)| == 48
    ensures forall k :: 0 <= k < |chunk| ==>
      HexField(chunk)[3 * k .. 3 * k + 2] == ByteHex(chunk[k]) && HexField(chunk)[3 * k + 2] == ' '
    ensures forall k :: 3 * |chunk| <= k < 48 ==> HexField(chunk)[k] == ' '
  {
    var f := HexField(chunk);
    forall k | 0 <= k < |chunk|
      ensures f[3 * k .. 3 * k + 2] == ByteHex(chunk[k]) && f[3 * k + 2] == ' '
    {
      HexColumnReadsBack(chunk, k);
      var c := Cell(chunk[k]);
      assert f[3 * k] == c[0] && f[3 * k + 1] == c[1] && f[3 * k + 2] == c[2];
      assert f[3 * k .. 3 * k + 2] == c[..2];
    }
  }

  /** The offset field reads back as the offset. */
  lemma OffsetFieldLayout(offset: nat)
    ensures var f := OffsetField(offset);
      && |f| >= 6
      && AllHex(f[..|f| - 2]) && HexValue(f[..|f| - 2]) == offset
      && (forall k :: 0 <= k < |f| - 2 ==> '0' <= f[k] <= '9' || 'a' <= f[k] <= 'f')
      && f[|f| - 2..] == ": "
  {
    var f := OffsetField(offset);
    assert f[..|f| - 2] == PadHex(offset, 4);
  }

  /** A printable byte appears as itself in the ASCII column. */
  lemma AsciiFieldLayout(chunk: seq<bv8>)
    ensures var f := AsciiField(chunk);
      && |f| == |chunk| + 3
      && f[..2] == " |" && f[|f| - 1] == '|'
      && forall k :: 0 <= k < |chunk| ==> f[k + 2] == AsciiChar(chunk[k])
  {
  }

  /** How many newlines a text holds. */
  function Newlines(s: string): nat
  {
    multiset(s)['\n']
  }

  lemma {:induction false} HexColumnHasNoNewline(chunk: seq<bv8>)
    ensures '\n' !in HexColumn(chunk)
    decreases |chunk|
  {
    if |chunk| > 0 {
      HexColumnHasNoNewline(chunk[1..]);
      var c := Cell(chunk[0]);
      assert c[0] != '\n' && c[1] != '\n' && c[2] != '\n';
      assert '\n' !in c;
    }
  }

  /** None of the three fields holds a newline: the offset and the cells
      are digits and spaces, and control bytes, a newline among them, print
      as `.` in the ASCII column. */
  lemma FieldsHaveNoNewline(offset: nat, chunk: seq<bv8>)
    requires |chunk| <= 16
    ensures '\n' !in OffsetField(offset)
    ensures '\n' !in HexField(chunk)
    ensures '\n' !in AsciiField(chunk)
  {
    var pad := PadHex(offset, 4);
    assert '\n' !in pad by {
      assert forall k :: 0 <= k < |pad| ==> IsHexDigit(pad[k]);
    }
    HexColumnHasNoNewline(chunk);
    var ascii := AsciiColumn(chunk);
    assert '\n' !in ascii;
  }

  /** So a line holds exactly one newline: its last character. */
  lemma OneNewlinePerLine(offset: nat, chunk: seq<bv8>)
    requires |chunk| <= 16
    ensures Newlines(Line(offset, chunk)) == 1
    ensures var line := Line(offset, chunk); |line| >= 1 && line[|line| - 1] == '\n'
  {
    FieldsHaveNoNewline(offset, chunk);
    var body := OffsetField(offset) + HexField(chunk) + AsciiField(chunk);
    assert '\n' !in body;
    assert multiset(body)['\n'] == 0;
    assert multiset(body + "\n") == multiset(body) + multiset("\n");
  }

  /** Lines with one newline each, joined, hold as many newlines as lines. */
  lemma {:induction false} FlattenNewlines(ls: seq<string>)
    requires forall i :: 0 <= i < |ls| ==> Newlines(ls[i]) == 1
    ensures Newlines(Flatten(ls)) == |ls|
    decreases |ls|
  {
    if |ls| > 0 {
      FlattenNewlines(ls[1..]);
      assert multiset(ls[0] + Flatten(ls[1..])) == multiset(ls[0]) + multiset(Flatten(ls[1..]));
    }
  }

  /** Every line of the dump ends in its only newline. */
  lemma LinesHaveOneNewline(data: seq<bv8>)
    ensures forall i :: 0 <= i < |Lines(data)| ==> Newlines(Lines(data)[i]) == 1
  {
    var ls := Lines(data);
    forall i | 0 <= i < |ls|
      ensures Newlines(ls[i]) == 1
    {
      OneNewlinePerLine(16 * i, Chunks(data)[i]);
    }
  }

  /** 20 bytes print as a full line and a four-byte line. */
  lemma TwoLines(data: seq<bv8>)
    requires |data| == 20
    ensures |Lines(data)| == 2
    ensures |Chunks(data)[0]| == 16 && |Chunks(data)[1]| == 4
  {
    assert Chunks(data)[1] == data[16..];
  }

  /** The two lines' offsets print as 0000 and 0010. */
  lemma OffsetsOfTwoLines()
    ensures PadHex(0, 4) == "0000" && PadHex(16, 4) == "0010"
  {
    assert ToHex(0) == "0";
    assert ToHex(16) == ToHex(1) + [DigitChar(0)] == "10";
    assert seq(3, _ => '0') == "000";
    assert seq(2, _ => '0') == "00";
  }
}
