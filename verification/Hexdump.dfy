/** The two-column dump, and reading the data back from it. */
module Hexdump {
  import opened Bytes
  import opened Hex

  const ROW: nat := 16

  /** The minimal hexadecimal digits of a number. */
  function HexNumber(n: nat): (s: string)
    ensures |s| > 0
  {
    if n < 16 then [HexDigit(n)] else HexNumber(n / 16) + [HexDigit(n % 16)]
  }

  /** format!("{:04x}"): at least four digits. */
  function Offset(n: nat): string {
    var s := HexNumber(n);
    if |s| >= 4 then s else seq(4 - |s|, _ => '0') + s
  }

  /** What stands at position p of the hex column: a gap before the ninth cell, then the byte or blanks. */
  function Cell(chunk: seq<byte>, p: nat): string {
    (if p == 8 then [' '] else []) + (if p < |chunk| then HexByte(chunk[p]) + [' '] else [' ', ' ', ' '])
  }

  /** The first p cells. */
  function Cells(chunk: seq<byte>, p: nat): string {
    if p == 0 then [] else Cells(chunk, p - 1) + Cell(chunk, p - 1)
  }

  function Printable(b: byte): char {
    if 0x20 <= b <= 0x7e then b as char else '.'
  }

  /** The first p characters of the text column. */
  function Text(chunk: seq<byte>, p: nat): (s: string)
    requires p <= |chunk|
    ensures |s| == p
  {
    if p == 0 then [] else Text(chunk, p - 1) + [Printable(chunk[p - 1])]
  }

  function Row(chunk: seq<byte>, offset: nat): string {
    "  " + Offset(offset) + "  " + Cells(chunk, ROW) + " " + Text(chunk, |chunk|) + "\n"
  }

  function ChunkEnd(data: seq<byte>, offset: nat): (end: nat)
    requires offset < |data|
    ensures offset < end <= |data| && end <= offset + ROW
  {
    if offset + ROW < |data| then offset + ROW else |data|
  }

  function Dump(data: seq<byte>, offset: nat): string
    requires offset <= |data|
    decreases |data| - offset
  {
    if offset == |data| then []
    else Row(data[offset..ChunkEnd(data, offset)], offset) + Dump(data, ChunkEnd(data, offset))
  }

  /** hexdump. */
  method Print(data: seq<byte>) returns (output: string)
    ensures output == Dump(data, 0)
  {
    hide Row;
    output := [];
    var offset := 0;
    while offset < |data|
      invariant 0 <= offset <= |data|
      invariant output + Dump(data, offset) == Dump(data, 0)
      decreases |data| - offset
    {
      var chunk := data[offset..ChunkEnd(data, offset)];
      var row := PrintRow(chunk, offset);
      assert output + (row + Dump(data, offset + |chunk|)) == (output + row) + Dump(data, offset + |chunk|);
      output := output + row;
      offset := offset + |chunk|;
    }
  }

  /** The loops that write one row. */
  method PrintRow(chunk: seq<byte>, offset: nat) returns (output: string)
    requires |chunk| <= ROW
    ensures output == Row(chunk, offset)
  {
    hide HexByte, Offset, Printable;
    output := "  " + Offset(offset) + "  ";
    ghost var start := output;
    for i := 0 to |chunk|
      invariant output == start + Cells(chunk, i)
    {
      ghost var before := output;
      if i == 8 {
        output := output + [' '];
      }
      output := output + (HexByte(chunk[i]) + [' ']);
      assert output == before + Cell(chunk, i);
    }
    var missing := 16 - |chunk|;
    for i := 0 to missing
      invariant output == start + Cells(chunk, |chunk| + i)
    {
      ghost var before := output;
      if |chunk| + i == 8 {
        output := output + [' '];
      }
      output := output + [' ', ' ', ' '];
      assert output == before + Cell(chunk, |chunk| + i);
    }
    output := output + " ";
    ghost var text := output;
    for i := 0 to |chunk|
      invariant output == text + Text(chunk, i)
    {
      output := output + [Printable(chunk[i])];
    }
    output := output + "\n";
  }

  // ---- reading a dump ----

  /** The position of the first c, or the length when there is none. */
  function IndexOf(s: string, c: char): (i: nat)
    ensures i <= |s|
  {
    if |s| == 0 || s[0] == c then 0 else 1 + IndexOf(s[1..], c)
  }

  lemma {:induction false} IndexAfter(a: string, c: char, rest: string)
    requires c !in a
    ensures IndexOf(a + [c] + rest, c) == |a|
  {
    if |a| == 0 {
      assert (a + [c] + rest)[0] == c;
    } else {
      IndexAfter(a[1..], c, rest);
      assert (a + [c] + rest)[1..] == a[1..] + [c] + rest;
      assert (a + [c] + rest)[0] == a[0];
    }
  }

  /** Where the digits of cell p stand in the hex column. */
  function CellAt(p: nat): nat {
    3 * p + (if p >= 8 then 1 else 0)
  }

  /** The first n bytes of a hex column. */
  function ReadCells(column: string, n: nat): seq<byte>
    requires n <= ROW && |column| == COLUMN_WIDTH
  {
    if n == 0 then [] else ReadCells(column, n - 1) + [Unhex(column[CellAt(n - 1)], column[CellAt(n - 1) + 1])]
  }

  const COLUMN_WIDTH: nat := 49

  /** Reads row after row: margin, offset, two spaces, 49 characters of hex, a space, text up to the line end. */
  function ReadDump(s: string): Option<seq<byte>>
    decreases |s|
  {
    if |s| == 0 then Some([])
    else if |s| < 2 then None
    else
      var column := 2 + IndexOf(s[2..], ' ') + 2;
      if column + COLUMN_WIDTH + 1 > |s| then None
      else
        var text := s[column + COLUMN_WIDTH + 1..];
        var n := IndexOf(text, '\n');
        if n == |text| || n > ROW then None
        else
          match ReadDump(text[n + 1..])
          case None => None
          case Some(tail) => Some(ReadCells(s[column..column + COLUMN_WIDTH], n) + tail)
  }

  lemma {:induction false} HexNumberNoSpace(n: nat)
    ensures ' ' !in HexNumber(n)
  {
    if n < 16 {
      HexValueDigit(n);
    } else {
      HexNumberNoSpace(n / 16);
      HexValueDigit(n % 16);
    }
  }

  /** The number that hexadecimal digits write. */
  function ReadHexNumber(s: string): nat {
    if |s| == 0 then 0 else ReadHexNumber(s[..|s| - 1]) * 16 + HexValue(s[|s| - 1])
  }

  lemma {:induction false} HexNumberValue(n: nat)
    ensures ReadHexNumber(HexNumber(n)) == n
  {
    HexValueDigit(n % 16);
    if n < 16 {
      assert HexNumber(n)[..0] == [];
    } else {
      HexNumberValue(n / 16);
      assert HexNumber(n)[..|HexNumber(n)| - 1] == HexNumber(n / 16);
    }
  }

  lemma {:induction false} LeadingZeros(k: nat, s: string)
    ensures ReadHexNumber(seq(k, _ => '0') + s) == ReadHexNumber(s)
    decreases k + |s|
  {
    var zeros := seq(k, _ => '0');
    if |s| > 0 {
      assert (zeros + s)[..k + |s| - 1] == zeros + s[..|s| - 1];
      LeadingZeros(k, s[..|s| - 1]);
    } else if k > 0 {
      assert (zeros + s)[..k - 1] == seq(k - 1, _ => '0') + s;
      LeadingZeros(k - 1, s);
    } else {
      assert zeros + s == s;
    }
  }

  /** The offset column has at least four digits, no space, and reads as the row's offset, however large. */
  lemma OffsetColumn(n: nat)
    ensures |Offset(n)| >= 4 && ' ' !in Offset(n) && ReadHexNumber(Offset(n)) == n
  {
    var s := HexNumber(n);
    HexNumberNoSpace(n);
    HexNumberValue(n);
    if |s| < 4 {
      LeadingZeros(4 - |s|, s);
    }
  }

  /** Every row's hex column is 49 characters wide, full row or not, and byte p stands at CellAt(p). */
  lemma {:induction false} CellsLayout(chunk: seq<byte>, p: nat)
    requires p <= ROW && |chunk| <= ROW
    ensures |Cells(chunk, p)| == 3 * p + (if p > 8 then 1 else 0)
    ensures forall i :: 0 <= i < p && i < |chunk| ==>
      Cells(chunk, p)[CellAt(i)] == HexByte(chunk[i])[0] && Cells(chunk, p)[CellAt(i) + 1] == HexByte(chunk[i])[1]
  {
    hide HexByte;
    if p > 0 {
      CellsLayout(chunk, p - 1);
      CellLayout(chunk, p - 1);
      hide Cell;
      var before, cell := Cells(chunk, p - 1), Cell(chunk, p - 1);
      assert Cells(chunk, p) == before + cell;
    }
  }

  lemma CellLayout(chunk: seq<byte>, p: nat)
    requires |chunk| <= ROW
    ensures
      var gap := if p == 8 then 1 else 0;
      |Cell(chunk, p)| == gap + 3 &&
      (p < |chunk| ==>
        Cell(chunk, p)[gap] == HexByte(chunk[p])[0] && Cell(chunk, p)[gap + 1] == HexByte(chunk[p])[1])
  {
    hide HexByte;
  }

  lemma {:induction false} ReadCellsBack(chunk: seq<byte>, n: nat)
    requires n <= |chunk| <= ROW && |Cells(chunk, ROW)| == COLUMN_WIDTH
    requires forall i :: 0 <= i < |chunk| ==>
      Cells(chunk, ROW)[CellAt(i)] == HexByte(chunk[i])[0] && Cells(chunk, ROW)[CellAt(i) + 1] == HexByte(chunk[i])[1]
    ensures ReadCells(Cells(chunk, ROW), n) == chunk[..n]
  {
    hide HexByte, Cells;
    if n > 0 {
      ReadCellsBack(chunk, n - 1);
      UnhexHexByte(chunk[n - 1]);
    }
  }

  lemma {:induction false} TextIsOneLine(chunk: seq<byte>, p: nat)
    requires p <= |chunk|
    ensures '\n' !in Text(chunk, p)
  {
    if p > 0 {
      TextIsOneLine(chunk, p - 1);
    }
  }

  /** Where the parts of a row are found. */
  lemma RowParts(off: string, cells: string, text: string, rest: string)
    requires ' ' !in off && |cells| == COLUMN_WIDTH && '\n' !in text
    ensures
      var s := "  " + off + "  " + cells + " " + text + "\n" + rest;
      var column := |off| + 4;
      var after := column + COLUMN_WIDTH + 1;
      && |s| >= after
      && IndexOf(s[2..], ' ') == |off|
      && s[column..column + COLUMN_WIDTH] == cells
      && s[after..] == text + ['\n'] + rest
      && IndexOf(s[after..], '\n') == |text|
      && s[after..][|text| + 1..] == rest
  {
    hide IndexOf;
    var s := "  " + off + "  " + cells + " " + text + "\n" + rest;
    var tail := text + ['\n'] + rest;
    var front := "  " + off + "  ";
    assert s == front + cells + " " + tail;
    assert |front| == |off| + 4;
    assert s[|front|..|front| + COLUMN_WIDTH] == cells;
    assert s[|front| + COLUMN_WIDTH + 1..] == tail;
    assert s[2..] == off + [' '] + (" " + cells + " " + tail);
    IndexAfter(off, ' ', " " + cells + " " + tail);
    IndexAfter(text, '\n', rest);
  }

  /** One row is read back, whatever follows it. */
  lemma ReadRow(chunk: seq<byte>, offset: nat, rest: string)
    requires |chunk| <= ROW
    ensures ReadDump(Row(chunk, offset) + rest) ==
      match ReadDump(rest)
      case None => None
      case Some(tail) => Some(chunk + tail)
  {
    hide Cells, Offset, Text, IndexOf, ReadCells;
    var off, cells, text := Offset(offset), Cells(chunk, ROW), Text(chunk, |chunk|);
    OffsetColumn(offset);
    CellsLayout(chunk, ROW);
    ReadCellsBack(chunk, |chunk|);
    TextIsOneLine(chunk, |chunk|);
    RowParts(off, cells, text, rest);
    assert chunk[..|chunk|] == chunk;
  }

  lemma DumpStep(data: seq<byte>, offset: nat)
    requires offset <= |data|
    ensures offset == |data| ==> ReadDump(Dump(data, offset)) == Some([])
    ensures offset < |data| ==>
      Dump(data, offset) == Row(data[offset..ChunkEnd(data, offset)], offset) + Dump(data, ChunkEnd(data, offset))
  {
    hide Row;
  }

  /** Nothing is lost: the whole data is read back from its dump. */
  lemma {:induction false} RoundTrip(data: seq<byte>, offset: nat)
    requires offset <= |data|
    ensures ReadDump(Dump(data, offset)) == Some(data[offset..])
    decreases |data| - offset
  {
    hide Row, ReadDump, Dump;
    DumpStep(data, offset);
    if offset == |data| {
      assert data[offset..] == [];
    } else {
      var end := ChunkEnd(data, offset);
      RoundTrip(data, end);
      ReadRow(data[offset..end], offset, Dump(data, end));
      assert data[offset..] == data[offset..end] + data[end..];
    }
  }
}
