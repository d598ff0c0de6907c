/** What a dump looks like, line by line and character by character. */
module HexdumpLines {
  import opened Bytes
  import opened Hex
  import opened Hexdump

  /** The lines of a text, without their line ends. */
  function Lines(s: string): (ls: seq<string>)
    decreases |s|
  {
    var n := IndexOf(s, '\n');
    if |s| == 0 then [] else if n == |s| then [s] else [s[..n]] + Lines(s[n + 1..])
  }

  /** The sixteen bytes, or at the end fewer, of line k. */
  function LineBytes(data: seq<byte>, k: nat): seq<byte>
    requires 16 * k < |data|
  {
    data[16 * k..if 16 * k + 16 < |data| then 16 * k + 16 else |data|]
  }

  // ---- the hex column ----

  predicate LowerHex(c: char) {
    '0' <= c <= '9' || 'a' <= c <= 'f'
  }

  /** Forty-nine characters: the two digits of byte p at 3 * p, one further from the ninth byte on, and blanks. */
  ghost predicate HexColumn(column: string, bytes: seq<byte>) {
    && |bytes| <= 16 && |column| == 49
    && (forall p :: 0 <= p < |bytes| ==> HexAt(column, p, bytes[p]))
    && (forall j :: 0 <= j < 49 ==> column[j] == ' ' || InCell(j, |bytes|))
  }

  ghost predicate HexAt(column: string, p: nat, b: byte)
    requires p < 16 && |column| == 49
  {
    var at := if p < 8 then 3 * p else 3 * p + 1;
    LowerHex(column[at]) && LowerHex(column[at + 1]) && HexValue(column[at]) * 16 + HexValue(column[at + 1]) == b
  }

  /** Position j belongs to the digits of one of the first n bytes. */
  ghost predicate InCell(j: nat, n: nat) {
    exists p :: 0 <= p < n && Digits(j, p)
  }

  /** Position j is one of the two of byte p. */
  predicate Digits(j: nat, p: nat) {
    var at := if p < 8 then 3 * p else 3 * p + 1;
    at <= j <= at + 1
  }

  lemma LowerDigits(b: byte)
    ensures LowerHex(HexByte(b)[0]) && LowerHex(HexByte(b)[1])
    ensures HexValue(HexByte(b)[0]) * 16 + HexValue(HexByte(b)[1]) == b
  {
    LowerDigit(b / 16);
    LowerDigit(b % 16);
  }

  lemma LowerDigit(n: nat)
    requires n < 16
    ensures LowerHex(HexDigit(n)) && HexValue(HexDigit(n)) == n
  {
    HexValueDigit(n);
  }

  lemma CellsAreColumn(bytes: seq<byte>)
    requires |bytes| <= 16
    ensures HexColumn(Cells(bytes, 16), bytes)
  {
    hide Cells, HexByte, LowerHex, HexValue, InCell;
    CellsLayout(bytes, 16);
    var column := Cells(bytes, 16);
    forall p | 0 <= p < |bytes|
      ensures HexAt(column, p, bytes[p])
    {
      LowerDigits(bytes[p]);
      assert column[CellAt(p)] == HexByte(bytes[p])[0];
    }
    BlanksElsewhere(bytes, 16);
  }

  lemma {:induction false} BlanksElsewhere(bytes: seq<byte>, p: nat)
    requires |bytes| <= 16 && p <= 16
    ensures |Cells(bytes, p)| == 3 * p + (if p > 8 then 1 else 0)
    ensures forall j :: 0 <= j < |Cells(bytes, p)| ==> Cells(bytes, p)[j] == ' ' || InCell(j, |bytes|)
  {
    hide HexByte, InCell;
    CellsLayout(bytes, p);
    if p > 0 {
      BlanksElsewhere(bytes, p - 1);
      CellsLayout(bytes, p - 1);
      var before, cell := Cells(bytes, p - 1), Cell(bytes, p - 1);
      forall j | 0 <= j < |Cells(bytes, p)|
        ensures Cells(bytes, p)[j] == ' ' || InCell(j, |bytes|)
      {
        if j >= |before| {
          BlankInCell(bytes, p - 1, j - |before|);
          if cell[j - |before|] != ' ' {
            CellHolds(j, p - 1, |bytes|);
          }
        }
      }
    }
  }

  /** Inside a cell only the two digits of its byte are not blank. */
  lemma BlankInCell(bytes: seq<byte>, p: nat, i: nat)
    requires i < |Cell(bytes, p)|
    ensures Cell(bytes, p)[i] == ' ' || (p < |bytes| && (if p == 8 then 1 <= i <= 2 else i <= 1))
  {
    hide HexByte;
  }

  lemma CellHolds(j: nat, p: nat, n: nat)
    requires p < n && CellAt(p) <= j <= CellAt(p) + 1
    ensures InCell(j, n)
  {
    assert Digits(j, p);
  }

  // ---- the text column ----

  /** Byte for byte: the character itself from blank to tilde, a dot for every other byte. */
  ghost predicate TextColumn(text: string, bytes: seq<byte>) {
    && |text| == |bytes|
    && forall p :: 0 <= p < |bytes| ==> text[p] == if 0x20 <= bytes[p] <= 0x7e then bytes[p] as char else '.'
  }

  lemma {:induction false} TextIsColumn(bytes: seq<byte>, p: nat)
    requires p <= |bytes|
    ensures TextColumn(Text(bytes, p), bytes[..p])
  {
    if p > 0 {
      TextIsColumn(bytes, p - 1);
    }
  }

  // ---- the lines ----

  /** The line of some bytes: two blanks, the offset in at least four hexadecimal digits, two blanks, the hex column, a
      blank, the text column. */
  ghost predicate LineShows(line: string, offset: nat, bytes: seq<byte>) {
    exists off, column, text :: LineParts(line, offset, bytes, off, column, text)
  }

  ghost predicate LineParts(line: string, offset: nat, bytes: seq<byte>, off: string, column: string, text: string) {
    && line == [' ', ' '] + off + [' ', ' '] + column + [' '] + text
    && |off| >= 4 && ' ' !in off && ReadHexNumber(off) == offset
    && HexColumn(column, bytes) && TextColumn(text, bytes)
  }

  lemma HexNumberIsOneLine(n: nat)
    ensures '\n' !in Offset(n)
  {
    HexDigitsOnly(n);
  }

  lemma {:induction false} HexDigitsOnly(n: nat)
    ensures '\n' !in HexNumber(n)
  {
    LowerDigit(n % 16);
    if n >= 16 {
      HexDigitsOnly(n / 16);
    }
  }

  lemma ColumnIsOneLine(column: string, bytes: seq<byte>)
    requires HexColumn(column, bytes)
    ensures '\n' !in column
  {
    hide HexValue;
    forall j | 0 <= j < |column|
      ensures column[j] != '\n'
    {
      if column[j] != ' ' {
        assert InCell(j, |bytes|);
        var p :| 0 <= p < |bytes| && Digits(j, p);
        assert HexAt(column, p, bytes[p]);
      }
    }
  }

  /** The first line of a row and what follows it. */
  lemma RowIsLine(bytes: seq<byte>, offset: nat, rest: string)
    requires |bytes| <= 16
    ensures
      var s := Row(bytes, offset) + rest;
      && IndexOf(s, '\n') < |s| && s[IndexOf(s, '\n') + 1..] == rest
      && LineShows(s[..IndexOf(s, '\n')], offset, bytes)
  {
    hide Cells, Text, Offset, IndexOf, HexColumn, TextColumn, ReadHexNumber;
    var off, column, text := Offset(offset), Cells(bytes, 16), Text(bytes, |bytes|);
    OffsetColumn(offset);
    HexNumberIsOneLine(offset);
    CellsAreColumn(bytes);
    ColumnIsOneLine(column, bytes);
    TextIsColumn(bytes, |bytes|);
    TextIsOneLine(bytes, |bytes|);
    assert bytes[..|bytes|] == bytes;
    var line := [' ', ' '] + off + [' ', ' '] + column + [' '] + text;
    assert Row(bytes, offset) + rest == line + ['\n'] + rest;
    IndexAfter(line, '\n', rest);
    assert (line + ['\n'] + rest)[..|line|] == line && (line + ['\n'] + rest)[|line| + 1..] == rest;
    assert LineParts(line, offset, bytes, off, column, text);
  }

  /** The lines of a dump from some row on. */
  lemma {:induction false} LinesFrom(data: seq<byte>, from: nat, k: nat)
    requires 16 * (from + k) < |data|
    ensures
      var ls := Lines(Dump(data, 16 * from));
      k < |ls| && LineShows(ls[k], 16 * (from + k), LineBytes(data, from + k))
    decreases k
  {
    hide Row, IndexOf, LineShows, Dump;
    var offset := 16 * from;
    DumpStep(data, offset);
    var end := ChunkEnd(data, offset);
    var row, rest := Row(data[offset..end], offset), Dump(data, end);
    RowIsLine(data[offset..end], offset, rest);
    assert Lines(row + rest) == [(row + rest)[..IndexOf(row + rest, '\n')]] + Lines(rest);
    if k > 0 {
      LinesFrom(data, from + 1, k - 1);
      assert end == 16 * (from + 1);
    }
  }

  /** Line k of the dump shows the k-th sixteen bytes: their offset, their digits and their characters. */
  lemma EveryLine(data: seq<byte>, k: nat)
    requires 16 * k < |data|
    ensures
      var ls := Lines(Dump(data, 0));
      k < |ls| && LineShows(ls[k], 16 * k, LineBytes(data, k))
  {
    LinesFrom(data, 0, k);
  }

  // ---- reading the text column ----

  /** What stands behind the offset, the hex column and their blanks. */
  function TextOf(line: string): string {
    var at := 2 + IndexOf(if |line| < 2 then [] else line[2..], ' ') + 2 + 49 + 1;
    if at <= |line| then line[at..] else []
  }

  lemma TextOfLine(line: string, offset: nat, bytes: seq<byte>)
    requires LineShows(line, offset, bytes)
    ensures TextColumn(TextOf(line), bytes)
  {
    hide IndexOf, HexAt, TextColumn, InCell, ReadHexNumber;
    var off, column, text :| LineParts(line, offset, bytes, off, column, text);
    assert line[2..] == off + [' '] + ([' '] + column + [' '] + text);
    IndexAfter(off, ' ', [' '] + column + [' '] + text);
    assert line[|off| + 54..] == text;
  }

  /** Position by position: character p of the text column of line k. */
  lemma TextColumnShows(data: seq<byte>, k: nat, p: nat)
    requires p < 16 && 16 * k + p < |data|
    ensures
      var ls, b := Lines(Dump(data, 0)), data[16 * k + p];
      k < |ls| && p < |TextOf(ls[k])| && TextOf(ls[k])[p] == if 0x20 <= b <= 0x7e then b as char else '.'
  {
    hide LineShows, TextOf;
    EveryLine(data, k);
    TextOfLine(Lines(Dump(data, 0))[k], 16 * k, LineBytes(data, k));
    assert LineBytes(data, k)[p] == data[16 * k + p];
  }

  /** The text columns of some lines, put together. */
  function AllText(ls: seq<string>): string {
    if |ls| == 0 then [] else TextOf(ls[0]) + AllText(ls[1..])
  }

  function Chars(data: seq<byte>): string {
    seq(|data|, i requires 0 <= i < |data| => data[i] as char)
  }

  lemma {:induction false} PrintableFrom(data: seq<byte>, offset: nat)
    requires offset <= |data| && forall i :: 0 <= i < |data| ==> 0x20 <= data[i] <= 0x7e
    ensures AllText(Lines(Dump(data, offset))) == Chars(data[offset..])
    decreases |data| - offset
  {
    hide Row, IndexOf, LineShows, TextOf, Dump;
    DumpStep(data, offset);
    if offset < |data| {
      var end := ChunkEnd(data, offset);
      var bytes, rest := data[offset..end], Dump(data, end);
      var s := Row(bytes, offset) + rest;
      RowIsLine(bytes, offset, rest);
      var line := s[..IndexOf(s, '\n')];
      assert Lines(s) == [line] + Lines(rest);
      TextOfLine(line, offset, bytes);
      PrintableFrom(data, end);
      assert TextOf(line) == Chars(bytes);
      assert AllText([line] + Lines(rest)) == TextOf(line) + AllText(Lines(rest)) by {
        assert ([line] + Lines(rest))[1..] == Lines(rest);
      }
      assert Chars(data[offset..]) == Chars(bytes) + Chars(data[end..]);
    } else {
      assert Dump(data, offset) == [] by {
        EmptyDump(data);
      }
      assert Chars(data[offset..]) == [];
    }
  }

  lemma EmptyDump(data: seq<byte>)
    ensures Dump(data, |data|) == []
  {
  }

  /** The text columns of a dump of printable ASCII, put together, are the data. */
  lemma PrintableDataIsItsText(data: seq<byte>)
    requires forall i :: 0 <= i < |data| ==> 0x20 <= data[i] <= 0x7e
    ensures AllText(Lines(Dump(data, 0))) == Chars(data)
  {
    PrintableFrom(data, 0);
    assert data[0..] == data;
  }
}
