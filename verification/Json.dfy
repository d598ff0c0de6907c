/** The JSON records: escaping, the record format, and reading them back. */
module Json {
  import opened Bytes

  /** str::replace for a one-character pattern. */
  function Replace(s: string, c: char, to: string): string {
    if |s| == 0 then [] else (if s[0] == c then to else [s[0]]) + Replace(s[1..], c, to)
  }

  /** escape_json: backslashes first, then quotes. */
  function EscapeJson(s: string): string {
    Replace(Replace(s, '\\', "\\\\"), '\"', "\\\"")
  }

  /** A string body up to its closing quote, in which a backslash may precede a backslash or a quote only. */
  function LexString(s: string): Option<(string, string)>
    decreases |s|
  {
    if |s| == 0 then None
    else if s[0] == '\"' then Some(([], s[1..]))
    else if s[0] == '\\' then
      if |s| >= 2 && (s[1] == '\\' || s[1] == '\"') then Prepend(s[1], LexString(s[2..])) else None
    else Prepend(s[0], LexString(s[1..]))
  }

  function Prepend(c: char, lexed: Option<(string, string)>): Option<(string, string)> {
    match lexed
    case None => None
    case Some((body, rest)) => Some(([c] + body, rest))
  }

  /** What one character of the input becomes. */
  function EscapedChar(c: char): string {
    if c == '\\' then "\\\\" else if c == '\"' then "\\\"" else [c]
  }

  lemma {:induction false} ReplaceAppend(a: string, b: string, c: char, to: string)
    ensures Replace(a + b, c, to) == Replace(a, c, to) + Replace(b, c, to)
  {
    if |a| == 0 {
      assert a + b == b;
    } else {
      assert (a + b)[1..] == a[1..] + b;
      ReplaceAppend(a[1..], b, c, to);
    }
  }

  /** The two passes escape one character at a time; the second does not touch what the first inserted. */
  lemma EscapeStep(s: string)
    requires |s| > 0
    ensures EscapeJson(s) == EscapedChar(s[0]) + EscapeJson(s[1..])
  {
    var first := if s[0] == '\\' then "\\\\" else [s[0]];
    var tail := Replace(s[1..], '\\', "\\\\");
    ReplaceAppend(first, tail, '\"', "\\\"");
    ReplaceShort(first);
  }

  lemma ReplaceShort(t: string)
    requires t == "\\\\" || |t| == 1
    ensures Replace(t, '\"', "\\\"") == if t == "\"" then "\\\"" else t
  {
    if |t| == 2 {
      assert t[1..] == "\\" && t[1..][1..] == "";
    } else {
      assert t[1..] == "";
    }
  }

  /** One escaped character lexes back to the character. */
  lemma LexOne(c: char, tail: string)
    ensures LexString(EscapedChar(c) + tail) == Prepend(c, LexString(tail))
  {
    var n := |EscapedChar(c)|;
    assert (EscapedChar(c) + tail)[n..] == tail;
  }

  /** An escaped string followed by a quote lexes back to the string, whatever comes after. */
  lemma {:induction false} LexEscaped(s: string, rest: string)
    ensures LexString(EscapeJson(s) + ['\"'] + rest) == Some((s, rest))
  {
    if |s| == 0 {
      assert EscapeJson(s) + ['\"'] + rest == ['\"'] + rest;
    } else {
      EscapeStep(s);
      LexEscaped(s[1..], rest);
      hide EscapeJson, LexString, EscapedChar;
      var tail := EscapeJson(s[1..]) + ['\"'] + rest;
      assert EscapeJson(s) + ['\"'] + rest == EscapedChar(s[0]) + tail;
      LexOne(s[0], tail);
      assert s == [s[0]] + s[1..];
    }
  }

  // ---- numbers ----

  function Digit(n: nat): char
    requires n < 10
  {
    '0' + n as char
  }

  predicate IsDigit(c: char) {
    '0' <= c <= '9'
  }

  /** Display for usize. */
  function Decimal(n: nat): (s: string)
    ensures |s| > 0
  {
    if n < 10 then [Digit(n)] else Decimal(n / 10) + [Digit(n % 10)]
  }

  /** Digits off the front, onto the number read so far. */
  function ReadDigits(s: string, n: nat): (nat, string) {
    if |s| == 0 || !IsDigit(s[0]) then (n, s) else ReadDigits(s[1..], n * 10 + (s[0] - '0') as int)
  }

  function Pow10(k: nat): nat {
    if k == 0 then 1 else 10 * Pow10(k - 1)
  }

  lemma Pow10Step(k: nat)
    ensures Pow10(k + 1) == 10 * Pow10(k)
  {
  }

  lemma {:induction false} ReadDecimalOnto(n: nat, rest: string, m: nat)
    ensures ReadDigits(Decimal(n) + rest, m) == ReadDigits(rest, m * Pow10(|Decimal(n)|) + n)
  {
    if n < 10 {
      assert (Decimal(n) + rest)[1..] == rest;
      assert Pow10(1) == 10;
    } else {
      hide Pow10;
      Pow10Step(|Decimal(n / 10)|);
      var d := Digit(n % 10);
      var p := Pow10(|Decimal(n / 10)|);
      assert Decimal(n) + rest == Decimal(n / 10) + ([d] + rest);
      ReadDecimalOnto(n / 10, [d] + rest, m);
      assert ([d] + rest)[1..] == rest;
      ShiftDigit(m, p, n);
    }
  }

  lemma ShiftDigit(m: nat, p: nat, n: nat)
    ensures (m * p + n / 10) * 10 + n % 10 == m * (10 * p) + n
  {
    assert m * p * 10 == m * (10 * p);
  }

  // ---- records ----

  datatype Record = Record(timestamp: string, proto: string, src: string, dst: string, info: string, size: nat)

  const KEY_TIMESTAMP: string := "{\"timestamp\":\""
  const KEY_PROTO: string := ",\"proto\":\""
  const KEY_SRC: string := ",\"src\":\""
  const KEY_DST: string := ",\"dst\":\""
  const KEY_INFO: string := ",\"info\":\""
  const KEY_SIZE: string := ",\"size\":"
  const END: string := "}\n"

  /** One field: its key, the escaped value, the closing quote. */
  function Field(key: string, value: string): string {
    key + EscapeJson(value) + ['\"']
  }

  function Render(r: Record): string {
    Field(KEY_TIMESTAMP, r.timestamp) + Field(KEY_PROTO, r.proto) + Field(KEY_SRC, r.src)
    + Field(KEY_DST, r.dst) + Field(KEY_INFO, r.info) + KEY_SIZE + Decimal(r.size) + END
  }

  function ReadKey(key: string, s: string): Option<string> {
    if key <= s then Some(s[|key|..]) else None
  }

  function ReadField(key: string, s: string): Option<(string, string)> {
    match ReadKey(key, s)
    case None => None
    case Some(rest) => LexString(rest)
  }

  lemma ReadFieldBack(key: string, value: string, rest: string)
    ensures ReadField(key, Field(key, value) + rest) == Some((value, rest))
  {
    hide EscapeJson, LexString;
    var s := Field(key, value) + rest;
    assert s == key + (EscapeJson(value) + ['\"'] + rest);
    LexEscaped(value, rest);
  }

  function ReadRecord(s: string): Option<(Record, string)> {
    match ReadField(KEY_TIMESTAMP, s)
    case None => None
    case Some((timestamp, s1)) =>
      match ReadField(KEY_PROTO, s1)
      case None => None
      case Some((proto, s2)) =>
        match ReadField(KEY_SRC, s2)
        case None => None
        case Some((src, s3)) =>
          match ReadField(KEY_DST, s3)
          case None => None
          case Some((dst, s4)) =>
            match ReadField(KEY_INFO, s4)
            case None => None
            case Some((info, s5)) =>
              match ReadKey(KEY_SIZE, s5)
              case None => None
              case Some(s6) =>
                var (size, s7) := ReadDigits(s6, 0);
                match ReadKey(END, s7)
                case None => None
                case Some(s8) => Some((Record(timestamp, proto, src, dst, info, size), s8))
  }

  lemma ReadSizeBack(size: nat, rest: string)
    ensures ReadKey(KEY_SIZE, KEY_SIZE + Decimal(size) + END + rest) == Some(Decimal(size) + END + rest)
    ensures ReadDigits(Decimal(size) + END + rest, 0) == (size, END + rest)
    ensures ReadKey(END, END + rest) == Some(rest)
  {
    assert KEY_SIZE + Decimal(size) + END + rest == KEY_SIZE + (Decimal(size) + END + rest);
    assert Decimal(size) + END + rest == Decimal(size) + (END + rest);
    ReadDecimalOnto(size, END + rest, 0);
    assert (END + rest)[0] == '}';
  }

  /** A record splits back into its six fields, whatever follows it. */
  lemma ReadRecordBack(r: Record, rest: string)
    ensures ReadRecord(Render(r) + rest) == Some((r, rest))
  {
    hide ReadField, ReadKey, ReadDigits, Field, Decimal;
    var s6 := KEY_SIZE + Decimal(r.size) + END + rest;
    var s5 := Field(KEY_INFO, r.info) + s6;
    var s4 := Field(KEY_DST, r.dst) + s5;
    var s3 := Field(KEY_SRC, r.src) + s4;
    var s2 := Field(KEY_PROTO, r.proto) + s3;
    assert Render(r) + rest == Field(KEY_TIMESTAMP, r.timestamp) + s2;
    ReadFieldBack(KEY_TIMESTAMP, r.timestamp, s2);
    ReadFieldBack(KEY_PROTO, r.proto, s3);
    ReadFieldBack(KEY_SRC, r.src, s4);
    ReadFieldBack(KEY_DST, r.dst, s5);
    ReadFieldBack(KEY_INFO, r.info, s6);
    ReadSizeBack(r.size, rest);
  }

  function RenderAll(rs: seq<Record>): string {
    if |rs| == 0 then [] else Render(rs[0]) + RenderAll(rs[1..])
  }

  function ReadAll(s: string): (rs: seq<Record>)
    decreases |s|
  {
    match ReadRecord(s)
    case None => []
    case Some((r, rest)) => if |rest| < |s| then [r] + ReadAll(rest) else [r]
  }

  /** A whole file of records reads back, in order. */
  lemma {:induction false} ReadAllBack(rs: seq<Record>)
    ensures ReadAll(RenderAll(rs)) == rs
  {
    hide Render, ReadRecord;
    if |rs| == 0 {
      NothingToRead();
    } else {
      ReadRecordBack(rs[0], RenderAll(rs[1..]));
      ReadAllBack(rs[1..]);
      RenderNotEmpty(rs[0]);
    }
  }

  lemma {:induction false} RenderAllSnoc(rs: seq<Record>, r: Record)
    ensures RenderAll(rs + [r]) == RenderAll(rs) + Render(r)
  {
    hide Render;
    if |rs| == 0 {
      assert RenderAll([r]) == Render(r) + RenderAll([r][1..]) == Render(r);
      assert rs + [r] == [r];
    } else {
      assert (rs + [r])[1..] == rs[1..] + [r];
      RenderAllSnoc(rs[1..], r);
      assert Render(rs[0]) + (RenderAll(rs[1..]) + Render(r)) == RenderAll(rs) + Render(r);
    }
  }

  lemma NothingToRead()
    ensures ReadRecord([]).None?
  {
    assert |KEY_TIMESTAMP| > 0;
  }

  lemma RenderNotEmpty(r: Record)
    ensures |Render(r)| > 0
  {
    assert |END| > 0;
  }

  // ---- reading the records as JSON objects ----

  datatype Value = Text(text: string) | Number(n: nat)

  datatype Member = Member(name: string, value: Value)

  /** A string in quotes, or digits. */
  function ReadValue(s: string): Option<(Value, string)> {
    if |s| == 0 then None
    else if s[0] == '\"' then
      match LexString(s[1..])
      case None => None
      case Some((text, rest)) => Some((Text(text), rest))
    else if IsDigit(s[0]) then
      var (n, rest) := ReadDigits(s, 0);
      Some((Number(n), rest))
    else None
  }

  /** A name in quotes, a colon, a value. */
  function ReadMember(s: string): Option<(Member, string)> {
    if |s| == 0 || s[0] != '\"' then None
    else
      match LexString(s[1..])
      case None => None
      case Some((name, rest)) =>
        if |rest| == 0 || rest[0] != ':' then None
        else
          match ReadValue(rest[1..])
          case None => None
          case Some((value, rest')) => Some((Member(name, value), rest'))
  }

  /** Members with commas between them, up to the closing brace. */
  function ReadMembers(s: string): Option<(seq<Member>, string)>
    decreases |s|
  {
    match ReadMember(s)
    case None => None
    case Some((m, rest)) =>
      if |rest| == 0 || |rest| > |s| then None
      else if rest[0] == '}' then Some(([m], rest[1..]))
      else if rest[0] == ',' then
        match ReadMembers(rest[1..])
        case None => None
        case Some((ms, rest')) => Some(([m] + ms, rest'))
      else None
  }

  /** One object and the line end behind it. The reader knows no names. */
  function ReadObject(s: string): Option<(seq<Member>, string)> {
    if |s| == 0 || s[0] != '{' then None
    else
      match ReadMembers(s[1..])
      case None => None
      case Some((ms, rest)) => if |rest| > 0 && rest[0] == '\n' then Some((ms, rest[1..])) else None
  }

  function ReadObjects(s: string): seq<seq<Member>>
    decreases |s|
  {
    match ReadObject(s)
    case None => []
    case Some((ms, rest)) => if |rest| < |s| then [ms] + ReadObjects(rest) else [ms]
  }

  /** What a record says: six members by name. */
  function Members(r: Record): seq<Member> {
    [Member("timestamp", Text(r.timestamp)), Member("proto", Text(r.proto)), Member("src", Text(r.src)),
     Member("dst", Text(r.dst)), Member("info", Text(r.info)), Member("size", Number(r.size))]
  }

  predicate Plain(name: string) {
    forall i :: 0 <= i < |name| ==> name[i] != '\"' && name[i] != '\\'
  }

  lemma {:induction false} LexPlain(name: string, rest: string)
    requires Plain(name)
    ensures LexString(name + ['\"'] + rest) == Some((name, rest))
  {
    var s := name + ['\"'] + rest;
    if |name| == 0 {
      assert s[1..] == rest;
    } else {
      assert s[1..] == name[1..] + ['\"'] + rest;
      LexPlain(name[1..], rest);
      assert name == [name[0]] + name[1..];
    }
  }

  /** A member with a text, as it is written. */
  function TextMember(name: string, value: string): string {
    ['\"'] + name + ['\"', ':', '\"'] + EscapeJson(value) + ['\"']
  }

  lemma ReadTextMember(name: string, value: string, rest: string)
    requires Plain(name)
    ensures ReadMember(TextMember(name, value) + rest) == Some((Member(name, Text(value)), rest))
  {
    hide LexString, EscapeJson, ReadDigits;
    var tail := EscapeJson(value) + ['\"'] + rest;
    var s := TextMember(name, value) + rest;
    assert s[1..] == name + ['\"'] + ([':', '\"'] + tail);
    LexPlain(name, [':', '\"'] + tail);
    assert ([':', '\"'] + tail)[1..] == ['\"'] + tail && (['\"'] + tail)[1..] == tail;
    LexEscaped(value, rest);
  }

  lemma ReadNumberMember(name: string, n: nat, rest: string)
    requires Plain(name) && |rest| > 0 && !IsDigit(rest[0])
    ensures ReadMember(['\"'] + name + ['\"', ':'] + Decimal(n) + rest) == Some((Member(name, Number(n)), rest))
  {
    DecimalStarts(n);
    hide LexString, Decimal, ReadDigits, IsDigit;
    var tail := Decimal(n) + rest;
    var s := ['\"'] + name + ['\"', ':'] + Decimal(n) + rest;
    assert s[1..] == name + ['\"'] + ([':'] + tail);
    LexPlain(name, [':'] + tail);
    assert ([':'] + tail)[1..] == tail;
    ReadDecimalOnto(n, rest, 0);
    NoMoreDigits(rest, n);
  }

  lemma NoMoreDigits(rest: string, n: nat)
    requires |rest| > 0 && !IsDigit(rest[0])
    ensures ReadDigits(rest, n) == (n, rest)
  {
  }

  lemma {:induction false} DecimalStarts(n: nat)
    ensures IsDigit(Decimal(n)[0]) && Decimal(n)[0] != '\"'
  {
    if n >= 10 {
      DecimalStarts(n / 10);
    }
  }

  lemma MoreMembers(first: string, m: Member, tail: string)
    requires ReadMember(first + ([','] + tail)) == Some((m, [','] + tail)) && ReadMembers(tail).Some?
    ensures ReadMembers(first + ([','] + tail)) == Some(([m] + ReadMembers(tail).value.0, ReadMembers(tail).value.1))
  {
    hide ReadMember;
    assert ([','] + tail)[1..] == tail;
  }

  lemma LastMember(first: string, m: Member, tail: string)
    requires ReadMember(first + (['}'] + tail)) == Some((m, ['}'] + tail))
    ensures ReadMembers(first + (['}'] + tail)) == Some(([m], tail))
  {
    hide ReadMember;
    assert (['}'] + tail)[1..] == tail;
  }

  lemma FieldText(timestamp: string, proto: string)
    ensures Field(KEY_TIMESTAMP, timestamp) == ['{'] + TextMember("timestamp", timestamp)
    ensures Field(KEY_PROTO, proto) == [','] + TextMember("proto", proto)
  {
    hide EscapeJson;
    assert KEY_TIMESTAMP == ['{', '\"'] + "timestamp" + ['\"', ':', '\"'];
    assert KEY_PROTO == [',', '\"'] + "proto" + ['\"', ':', '\"'];
  }

  lemma FieldTexts(src: string, dst: string, info: string)
    ensures Field(KEY_SRC, src) == [','] + TextMember("src", src)
    ensures Field(KEY_DST, dst) == [','] + TextMember("dst", dst)
    ensures Field(KEY_INFO, info) == [','] + TextMember("info", info)
  {
    hide EscapeJson;
    assert KEY_SRC == [',', '\"'] + "src" + ['\"', ':', '\"'];
    assert KEY_DST == [',', '\"'] + "dst" + ['\"', ':', '\"'];
    assert KEY_INFO == [',', '\"'] + "info" + ['\"', ':', '\"'];
  }

  lemma NamesArePlain()
    ensures Plain("timestamp") && Plain("proto") && Plain("src") && Plain("dst") && Plain("info") && Plain("size")
  {
  }

  /** The record from its size on. */
  function SizeText(size: nat, rest: string): string {
    ['\"'] + "size" + ['\"', ':'] + Decimal(size) + (['}'] + (['\n'] + rest))
  }

  lemma SizeTextIs(size: nat, rest: string)
    ensures KEY_SIZE + Decimal(size) + END + rest == [','] + SizeText(size, rest)
  {
    hide Decimal;
    assert KEY_SIZE == [','] + (['\"'] + "size" + ['\"', ':']);
    assert END + rest == ['}'] + (['\n'] + rest);
  }

  lemma CommaThen(field: string, member: string, before: string, after: string)
    requires field == [','] + member && before == [','] + after
    ensures field + before == [','] + (member + ([','] + after))
  {
  }

  /** The record as members with commas between them. */
  lemma RecordText(r: Record, rest: string)
    ensures
      var s5 := TextMember("info", r.info) + ([','] + SizeText(r.size, rest));
      var s4 := TextMember("dst", r.dst) + ([','] + s5);
      var s3 := TextMember("src", r.src) + ([','] + s4);
      var s2 := TextMember("proto", r.proto) + ([','] + s3);
      Render(r) + rest == ['{'] + (TextMember("timestamp", r.timestamp) + ([','] + s2))
  {
    FieldText(r.timestamp, r.proto);
    FieldTexts(r.src, r.dst, r.info);
    SizeTextIs(r.size, rest);
    hide TextMember, Decimal, SizeText, Field;
    var a6, s6 := KEY_SIZE + Decimal(r.size) + END + rest, SizeText(r.size, rest);
    var a5, s5 := Field(KEY_INFO, r.info) + a6, TextMember("info", r.info) + ([','] + s6);
    CommaThen(Field(KEY_INFO, r.info), TextMember("info", r.info), a6, s6);
    var a4, s4 := Field(KEY_DST, r.dst) + a5, TextMember("dst", r.dst) + ([','] + s5);
    CommaThen(Field(KEY_DST, r.dst), TextMember("dst", r.dst), a5, s5);
    var a3, s3 := Field(KEY_SRC, r.src) + a4, TextMember("src", r.src) + ([','] + s4);
    CommaThen(Field(KEY_SRC, r.src), TextMember("src", r.src), a4, s4);
    var a2, s2 := Field(KEY_PROTO, r.proto) + a3, TextMember("proto", r.proto) + ([','] + s3);
    CommaThen(Field(KEY_PROTO, r.proto), TextMember("proto", r.proto), a3, s3);
    assert Render(r) + rest == Field(KEY_TIMESTAMP, r.timestamp) + a2;
    assert ['{'] + TextMember("timestamp", r.timestamp) + ([','] + s2)
        == ['{'] + (TextMember("timestamp", r.timestamp) + ([','] + s2));
  }

  lemma ReadSize(size: nat, rest: string)
    ensures ReadMembers(SizeText(size, rest)) == Some(([Member("size", Number(size))], ['\n'] + rest))
  {
    NamesArePlain();
    BraceIsNoDigit();
    hide Decimal, ReadMember, ReadMembers, Plain, IsDigit;
    var end := ['\n'] + rest;
    ReadNumberMember("size", size, ['}'] + end);
    LastMember(['\"'] + "size" + ['\"', ':'] + Decimal(size), Member("size", Number(size)), end);
  }

  lemma ReadText(name: string, value: string, tail: string)
    requires Plain(name) && ReadMembers(tail).Some?
    ensures ReadMembers(TextMember(name, value) + ([','] + tail)) ==
      Some(([Member(name, Text(value))] + ReadMembers(tail).value.0, ReadMembers(tail).value.1))
  {
    hide ReadMember, ReadMembers, TextMember, Plain;
    ReadTextMember(name, value, [','] + tail);
    MoreMembers(TextMember(name, value), Member(name, Text(value)), tail);
  }

  /** A record is a JSON object with these six names and values, whatever follows it. */
  lemma RecordIsObject(r: Record, rest: string)
    ensures ReadObject(Render(r) + rest) == Some((Members(r), rest))
  {
    NamesArePlain();
    RecordText(r, rest);
    hide Render, TextMember, SizeText, ReadMember, ReadMembers, Plain;
    var s6 := SizeText(r.size, rest);
    var s5 := TextMember("info", r.info) + ([','] + s6);
    var s4 := TextMember("dst", r.dst) + ([','] + s5);
    var s3 := TextMember("src", r.src) + ([','] + s4);
    var s2 := TextMember("proto", r.proto) + ([','] + s3);
    var s1 := TextMember("timestamp", r.timestamp) + ([','] + s2);
    ReadSize(r.size, rest);
    ReadText("info", r.info, s6);
    ReadText("dst", r.dst, s5);
    ReadText("src", r.src, s4);
    ReadText("proto", r.proto, s3);
    ReadText("timestamp", r.timestamp, s2);
    assert (['{'] + s1)[1..] == s1 && (['\n'] + rest)[1..] == rest;
    assert [Member("timestamp", Text(r.timestamp))] + ([Member("proto", Text(r.proto))] + ([Member("src", Text(r.src))]
      + ([Member("dst", Text(r.dst))] + ([Member("info", Text(r.info))] + [Member("size", Number(r.size))]))))
      == Members(r);
  }

  lemma BraceIsNoDigit()
    ensures !IsDigit('}')
  {
  }

  function AllMembers(rs: seq<Record>): seq<seq<Member>> {
    if |rs| == 0 then [] else [Members(rs[0])] + AllMembers(rs[1..])
  }

  /** A whole file reads as the objects of its records, in order. */
  lemma {:induction false} FileIsObjects(rs: seq<Record>)
    ensures ReadObjects(RenderAll(rs)) == AllMembers(rs)
  {
    hide Render, ReadObject, Members;
    if |rs| == 0 {
      assert ReadObject([]).None? by {
        NoObject();
      }
    } else {
      RecordIsObject(rs[0], RenderAll(rs[1..]));
      FileIsObjects(rs[1..]);
      RenderNotEmpty(rs[0]);
    }
  }

  lemma NoObject()
    ensures ReadObject([]).None?
  {
  }

  lemma {:induction false} AllMembersSnoc(rs: seq<Record>, r: Record)
    ensures AllMembers(rs + [r]) == AllMembers(rs) + [Members(r)]
  {
    if |rs| == 0 {
      assert (rs + [r])[1..] == [];
    } else {
      assert (rs + [r])[1..] == rs[1..] + [r];
      AllMembersSnoc(rs[1..], r);
    }
  }

  /** The writer; records are the packets written so far. */
  class JsonWriter {
    var file: string
    ghost var records: seq<Record>

    ghost predicate Valid()
      reads this
    {
      file == RenderAll(records)
    }

    constructor ()
      ensures Valid() && records == []
    {
      file := [];
      records := [];
    }

    /** write_packet, when the write succeeds: the whole file reads back as the records so far and this one. */
    method WritePacket(timestamp: string, proto: string, src: string, dst: string, info: string, size: nat)
      requires Valid()
      modifies this
      ensures Valid() && records == old(records) + [Record(timestamp, proto, src, dst, info, size)]
      ensures ReadAll(old(file)) == old(records)
      ensures ReadAll(file) == ReadAll(old(file)) + [Record(timestamp, proto, src, dst, info, size)]
      ensures old(file) <= file
      ensures ReadObjects(file) == ReadObjects(old(file)) +
        [[Member("timestamp", Text(timestamp)), Member("proto", Text(proto)), Member("src", Text(src)),
          Member("dst", Text(dst)), Member("info", Text(info)), Member("size", Number(size))]]
    {
      ghost var record := Record(timestamp, proto, src, dst, info, size);
      var line := Field(KEY_TIMESTAMP, timestamp) + Field(KEY_PROTO, proto) + Field(KEY_SRC, src)
        + Field(KEY_DST, dst) + Field(KEY_INFO, info) + KEY_SIZE + Decimal(size) + END;
      assert line == Render(record);
      hide Render, Field, ReadAll, RenderAll, ReadObjects;
      ReadAllBack(records);
      FileIsObjects(records);
      AllMembersSnoc(records, record);
      RenderAllSnoc(records, record);
      records := records + [record];
      file := file + line;
      ReadAllBack(records);
      FileIsObjects(records);
    }
  }

  // ---- lines ----

  function Count(s: string, c: char): nat {
    if |s| == 0 then 0 else (if s[0] == c then 1 else 0) + Count(s[1..], c)
  }

  lemma {:induction false} CountAppend(a: string, b: string, c: char)
    ensures Count(a + b, c) == Count(a, c) + Count(b, c)
  {
    if |a| == 0 {
      assert a + b == b;
    } else {
      assert (a + b)[1..] == a[1..] + b;
      CountAppend(a[1..], b, c);
    }
  }

  lemma {:induction false} CountEscaped(s: string)
    ensures Count(EscapeJson(s), '\n') == Count(s, '\n')
  {
    if |s| > 0 {
      EscapeStep(s);
      CountEscaped(s[1..]);
      hide EscapeJson;
      CountAppend(EscapedChar(s[0]), EscapeJson(s[1..]), '\n');
      CountShort(EscapedChar(s[0]));
    }
  }

  lemma CountShort(t: string)
    requires t == "\\\\" || t == "\\\"" || |t| == 1
    ensures Count(t, '\n') == if t == "\n" then 1 else 0
  {
    if |t| == 2 {
      assert t[1..][1..] == "" && |t[1..]| == 1;
    } else {
      assert t[1..] == "";
    }
  }

  lemma {:induction false} CountZero(s: string, c: char)
    ensures Count(s, c) == 0 <==> c !in s
  {
    if |s| > 0 {
      CountZero(s[1..], c);
      assert s == [s[0]] + s[1..];
    }
  }

  lemma {:induction false} DecimalIsOneLine(n: nat)
    ensures '\n' !in Decimal(n)
  {
    if n >= 10 {
      DecimalIsOneLine(n / 10);
    }
  }

  lemma CountField(key: string, value: string)
    requires '\n' !in key
    ensures Count(Field(key, value), '\n') == Count(value, '\n')
  {
    hide EscapeJson;
    CountAppend(key + EscapeJson(value), ['\"'], '\n');
    CountAppend(key, EscapeJson(value), '\n');
    CountEscaped(value);
    CountZero(key, '\n');
    CountZero(['\"'], '\n');
  }

  /** A record has one line end of its own and one for each line end in its fields: none is escaped. */
  lemma LineEndsOfRecord(r: Record)
    ensures Count(Render(r), '\n') == 1 + Count(r.timestamp, '\n') + Count(r.proto, '\n') + Count(r.src, '\n')
                                      + Count(r.dst, '\n') + Count(r.info, '\n')
  {
    hide Field, Count, Decimal;
    var f1, f2, f3 := Field(KEY_TIMESTAMP, r.timestamp), Field(KEY_PROTO, r.proto), Field(KEY_SRC, r.src);
    var f4, f5 := Field(KEY_DST, r.dst), Field(KEY_INFO, r.info);
    var d := Decimal(r.size);
    CountAppend(f1 + f2 + f3 + f4 + f5 + KEY_SIZE + d, END, '\n');
    CountAppend(f1 + f2 + f3 + f4 + f5 + KEY_SIZE, d, '\n');
    CountAppend(f1 + f2 + f3 + f4 + f5, KEY_SIZE, '\n');
    CountAppend(f1 + f2 + f3 + f4, f5, '\n');
    CountAppend(f1 + f2 + f3, f4, '\n');
    CountAppend(f1 + f2, f3, '\n');
    CountAppend(f1, f2, '\n');
    CountField(KEY_TIMESTAMP, r.timestamp);
    CountField(KEY_PROTO, r.proto);
    CountField(KEY_SRC, r.src);
    CountField(KEY_DST, r.dst);
    CountField(KEY_INFO, r.info);
    CountZero(KEY_SIZE, '\n');
    DecimalIsOneLine(r.size);
    CountZero(d, '\n');
    CountEnd();
  }

  lemma CountEnd()
    ensures Count(END, '\n') == 1
  {
    assert END[1..] == "\n" && END[1..][1..] == "";
  }

  /** One record per line holds exactly when no field contains a line end. */
  lemma OneLinePerRecordIff(r: Record)
    ensures Count(Render(r), '\n') == 1 <==>
      '\n' !in r.timestamp && '\n' !in r.proto && '\n' !in r.src && '\n' !in r.dst && '\n' !in r.info
  {
    hide Render, Count;
    LineEndsOfRecord(r);
    CountZero(r.timestamp, '\n');
    CountZero(r.proto, '\n');
    CountZero(r.src, '\n');
    CountZero(r.dst, '\n');
    CountZero(r.info, '\n');
  }

  // ---- a record that spans lines ----

  /** The text behind the first space, which process_packet's handling of TCP takes as the info of an HTTP response;
      empty when there is no space. */
  function BehindSpace(text: string): string {
    if |text| == 0 then [] else if text[0] == ' ' then text[1..] else BehindSpace(text[1..])
  }

  lemma {:induction false} BehindFirstSpace(version: string, rest: string)
    requires ' ' !in version
    ensures BehindSpace(version + [' '] + rest) == rest
  {
    var text := version + [' '] + rest;
    if |version| == 0 {
      assert text[1..] == rest;
    } else {
      assert text[1..] == version[1..] + [' '] + rest;
      BehindFirstSpace(version[1..], rest);
    }
  }

  /** Every HTTP response with a line end behind its first space, so every one whose status line is complete, makes a
      record of more than one line. */
  lemma ResponsesSpanLines(version: string, rest: string, timestamp: string, src: string, dst: string, size: nat)
    requires ' ' !in version && '\n' in rest
    ensures
      var info := BehindSpace(version + [' '] + rest);
      Count(Render(Record(timestamp, "HTTP", src, dst, info, size)), '\n') > 1
  {
    hide Render, Count;
    BehindFirstSpace(version, rest);
    LineEndsOfRecord(Record(timestamp, "HTTP", src, dst, rest, size));
    CountZero(rest, '\n');
  }

  lemma OneLineEnd(a: string, b: string)
    requires '\n' !in a && '\n' !in b
    ensures Count(a + ['\n'] + b, '\n') == 1
  {
    CountAppend(a + ['\n'], b, '\n');
    CountAppend(a, ['\n'], '\n');
    CountShort(['\n']);
    CountZero(a, '\n');
    CountZero(b, '\n');
  }

  const STATUS: string := "200 OK\r"
  const SERVER: string := "Server: x"

  /** One such response, a status line and a header line, and its record: one line end of the record's own and one
      from the response. */
  lemma OneResponseTwoLines(timestamp: string, src: string, dst: string, size: nat)
    requires '\n' !in timestamp && '\n' !in src && '\n' !in dst
    ensures
      var info := BehindSpace("HTTP/1.1" + [' '] + (STATUS + ['\n'] + SERVER));
      && info == STATUS + ['\n'] + SERVER
      && Count(Render(Record(timestamp, "HTTP", src, dst, info, size)), '\n') == 2
  {
    hide Render, Count, BehindSpace;
    var info := STATUS + ['\n'] + SERVER;
    BehindFirstSpace("HTTP/1.1", info);
    OneLineEnd(STATUS, SERVER);
    LineEndsOfRecord(Record(timestamp, "HTTP", src, dst, info, size));
    CountZero(timestamp, '\n');
    CountZero("HTTP", '\n');
    CountZero(src, '\n');
    CountZero(dst, '\n');
  }
}
