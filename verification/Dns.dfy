/** The DNS query-name parser. */
module Dns {
  import opened Bytes
  import Utf8

  const HEADER_LEN: nat := 12
  const DOT: byte := 46

  /** The labels and dots gathered so far, followed by the labels of b; None for an error, with its kind. */
  function Names(b: seq<byte>, domain: seq<byte>): Result<seq<byte>>
    decreases |b|
  {
    if |b| == 0 || b[0] == 0 then Ok(domain)
    else if b[0] >= 0xC0 then Err(InvalidFormat)
    else if 1 + b[0] >= |b| then Err(BufferTooShort)
    else if !Utf8.Valid(b[1..1 + b[0]]) then Err(InvalidFormat)
    else Names(b[1 + b[0]..], Extend(domain, b[1..1 + b[0]]))
  }

  /** A label appended, with a dot in between unless the domain is empty. */
  function Extend(domain: seq<byte>, piece: seq<byte>): seq<byte> {
    (if domain == [] then [] else domain + [DOT]) + piece
  }

  function Query(buffer: seq<byte>): Result<seq<byte>> {
    if |buffer| < HEADER_LEN then Err(BufferTooShort)
    else if buffer[2] >= 0x80 || U16(buffer[4], buffer[5]) == 0 then Err(InvalidFormat)
    else
      match Names(buffer[HEADER_LEN..], [])
      case Err(e) => Err(e)
      case Ok(domain) => if domain == [] then Err(InvalidFormat) else Ok(domain)
  }

  /** DnsQuery::parse. */
  method Parse(buffer: seq<byte>) returns (r: Result<seq<byte>>)
    ensures r == Query(buffer)
  {
    hide Names, Utf8.Valid;
    if |buffer| < 12 {
      return Err(BufferTooShort);
    }
    if buffer[2] / 0x80 % 2 != 0 {
      return Err(InvalidFormat);
    }
    var qdcount := U16(buffer[4], buffer[5]);
    if qdcount == 0 {
      return Err(InvalidFormat);
    }
    var offset := 12;
    var domain := [];
    while offset < |buffer|
      invariant 12 <= offset <= |buffer|
      invariant Names(buffer[offset..], domain) == Names(buffer[12..], [])
      decreases |buffer| - offset
    {
      NamesStep(buffer, offset, domain);
      var length := buffer[offset];
      if length == 0 {
        break;
      }
      if length / 0x40 == 3 {
        return Err(InvalidFormat);
      }
      offset := offset + 1;
      if offset + length >= |buffer| {
        return Err(BufferTooShort);
      }
      var piece := buffer[offset..offset + length];
      if |domain| > 0 {
        domain := domain + [DOT];
      }
      if !Utf8.Valid(piece) {
        return Err(InvalidFormat);
      }
      domain := domain + piece;
      offset := offset + length;
    }
    NamesStep(buffer, offset, domain);
    if |domain| == 0 {
      return Err(InvalidFormat);
    }
    r := Ok(domain);
  }

  /** One turn of the loop, in buffer positions. */
  lemma NamesStep(buffer: seq<byte>, offset: nat, domain: seq<byte>)
    requires offset <= |buffer|
    ensures Names(buffer[offset..], domain) ==
      if offset == |buffer| || buffer[offset] == 0 then Ok(domain)
      else
        var end := offset + 1 + buffer[offset];
        if buffer[offset] >= 0xC0 then Err(InvalidFormat)
        else if end >= |buffer| then Err(BufferTooShort)
        else if !Utf8.Valid(buffer[offset + 1..end]) then Err(InvalidFormat)
        else Names(buffer[end..], Extend(domain, buffer[offset + 1..end]))
  {
    hide Utf8.Valid;
    if offset < |buffer| {
      var end := offset + 1 + buffer[offset];
      if end < |buffer| {
        assert buffer[offset..][1..1 + buffer[offset]] == buffer[offset + 1..end];
        assert buffer[offset..][1 + buffer[offset]..] == buffer[end..];
      }
    }
  }

  // ---- the grammar (section 4.1.2 of RFC 1035, labels up to 191 bytes) ----

  predicate IsLabel(l: seq<byte>) {
    1 <= |l| < 0xC0 && Utf8.Valid(l)
  }

  ghost predicate AreLabels(ls: seq<seq<byte>>) {
    forall i :: 0 <= i < |ls| ==> IsLabel(ls[i])
  }

  function EncodeLabel(l: seq<byte>): seq<byte>
    requires |l| < 0x100
  {
    [|l|] + l
  }

  ghost function EncodeLabels(ls: seq<seq<byte>>): seq<byte>
    requires AreLabels(ls)
  {
    if |ls| == 0 then [] else EncodeLabel(ls[0]) + EncodeLabels(ls[1..])
  }

  /** The labels with dots in between. */
  function Join(ls: seq<seq<byte>>): seq<byte> {
    if |ls| == 0 then []
    else if |ls| == 1 then ls[0]
    else ls[0] + [DOT] + Join(ls[1..])
  }

  /** The dotted text of the labels, when some text is there already. */
  function Dotted(ls: seq<seq<byte>>): seq<byte> {
    if |ls| == 0 then [] else [DOT] + ls[0] + Dotted(ls[1..])
  }

  lemma {:induction false} JoinIsDotted(ls: seq<seq<byte>>)
    requires |ls| > 0
    ensures Join(ls) == ls[0] + Dotted(ls[1..])
  {
    if |ls| > 1 {
      JoinIsDotted(ls[1..]);
    }
  }

  /** A question section whose name is the labels ls, then rest. */
  ghost predicate NameThen(b: seq<byte>, ls: seq<seq<byte>>, rest: seq<byte>) {
    AreLabels(ls) && b == EncodeLabels(ls) + [0] + rest
  }

  lemma {:induction false} NamesOfLabels(ls: seq<seq<byte>>, rest: seq<byte>, domain: seq<byte>)
    requires AreLabels(ls) && domain != []
    ensures Names(EncodeLabels(ls) + [0] + rest, domain) == Ok(domain + Dotted(ls))
  {
    hide Utf8.Valid;
    var b := EncodeLabels(ls) + [0] + rest;
    if |ls| == 0 {
      assert b[0] == 0;
      assert domain + Dotted(ls) == domain;
    } else {
      OneLabel(ls, rest, domain);
      NamesOfLabels(ls[1..], rest, domain + [DOT] + ls[0]);
      assert domain + [DOT] + ls[0] + Dotted(ls[1..]) == domain + Dotted(ls);
    }
  }

  lemma OneLabel(ls: seq<seq<byte>>, rest: seq<byte>, domain: seq<byte>)
    requires AreLabels(ls) && |ls| > 0
    ensures Names(EncodeLabels(ls) + [0] + rest, domain)
         == Names(EncodeLabels(ls[1..]) + [0] + rest, Extend(domain, ls[0]))
  {
    hide Utf8.Valid;
    var tail := EncodeLabels(ls[1..]) + [0] + rest;
    var b := EncodeLabels(ls) + [0] + rest;
    var l := ls[0];
    assert IsLabel(l);
    assert b == [|l|] + l + tail;
    assert b[1..1 + |l|] == l && b[1 + |l|..] == tail;
  }

  /** Reads the labels back off a name the loop accepts; unless b is empty it ends in a zero byte. */
  lemma {:induction false} SplitLabels(b: seq<byte>, domain: seq<byte>) returns (ls: seq<seq<byte>>, rest: seq<byte>)
    requires |b| > 0 && Names(b, domain).Ok?
    ensures NameThen(b, ls, rest)
    decreases |b|
  {
    hide Utf8.Valid;
    if b[0] == 0 {
      ls, rest := [], b[1..];
      assert b == EncodeLabels(ls) + [0] + rest;
    } else {
      var l, tail := b[1..1 + b[0]], b[1 + b[0]..];
      var ls', rest' := SplitLabels(tail, Extend(domain, l));
      ls, rest := [l] + ls', rest';
      assert ls[1..] == ls';
      assert EncodeLabels(ls) == EncodeLabel(l) + EncodeLabels(ls');
      assert b == [b[0]] + l + tail;
      assert b == EncodeLabels(ls) + [0] + rest;
    }
  }

  /** A header that announces a query with at least one question. */
  predicate IsQueryHeader(buffer: seq<byte>) {
    |buffer| >= HEADER_LEN && buffer[2] < 0x80 && U16(buffer[4], buffer[5]) > 0
  }

  /** Labels behind the header, at least one, and d is their dotted text. */
  ghost predicate Question(buffer: seq<byte>, ls: seq<seq<byte>>, rest: seq<byte>, d: seq<byte>) {
    IsQueryHeader(buffer) && |ls| > 0 && NameThen(buffer[HEADER_LEN..], ls, rest) && d == Join(ls)
  }

  lemma QuestionParses(buffer: seq<byte>, ls: seq<seq<byte>>, rest: seq<byte>, d: seq<byte>)
    requires Question(buffer, ls, rest, d)
    ensures Query(buffer) == Ok(d)
  {
    hide Utf8.Valid, Names, EncodeLabels;
    var b := buffer[HEADER_LEN..];
    assert IsLabel(ls[0]);
    OneLabel(ls, rest, []);
    assert Extend([], ls[0]) == ls[0];
    NamesOfLabels(ls[1..], rest, ls[0]);
    JoinIsDotted(ls);
  }

  /** Exactly the queries with a non-empty, zero-terminated list of valid labels parse, to the labels' dotted text;
      running into the end of the buffer never does. */
  lemma ParsesExactlyTheQuestions(buffer: seq<byte>, d: seq<byte>)
    ensures Query(buffer) == Ok(d) <==> exists ls, rest :: Question(buffer, ls, rest, d)
  {
    hide Utf8.Valid, Names, EncodeLabels;
    if Query(buffer) == Ok(d) {
      NamesOfNothing();
      var ls, rest := SplitLabels(buffer[HEADER_LEN..], []);
      if |ls| == 0 {
        NamesAtZero(buffer[HEADER_LEN..], rest);
      }
      assert Question(buffer, ls, rest, Join(ls));
      QuestionParses(buffer, ls, rest, Join(ls));
      assert Question(buffer, ls, rest, d);
    }
    forall ls, rest | Question(buffer, ls, rest, d)
      ensures Query(buffer) == Ok(d)
    {
      QuestionParses(buffer, ls, rest, d);
    }
  }

  lemma NamesOfNothing()
    ensures Names([], []) == Ok([])
  {
  }

  lemma NamesAtZero(b: seq<byte>, rest: seq<byte>)
    requires b == EncodeLabels([]) + [0] + rest
    ensures Names(b, []) == Ok([])
  {
    assert b[0] == 0;
  }

  /** A parsed domain is valid text: pushing labels and dots never breaks the String. */
  lemma {:induction false} DomainsAreText(b: seq<byte>, domain: seq<byte>)
    requires Utf8.Valid(domain) && Names(b, domain).Ok?
    ensures Utf8.Valid(Names(b, domain).value)
    decreases |b|
  {
    if |b| > 0 && b[0] != 0 {
      var piece := b[1..1 + b[0]];
      assert Utf8.Valid([DOT]);
      Utf8.ValidAppend(domain, [DOT]);
      Utf8.ValidAppend(if domain == [] then [] else domain + [DOT], piece);
      DomainsAreText(b[1 + b[0]..], Extend(domain, piece));
    }
  }

  // ---- errors ----

  /** Labels read, the loop goes on behind them. */
  lemma {:induction false} NamesSkipLabels(ls: seq<seq<byte>>, tail: seq<byte>, domain: seq<byte>)
    returns (gathered: seq<byte>)
    requires AreLabels(ls) && |tail| > 0
    ensures Names(EncodeLabels(ls) + tail, domain) == Names(tail, gathered)
    decreases |ls|
  {
    hide Utf8.Valid;
    var b := EncodeLabels(ls) + tail;
    if |ls| == 0 {
      assert b == tail;
      gathered := domain;
    } else {
      var l, more := ls[0], EncodeLabels(ls[1..]) + tail;
      assert IsLabel(l);
      assert b == [|l|] + l + more;
      assert b[1..1 + |l|] == l && b[1 + |l|..] == more;
      gathered := NamesSkipLabels(ls[1..], tail, Extend(domain, l));
    }
  }

  /** What a failed call reports: a header that is short, a response or without question; no label at all; and, behind
      any number of good labels, a compression pointer or reserved length, a label that reaches the end of the buffer,
      or one that is not UTF-8. */
  lemma ErrorsAre(buffer: seq<byte>, ls: seq<seq<byte>>, tail: seq<byte>)
    ensures |buffer| < 12 ==> Query(buffer) == Err(BufferTooShort)
    ensures |buffer| >= 12 && (buffer[2] >= 128 || U16(buffer[4], buffer[5]) == 0) ==>
      Query(buffer) == Err(InvalidFormat)
    ensures IsQueryHeader(buffer) && (|buffer| == 12 || buffer[12] == 0) ==> Query(buffer) == Err(InvalidFormat)
    ensures IsQueryHeader(buffer) && AreLabels(ls) && |tail| > 0 && tail[0] != 0 &&
            buffer[12..] == EncodeLabels(ls) + tail ==>
      && (tail[0] >= 192 ==> Query(buffer) == Err(InvalidFormat))
      && (tail[0] < 192 && 1 + tail[0] >= |tail| ==> Query(buffer) == Err(BufferTooShort))
      && (tail[0] < 192 && 1 + tail[0] < |tail| && !Utf8.Valid(tail[1..1 + tail[0]]) ==>
            Query(buffer) == Err(InvalidFormat))
  {
    hide Utf8.Valid, EncodeLabels;
    if IsQueryHeader(buffer) && AreLabels(ls) && |tail| > 0 && buffer[12..] == EncodeLabels(ls) + tail {
      var gathered := NamesSkipLabels(ls, tail, []);
    }
  }
}
