/** What the dotted text of a DNS query tells about its labels: which label lists share their text with another
    one, and which do not. */
module DnsLabels {
  import opened Bytes
  import opened Dns
  import Utf8

  const MAX_LABEL: nat := 191

  /** A dot with text of the label on both sides. */
  predicate InnerDot(l: seq<byte>) {
    exists k :: 0 < k < |l| - 1 && l[k] == DOT
  }

  /** The label ends in a dot and is more than that dot. */
  predicate EndsInDot(l: seq<byte>) {
    |l| >= 2 && l[|l| - 1] == DOT
  }

  predicate StartsWithDot(l: seq<byte>) {
    |l| >= 2 && l[0] == DOT
  }

  /** Two neighbours fit into one label, or the dot between them can change places with one beside it. */
  predicate Movable(x: seq<byte>, y: seq<byte>) {
    || |x| + 1 + |y| <= MAX_LABEL
    || (EndsInDot(x) && |y| < MAX_LABEL)
    || (StartsWithDot(y) && |x| < MAX_LABEL)
    || (EndsInDot(x) && StartsWithDot(y))
  }

  /** From label i on there is a dot to split at, a neighbour to merge or share a dot with, or a label that is one dot
      and can be shared out between its neighbours. */
  predicate Regroupable(ls: seq<seq<byte>>, i: nat) {
    && i < |ls|
    && (|| InnerDot(ls[i])
        || (i + 1 < |ls| && Movable(ls[i], ls[i + 1]))
        || (i + 2 < |ls| && ls[i + 1] == [DOT] && |ls[i]| < MAX_LABEL && |ls[i + 2]| < MAX_LABEL))
  }

  predicate SomewhereRegroupable(ls: seq<seq<byte>>) {
    exists i :: 0 <= i < |ls| && Regroupable(ls, i)
  }

  lemma RegroupableBehind(x: seq<byte>, ls: seq<seq<byte>>)
    requires SomewhereRegroupable(ls)
    ensures SomewhereRegroupable([x] + ls)
  {
    hide InnerDot, Movable;
    var i :| 0 <= i < |ls| && Regroupable(ls, i);
    assert Regroupable([x] + ls, i + 1);
  }

  // ---- a second reading needs a place to regroup ----

  /** The text of labels and what the first label leaves of it. */
  lemma JoinHead(ls: seq<seq<byte>>)
    requires |ls| > 0
    ensures Join(ls) == ls[0] + Dotted(ls[1..])
    ensures |ls| > 1 ==> Dotted(ls[1..]) == [DOT] + Join(ls[1..])
    ensures |ls| == 1 ==> Dotted(ls[1..]) == []
  {
    hide Join;
    JoinIsDotted(ls);
    if |ls| > 1 {
      DottedIsDotJoin(ls[1..]);
    }
  }

  lemma DottedIsDotJoin(ls: seq<seq<byte>>)
    requires |ls| > 0
    ensures Dotted(ls) == [DOT] + Join(ls)
  {
    JoinIsDotted(ls);
    hide Join;
    Assoc([DOT], ls[0], Dotted(ls[1..]));
  }

  /** Two readings of one text whose first labels agree, agree on the text behind them. */
  lemma SameHead(ls: seq<seq<byte>>, ms: seq<seq<byte>>)
    requires |ls| > 0 && |ms| > 0 && ls[0] == ms[0] && Join(ls) == Join(ms)
    requires AreLabels(ls) && AreLabels(ms)
    ensures |ls| == 1 <==> |ms| == 1
    ensures |ls| > 1 ==> Join(ls[1..]) == Join(ms[1..])
  {
    hide Utf8.Valid, Join;
    JoinHead(ls);
    JoinHead(ms);
    var n := |ls[0]|;
    assert Dotted(ls[1..]) == Join(ls)[n..] == Join(ms)[n..] == Dotted(ms[1..]);
    if |ls| > 1 && |ms| > 1 {
      assert Join(ls[1..]) == Dotted(ls[1..])[1..];
      assert Join(ms[1..]) == Dotted(ms[1..])[1..];
    }
  }

  /** Where the first label of ms ends inside a text that starts with w: at a dot of w, with more labels behind. */
  lemma CutInside(w: seq<byte>, rest: seq<byte>, ms: seq<seq<byte>>)
    requires |ms| > 0 && Join(ms) == w + rest && |ms[0]| < |w|
    ensures |ms| > 1 && w[|ms[0]|] == DOT && Join(ms[1..]) == w[|ms[0]| + 1..] + rest
  {
    hide Join;
    JoinHead(ms);
    var n := |ms[0]|;
    assert (w + rest)[n..] == Dotted(ms[1..]) == w[n..] + rest;
    assert |ms| > 1;
    assert Join(ms[1..]) == Dotted(ms[1..])[1..] == w[n + 1..] + rest;
  }

  /** The other reading ms is one dot behind: it ended a label before the last dot of p, so it reads a dot before the
      labels rs. */
  lemma {:induction false} OneDotBehind(p: seq<byte>, rs: seq<seq<byte>>, ms: seq<seq<byte>>)
    requires IsLabel(p) && AreLabels(rs) && AreLabels(ms) && |ms| > 0
    requires p[|p| - 1] == DOT && Join(ms) == Dotted(rs)
    requires |p| >= 2 || |rs| == 0 || |rs[0]| == MAX_LABEL
    ensures SomewhereRegroupable([p] + rs)
    decreases |rs|
  {
    hide Utf8.Valid, Join;
    JoinHead(ms);
    assert IsLabel(ms[0]);
    assert |rs| > 0;
    var y := rs[0];
    assert IsLabel(y);
    var ls := [p] + rs;
    assert ls[0] == p && ls[1] == y;
    if Movable(p, y) {
      assert Regroupable(ls, 0);
    } else {
      assert |y| == MAX_LABEL && y[0] != DOT;
      var w := [DOT] + y;
      var n := |ms[0]|;
      assert Dotted(rs) == w + Dotted(rs[1..]);
      CutInside(w, Dotted(rs[1..]), ms);
      assert y[n - 1] == w[n] == DOT;
      if n < MAX_LABEL {
        assert InnerDot(y);
        assert Regroupable(ls, 1);
      } else {
        assert w[n + 1..] + Dotted(rs[1..]) == Dotted(rs[1..]);
        OneDotBehind(y, rs[1..], ms[1..]);
        assert [y] + rs[1..] == rs;
        RegroupableBehind(p, rs);
      }
    }
  }

  /** The other reading's first label is shorter. */
  lemma ShorterHead(ls: seq<seq<byte>>, ms: seq<seq<byte>>)
    requires AreLabels(ls) && AreLabels(ms) && |ls| > 0 && |ms| > 0
    requires Join(ls) == Join(ms) && |ms[0]| < |ls[0]|
    ensures SomewhereRegroupable(ls)
  {
    hide Utf8.Valid, Join, Movable;
    var x, n := ls[0], |ms[0]|;
    assert IsLabel(x) && IsLabel(ms[0]);
    JoinHead(ls);
    CutInside(x, Dotted(ls[1..]), ms);
    if n < |x| - 1 {
      assert InnerDot(x);
      assert Regroupable(ls, 0);
    } else {
      assert x[n + 1..] + Dotted(ls[1..]) == Dotted(ls[1..]);
      OneDotBehind(x, ls[1..], ms[1..]);
      assert [x] + ls[1..] == ls;
    }
  }

  /** The other reading's first label is longer. */
  lemma LongerHead(ls: seq<seq<byte>>, ms: seq<seq<byte>>)
    requires AreLabels(ls) && AreLabels(ms) && |ls| > 0 && |ms| > 0
    requires Join(ls) == Join(ms) && |ms[0]| > |ls[0]|
    ensures SomewhereRegroupable(ls)
  {
    hide Utf8.Valid, Join, Dotted;
    assert IsLabel(ls[0]) && IsLabel(ms[0]);
    JoinHead(ls);
    JoinHead(ms);
    assert |ls| > 1;
    assert IsLabel(ls[1]);
    if Movable(ls[0], ls[1]) {
      assert Regroupable(ls, 0);
    } else {
      JoinHead(ls[1..]);
      assert ls[1..][1..] == ls[2..];
      Assoc([DOT], ls[1], Dotted(ls[2..]));
      Assoc(ls[0], [DOT] + ls[1], Dotted(ls[2..]));
      Assoc(ls[0], [DOT], ls[1]);
      CutInSecond(ls[0], ls[1], ls[2..], ms);
      assert [ls[0]] + ([ls[1]] + ls[2..]) == ls;
    }
  }

  /** The other reading's first label is x, a dot and part of y. */
  lemma CutInSecond(x: seq<byte>, y: seq<byte>, rs: seq<seq<byte>>, ms: seq<seq<byte>>)
    requires IsLabel(x) && IsLabel(y) && AreLabels(rs) && AreLabels(ms) && |ms| > 0
    requires Join(ms) == x + [DOT] + y + Dotted(rs) && |ms[0]| > |x| && !Movable(x, y)
    ensures SomewhereRegroupable([x] + ([y] + rs))
  {
    hide Utf8.Valid, Join, Dotted;
    assert IsLabel(ms[0]);
    var w, n := x + [DOT] + y, |ms[0]|;
    CutInside(w, Dotted(rs), ms);
    var k := n - |x| - 1;
    assert y[k] == w[n] == DOT;
    if 0 < k < |y| - 1 {
      assert InnerDot(y);
      assert Regroupable([x] + ([y] + rs), 1);
    } else {
      assert k == |y| - 1;
      assert w[n + 1..] + Dotted(rs) == Dotted(rs);
      LastDotTaken(x, y, rs, ms[1..]);
    }
  }

  /** The other reading has taken x and all of y but its last dot into one label. */
  lemma LastDotTaken(x: seq<byte>, y: seq<byte>, rs: seq<seq<byte>>, ms: seq<seq<byte>>)
    requires IsLabel(x) && IsLabel(y) && AreLabels(rs) && AreLabels(ms) && |ms| > 0
    requires |x| < MAX_LABEL && y[|y| - 1] == DOT && Join(ms) == Dotted(rs)
    ensures SomewhereRegroupable([x] + ([y] + rs))
  {
    hide Utf8.Valid, Join, Movable;
    var ls := [x] + ([y] + rs);
    if |y| == 1 && |rs| > 0 && |rs[0]| < MAX_LABEL {
      assert y == [DOT];
      assert ls[1] == y && ls[2] == rs[0];
      assert Regroupable(ls, 0);
    } else {
      assert |rs| > 0 ==> IsLabel(rs[0]);
      OneDotBehind(y, rs, ms);
      RegroupableBehind(x, [y] + rs);
    }
  }

  lemma {:induction false} OtherReadingNeedsAPlace(ls: seq<seq<byte>>, ms: seq<seq<byte>>)
    requires AreLabels(ls) && AreLabels(ms) && |ls| > 0 && |ms| > 0
    requires ms != ls && Join(ls) == Join(ms)
    ensures SomewhereRegroupable(ls)
  {
    hide Utf8.Valid, Join, Regroupable;
    if |ms[0]| < |ls[0]| {
      ShorterHead(ls, ms);
    } else if |ms[0]| > |ls[0]| {
      LongerHead(ls, ms);
    } else {
      JoinHead(ls);
      JoinHead(ms);
      assert ls[0] == Join(ls)[..|ls[0]|] == Join(ms)[..|ms[0]|] == ms[0];
      SameHead(ls, ms);
      assert ls == [ls[0]] + ls[1..] && ms == [ms[0]] + ms[1..];
      assert |ls| > 1;
      OtherReadingNeedsAPlace(ls[1..], ms[1..]);
      RegroupableBehind(ls[0], ls[1..]);
    }
  }

  // ---- a place to regroup gives a second reading ----

  lemma LabelParts(a: seq<byte>, b: seq<byte>)
    requires Utf8.Valid(a + [DOT] + b)
    ensures Utf8.Valid(a) && Utf8.Valid(b)
  {
    Utf8.ValidAroundAscii(a, DOT, b);
  }

  lemma DotJoined(a: seq<byte>, b: seq<byte>)
    requires Utf8.Valid(a) && Utf8.Valid(b)
    ensures Utf8.Valid(a + [DOT] + b)
  {
    assert Utf8.Valid([DOT]);
    Utf8.ValidAppend(a, [DOT]);
    Utf8.ValidAppend(a + [DOT], b);
  }

  lemma DotIsLabel()
    ensures IsLabel([DOT])
  {
    DotJoined([], []);
    assert [] + [DOT] + [] == [DOT];
  }

  /** A dot put before or behind a label. */
  lemma DotAdded(l: seq<byte>)
    requires IsLabel(l)
    ensures Utf8.Valid([DOT] + l) && Utf8.Valid(l + [DOT])
  {
    DotIsLabel();
    hide Utf8.Valid;
    Utf8.ValidAppend([DOT], l);
    Utf8.ValidAppend(l, [DOT]);
  }

  /** A label without its last dot. */
  lemma LastDotDropped(l: seq<byte>)
    requires IsLabel(l) && EndsInDot(l)
    ensures IsLabel(l[..|l| - 1])
  {
    hide Utf8.Valid;
    assert l == l[..|l| - 1] + [DOT] + [];
    LabelParts(l[..|l| - 1], []);
  }

  /** A label without its first dot. */
  lemma FirstDotDropped(l: seq<byte>)
    requires IsLabel(l) && StartsWithDot(l)
    ensures IsLabel(l[1..])
  {
    hide Utf8.Valid;
    assert l == [] + [DOT] + l[1..];
    LabelParts([], l[1..]);
  }

  /** The labels at the front may be exchanged for others with the same text. */
  lemma {:induction false} FrontExchanged(u: seq<seq<byte>>, v: seq<seq<byte>>, rest: seq<seq<byte>>)
    requires |u| > 0 && |v| > 0 && Join(u) == Join(v)
    ensures Join(u + rest) == Join(v + rest)
  {
    JoinAppend(u, rest);
    JoinAppend(v, rest);
  }

  lemma {:induction false} JoinAppend(u: seq<seq<byte>>, rest: seq<seq<byte>>)
    requires |u| > 0
    ensures Join(u + rest) == Join(u) + Dotted(rest)
  {
    if |u| == 1 {
      JoinIsDotted(u + rest);
      assert (u + rest)[1..] == rest;
    } else {
      assert (u + rest)[1..] == u[1..] + rest;
      JoinAppend(u[1..], rest);
      assert u[0] + [DOT] + (Join(u[1..]) + Dotted(rest)) == Join(u) + Dotted(rest);
    }
  }

  lemma JoinTwo(x: seq<byte>, y: seq<byte>)
    ensures Join([x, y]) == x + [DOT] + y
  {
    assert [x, y][1..] == [y];
  }

  lemma JoinThree(x: seq<byte>, y: seq<byte>, z: seq<byte>)
    ensures Join([x, y, z]) == x + [DOT] + (y + [DOT] + z)
  {
    assert [x, y, z][1..] == [y, z];
    JoinTwo(y, z);
  }

  lemma SplitInside(x: seq<byte>) returns (v: seq<seq<byte>>)
    requires IsLabel(x) && InnerDot(x)
    ensures AreLabels(v) && |v| == 2 && Join(v) == x
  {
    hide Utf8.Valid, Join;
    var k :| 0 < k < |x| - 1 && x[k] == DOT;
    assert x == x[..k] + [DOT] + x[k + 1..];
    LabelParts(x[..k], x[k + 1..]);
    v := [x[..k], x[k + 1..]];
    JoinTwo(x[..k], x[k + 1..]);
  }

  /** Another reading of two neighbours: merged, or with the dot in between moved. */
  lemma MovePair(x: seq<byte>, y: seq<byte>) returns (v: seq<seq<byte>>)
    requires IsLabel(x) && IsLabel(y) && Movable(x, y)
    ensures AreLabels(v) && |v| > 0 && Join(v) == Join([x, y]) && v[0] != x
  {
    hide Utf8.Valid, Join;
    JoinTwo(x, y);
    DotAdded(x);
    DotAdded(y);
    if |x| + 1 + |y| <= MAX_LABEL {
      DotJoined(x, y);
      v := [x + [DOT] + y];
      assert v[0] + Dotted(v[1..]) == v[0];
      JoinIsDotted(v);
    } else if EndsInDot(x) && |y| < MAX_LABEL {
      var a := x[..|x| - 1];
      LastDotDropped(x);
      v := [a, [DOT] + y];
      JoinTwo(a, [DOT] + y);
      assert x == a + [DOT];
    } else if StartsWithDot(y) && |x| < MAX_LABEL {
      FirstDotDropped(y);
      v := [x + [DOT], y[1..]];
      JoinTwo(x + [DOT], y[1..]);
      assert y == [DOT] + y[1..];
    } else {
      v := DotOfItsOwn(x, y);
    }
  }

  /** Of the three dots where x ends and y starts, the middle one may be a label. */
  lemma DotOfItsOwn(x: seq<byte>, y: seq<byte>) returns (v: seq<seq<byte>>)
    requires IsLabel(x) && IsLabel(y) && EndsInDot(x) && StartsWithDot(y)
    ensures AreLabels(v) && |v| > 0 && Join(v) == Join([x, y]) && v[0] != x
  {
    hide Utf8.Valid, Join;
    JoinTwo(x, y);
    LastDotDropped(x);
    FirstDotDropped(y);
    DotIsLabel();
    var a, b := x[..|x| - 1], y[1..];
    assert x == a + [DOT] && y == [DOT] + b;
    v := [a, [DOT], b];
    JoinThree(a, [DOT], b);
    assert x + [DOT] + y == a + [DOT] + ([DOT] + [DOT] + b);
  }

  /** A label that is one dot, shared out between its neighbours. */
  lemma ShareDot(x: seq<byte>, z: seq<byte>) returns (v: seq<seq<byte>>)
    requires IsLabel(x) && IsLabel(z) && |x| < MAX_LABEL && |z| < MAX_LABEL
    ensures AreLabels(v) && |v| == 2 && Join(v) == Join([x, [DOT], z]) && v[0] != x
  {
    hide Utf8.Valid, Join;
    DotAdded(x);
    DotAdded(z);
    v := [x + [DOT], [DOT] + z];
    JoinTwo(x + [DOT], [DOT] + z);
    JoinThree(x, [DOT], z);
    assert x + [DOT] + [DOT] + ([DOT] + z) == x + [DOT] + ([DOT] + [DOT] + z);
  }

  /** Another reading of labels that can be regrouped right at the front. */
  lemma RegroupFront(ls: seq<seq<byte>>) returns (ms: seq<seq<byte>>)
    requires AreLabels(ls) && Regroupable(ls, 0)
    ensures AreLabels(ms) && |ms| > 0 && ms[0] != ls[0] && Join(ms) == Join(ls)
  {
    hide Utf8.Valid, Join, InnerDot, Movable;
    var x := ls[0];
    var v: seq<seq<byte>>;
    var n: nat;
    if InnerDot(x) {
      v := SplitInside(x);
      n := 1;
      assert ls[..n] == [x];
      assert Join([x]) == x + Dotted([]) by {
        JoinIsDotted([x]);
      }
      JoinHead(v);
      assert |v[0]| < |Join(v)| by {
        assert IsLabel(v[1]);
      }
    } else if |ls| > 1 && Movable(x, ls[1]) {
      v := MovePair(x, ls[1]);
      n := 2;
      assert ls[..n] == [x, ls[1]];
    } else {
      v := ShareDot(x, ls[2]);
      n := 3;
      assert ls[..n] == [x, [DOT], ls[2]];
    }
    FrontExchanged(v, ls[..n], ls[n..]);
    assert ls == ls[..n] + ls[n..];
    ms := v + ls[n..];
  }

  lemma {:induction false} Regroup(ls: seq<seq<byte>>, i: nat) returns (ms: seq<seq<byte>>)
    requires AreLabels(ls) && Regroupable(ls, i)
    ensures AreLabels(ms) && |ms| > 0 && ms != ls && Join(ms) == Join(ls)
    decreases i
  {
    hide Utf8.Valid, Join, InnerDot, Movable;
    if i == 0 {
      ms := RegroupFront(ls);
    } else {
      assert Regroupable(ls[1..], i - 1);
      var ms' := Regroup(ls[1..], i - 1);
      ms := [ls[0]] + ms';
      assert ms[1..] == ms';
      JoinHead(ms);
      JoinHead(ls);
    }
  }

  // ---- what a domain name says about the query ----

  /** The header of a query with one question. */
  const QUERY_HEADER: seq<byte> := [0, 0, 0, 0, 0, 1, 0, 0, 0, 0, 0, 0]

  /** A query header and the labels, zero-terminated. */
  ghost function QueryOf(ls: seq<seq<byte>>): seq<byte>
    requires AreLabels(ls)
  {
    QUERY_HEADER + (EncodeLabels(ls) + [0])
  }

  lemma QueryOfAsks(ls: seq<seq<byte>>)
    requires AreLabels(ls) && |ls| > 0
    ensures Question(QueryOf(ls), ls, [], Join(ls)) && Query(QueryOf(ls)) == Ok(Join(ls))
  {
    hide Utf8.Valid, Join, Query, EncodeLabels;
    var name := EncodeLabels(ls) + [0];
    var b := QueryOf(ls);
    assert |QUERY_HEADER| == HEADER_LEN && b[..HEADER_LEN] == QUERY_HEADER;
    assert b[2] == QUERY_HEADER[2] && b[4] == QUERY_HEADER[4] && b[5] == QUERY_HEADER[5];
    assert b[HEADER_LEN..] == name == name + [];
    QuestionParses(b, ls, [], Join(ls));
  }

  /** Some query with other labels parses to the same domain name exactly when the labels can be regrouped somewhere.
      Labels need no dots for that: neighbours that fit into one label are enough. */
  lemma LabelsAmbiguousIff(ls: seq<seq<byte>>)
    requires AreLabels(ls) && |ls| > 0
    ensures (exists buffer, ms, rest :: ms != ls && Question(buffer, ms, rest, Join(ls))) <==> SomewhereRegroupable(ls)
  {
    hide Utf8.Valid, Join, Regroupable;
    forall buffer, ms, rest | ms != ls && Question(buffer, ms, rest, Join(ls))
      ensures SomewhereRegroupable(ls)
    {
      OtherReadingNeedsAPlace(ls, ms);
    }
    if i :| 0 <= i < |ls| && Regroupable(ls, i) {
      var ms := Regroup(ls, i);
      QueryOfAsks(ms);
    }
  }

  /** Two packets, the labels "a" and "b" in one and the label "a.b" in the other, parse to the same name. */
  lemma TwoQueriesOneName()
    ensures Query(QUERY_HEADER + [1, 97, 1, 98, 0]) == Ok([97, 46, 98])
    ensures Query(QUERY_HEADER + [3, 97, 46, 98, 0]) == Ok([97, 46, 98])
  {
    TwoLabels();
    OneLabelWithDot();
  }

  lemma TwoLabels()
    ensures Query(QUERY_HEADER + [1, 97, 1, 98, 0]) == Ok([97, 46, 98])
  {
    var ls := [[97], [98]];
    ShortAscii();
    hide Utf8.Valid, Query, EncodeLabels, Join;
    assert AreLabels(ls);
    QueryOfAsks(ls);
    JoinTwo([97], [98]);
    assert Join(ls) == [97, 46, 98];
    EncodeTwo([97], [98]);
    assert EncodeLabels(ls) + [0] == [1, 97, 1, 98, 0];
  }

  lemma OneLabelWithDot()
    ensures Query(QUERY_HEADER + [3, 97, 46, 98, 0]) == Ok([97, 46, 98])
  {
    var ls := [[97, DOT, 98]];
    ShortAscii();
    hide Utf8.Valid, Query, EncodeLabels;
    assert AreLabels(ls);
    QueryOfAsks(ls);
    assert Join(ls) == [97, 46, 98];
    EncodeOne([97, DOT, 98]);
    assert EncodeLabels(ls) + [0] == [3, 97, 46, 98, 0];
  }

  lemma EncodeOne(x: seq<byte>)
    requires IsLabel(x)
    ensures EncodeLabels([x]) == EncodeLabel(x)
  {
    hide IsLabel;
    assert EncodeLabels([x][1..]) == [];
  }

  lemma EncodeTwo(x: seq<byte>, y: seq<byte>)
    requires IsLabel(x) && IsLabel(y)
    ensures EncodeLabels([x, y]) == EncodeLabel(x) + EncodeLabel(y)
  {
    assert [x, y][1..] == [y];
    EncodeOne(y);
  }

  lemma ShortAscii()
    ensures Utf8.Valid([97]) && Utf8.Valid([98]) && Utf8.Valid([97, DOT, 98])
  {
    assert [97, DOT, 98][1..] == [DOT, 98] && [DOT, 98][1..] == [98] && [98][1..] == [] && [97][1..] == [];
  }

  // ---- labels without dots ----

  predicate DotFree(ls: seq<seq<byte>>) {
    forall l :: l in ls ==> DOT !in l
  }

  /** The pieces between the dots. */
  function Split(d: seq<byte>): (ps: seq<seq<byte>>)
    ensures |ps| > 0
  {
    if |d| == 0 then [[]]
    else
      var tail := Split(d[1..]);
      if d[0] == DOT then [[]] + tail else [[d[0]] + tail[0]] + tail[1..]
  }

  lemma {:induction false} SplitPiece(l: seq<byte>, d: seq<byte>)
    requires DOT !in l
    ensures Split(l + [DOT] + d) == [l] + Split(d)
    ensures Split(l) == [l]
  {
    if |l| == 0 {
      assert l + [DOT] + d == [DOT] + d;
      assert ([DOT] + d)[1..] == d;
    } else {
      SplitPiece(l[1..], d);
      assert l == [l[0]] + l[1..];
      assert (l + [DOT] + d)[1..] == l[1..] + [DOT] + d;
    }
  }

  lemma {:induction false} SplitJoin(ls: seq<seq<byte>>)
    requires |ls| > 0 && DotFree(ls)
    ensures Split(Join(ls)) == ls
  {
    if |ls| == 1 {
      SplitPiece(ls[0], []);
    } else {
      SplitJoin(ls[1..]);
      SplitPiece(ls[0], Join(ls[1..]));
    }
  }

  /** Queries whose labels hold no dots parse to the same name only when their labels are the same. */
  lemma DotFreeLabelsDetermined(b: seq<byte>, ls: seq<seq<byte>>, restB: seq<byte>,
                                c: seq<byte>, ms: seq<seq<byte>>, restC: seq<byte>)
    requires Question(b, ls, restB, Join(ls)) && Question(c, ms, restC, Join(ms))
    requires DotFree(ls) && DotFree(ms)
    ensures Query(b) == Query(c) <==> ls == ms
  {
    hide Query, Join;
    QuestionParses(b, ls, restB, Join(ls));
    QuestionParses(c, ms, restC, Join(ms));
    SplitJoin(ls);
    SplitJoin(ms);
  }
}
