/** Domain names as text: `dname_to_string_buf` and `dname_parse_wire`. */
module NameText {
  import opened Names
  import opened Wire
  import opened Sequences

  const MAXLABELLEN := 63

  const DOT: Byte := 46
  const BACKSLASH: Byte := 92

  predicate IsDigit(b: Byte) {
    48 <= b <= 57
  }

  // ----- printing

  /** Letters, digits and `-`, `_`, `*` stand for themselves. */
  predicate IsPlain(b: Byte) {
    IsDigit(b) || 65 <= b <= 90 || 97 <= b <= 122 || b == 45 || b == 95 || b == 42
  }

  function EscapeByte(b: Byte): Bytes {
    if IsPlain(b) then [b]
    else if b == DOT || b == BACKSLASH then [BACKSLASH, b]
    else [BACKSLASH, 48 + b as int / 100, 48 + b as int / 10 % 10, 48 + b as int % 10]
  }

  function EscapeLabel(l: Bytes): Bytes {
    if l == [] then [] else EscapeByte(l[0]) + EscapeLabel(l[1..])
  }

  /** The labels from the leftmost on, each with a dot. */
  function PrintLabels(n: Name): Bytes {
    if n == [] then [] else EscapeLabel(n[|n| - 1]) + [DOT] + PrintLabels(n[..|n| - 1])
  }

  function Print(n: Name): Bytes {
    if n == [] then [DOT] else PrintLabels(n)
  }

  lemma {:induction false} EscapeSnoc(l: Bytes, j: nat)
    requires j < |l|
    ensures EscapeLabel(l[..j + 1]) == EscapeLabel(l[..j]) + EscapeByte(l[j])
    decreases |l|
  {
    if j == 0 {
      assert l[..1] == [l[0]] && [l[0]][1..] == [] && l[..0] == [];
    } else {
      EscapeSnoc(l[1..], j - 1);
      assert l[..j + 1][1..] == l[1..][..j] && l[..j][1..] == l[1..][..j - 1];
    }
  }

  /** `dname_to_string_buf` without an origin. */
  method ToString(n: Name) returns (buf: Bytes)
    ensures buf == Print(n)
  {
    if n == [] {
      return [DOT];
    }
    buf := [];
    var i := |n|;
    assert n[..|n|] == n && [] + PrintLabels(n) == PrintLabels(n);
    while i > 0
      invariant 0 <= i <= |n| && buf + PrintLabels(n[..i]) == PrintLabels(n)
    {
      var l: Bytes := n[i - 1];
      var text := PrintLabel(l);
      assert n[..i][..i - 1] == n[..i - 1];
      Join3(buf, text, [DOT], PrintLabels(n[..i - 1]));
      buf := buf + text + [DOT];
      i := i - 1;
    }
    assert buf + [] == buf;
  }

  /** Its inner loop, one label. */
  method PrintLabel(l: Bytes) returns (text: Bytes)
    ensures text == EscapeLabel(l)
  {
    text := [];
    var j := 0;
    while j < |l|
      invariant 0 <= j <= |l| && text == EscapeLabel(l[..j])
    {
      EscapeSnoc(l, j);
      var ch := l[j];
      if IsPlain(ch) {
        text := text + [ch];
      } else if ch == DOT || ch == BACKSLASH {
        text := text + [BACKSLASH, ch];
      } else {
        text := text + [BACKSLASH, 48 + ch as int / 100, 48 + ch as int / 10 % 10, 48 + ch as int % 10];
      }
      j := j + 1;
    }
    assert l[..j] == l;
  }

  lemma Join3(a: Bytes, b: Bytes, c: Bytes, d: Bytes)
    ensures a + (b + c + d) == a + b + c + d
  {
  }

  // ----- parsing

  /** The end of the text: the last label and the root label. */
  function Finish(done: Bytes, lab: Bytes): Option<Bytes> {
    if lab == [] then
      if |done| >= MAXDOMAINLEN then None else Some(done + [0])
    else if |lab| > MAXLABELLEN then None
    else
      var all := done + [|lab|] + lab;
      if |all| >= MAXDOMAINLEN then None else Some(all + [0])
  }

  /** What an escape sequence stands for and how long it is; a backslash at the
      very end leaves in place what was there. */
  function Unescape(s: Bytes, there: Byte): (r: (Byte, nat))
    requires s != []
    ensures 0 < r.1 <= |s|
  {
    var v := if |s| >= 4 then (s[1] as int - 48) * 100 + (s[2] as int - 48) * 10 + (s[3] as int - 48) else 0;
    if |s| >= 4 && IsDigit(s[1]) && IsDigit(s[2]) && IsDigit(s[3]) && v <= 255 then (v, 4)
    else if |s| >= 2 then (s[1], 2)
    else (there, 1)
  }

  /** Reading on with the labels `done` complete and `lab` under way, into a
      buffer that held `old`. */
  function Scan(s: Bytes, done: Bytes, lab: Bytes, buf: Bytes): Option<Bytes>
    requires |buf| == MAXDOMAINLEN
    decreases |s|
  {
    if s == [] then Finish(done, lab)
    else if |done| + 1 + |lab| >= MAXDOMAINLEN then None
    else if s[0] == DOT then
      if lab == [] || |lab| > MAXLABELLEN then None else Scan(s[1..], done + [|lab|] + lab, [], buf)
    else if s[0] == BACKSLASH then
      var e := Unescape(s, buf[|done| + 1 + |lab|]);
      Scan(s[e.1..], done, lab + [e.0], buf)
    else Scan(s[1..], done, lab + [s[0]], buf)
  }

  function Parse(s: Bytes, buf: Bytes): Option<Bytes>
    requires |buf| == MAXDOMAINLEN
  {
    if s == [DOT] then Some([0]) else Scan(s, [], [], buf)
  }

  // ----- the round trip

  lemma Digits(b: nat)
    requires b < 256
    ensures b / 100 * 100 + b / 10 % 10 * 10 + b % 10 == b && b / 100 <= 2
  {
  }

  /** An escape sequence stands for the byte it was made from. */
  lemma UnescapeEscape(b: Byte, rest: Bytes, there: Byte)
    requires !IsPlain(b)
    ensures Unescape(EscapeByte(b) + rest, there) == (b, |EscapeByte(b)|)
  {
    var e := EscapeByte(b);
    var s := e + rest;
    assert s[1] == e[1];
    if |e| == 4 {
      assert s[2] == e[2] && s[3] == e[3];
      Digits(b);
    }
  }

  lemma ScanByte(b: Byte, rest: Bytes, done: Bytes, lab: Bytes, buf: Bytes)
    requires |buf| == MAXDOMAINLEN && |done| + 1 + |lab| < MAXDOMAINLEN
    ensures Scan(EscapeByte(b) + rest, done, lab, buf) == Scan(rest, done, lab + [b], buf)
  {
    var e := EscapeByte(b);
    assert (e + rest)[0] == e[0] && (e + rest)[|e|..] == rest;
    if !IsPlain(b) {
      UnescapeEscape(b, rest, buf[|done| + 1 + |lab|]);
    }
  }

  lemma Join2(a: Bytes, b: Bytes, c: Bytes)
    ensures a + b + c == a + (b + c)
  {
  }

  lemma {:induction false} ScanLabel(l: Bytes, rest: Bytes, done: Bytes, lab: Bytes, buf: Bytes)
    requires |buf| == MAXDOMAINLEN && |done| + 1 + |lab| + |l| < MAXDOMAINLEN
    ensures Scan(EscapeLabel(l) + rest, done, lab, buf) == Scan(rest, done, lab + l, buf)
    decreases |l|
  {
    if l == [] {
      assert EscapeLabel(l) + rest == rest && lab + l == lab;
    } else {
      Join2(EscapeByte(l[0]), EscapeLabel(l[1..]), rest);
      ScanByte(l[0], EscapeLabel(l[1..]) + rest, done, lab, buf);
      ScanLabel(l[1..], rest, done, lab + [l[0]], buf);
      Join2(lab, [l[0]], l[1..]);
      assert [l[0]] + l[1..] == l;
    }
  }

  /** Labels of 1 to 63 bytes, 255 bytes in all. */
  predicate LegalName(n: Name) {
    (forall i :: 0 <= i < |n| ==> 0 < |n[i]| <= MAXLABELLEN) && |WireName(n)| <= MAXDOMAINLEN
  }

  /** One printed label with its dot. */
  lemma ScanDotted(l: Bytes, rest: Bytes, done: Bytes, buf: Bytes)
    requires |buf| == MAXDOMAINLEN && 0 < |l| <= MAXLABELLEN && |done| + 1 + |l| < MAXDOMAINLEN
    ensures Scan(EscapeLabel(l) + [DOT] + rest, done, [], buf) == Scan(rest, done + [|l|] + l, [], buf)
  {
    Join2(EscapeLabel(l), [DOT], rest);
    ScanLabel(l, [DOT] + rest, done, [], buf);
    assert [] + l == l;
    assert ([DOT] + rest)[1..] == rest;
  }

  lemma {:induction false} ScanName(n: Name, done: Bytes, buf: Bytes)
    requires |buf| == MAXDOMAINLEN && |done| + |WireName(n)| <= MAXDOMAINLEN
    requires forall i :: 0 <= i < |n| ==> 0 < |n[i]| <= MAXLABELLEN
    ensures Scan(PrintLabels(n), done, [], buf) == Some(done + WireName(n))
    decreases |n|
  {
    if n != [] {
      var l: Bytes, rest := n[|n| - 1], n[..|n| - 1];
      WireNameNotEmpty(rest);
      ScanDotted(l, PrintLabels(rest), done, buf);
      ScanName(rest, done + [|l|] + l, buf);
      JoinWire(done, [|l|], l, WireName(rest));
    }
  }

  lemma JoinWire(a: seq<int>, b: seq<int>, c: seq<int>, d: seq<int>)
    ensures a + b + c + d == a + (b + c + d)
  {
  }

  lemma WireNameNotEmpty(n: Name)
    ensures |WireName(n)| > 0
  {
  }

  lemma {:induction false} PrintedIsNotADot(n: Name)
    requires n != [] && |n[|n| - 1]| > 0
    ensures PrintLabels(n) != [DOT]
  {
    var l: Bytes := n[|n| - 1];
    assert EscapeLabel(l) == EscapeByte(l[0]) + EscapeLabel(l[1..]);
  }

  /** Printing a legal name and parsing the text gives the name, whatever the
      buffer held. */
  lemma RoundTrip(n: Name, buf: Bytes)
    requires LegalName(n) && |buf| == MAXDOMAINLEN
    ensures Parse(Print(n), buf) == Some(WireName(n))
  {
    if n != [] {
      PrintedIsNotADot(n);
      ScanName(n, [], buf);
      assert [] + WireName(n) == WireName(n);
    }
  }

  // ----- every way to write a name

  /** Three decimal digits behind a backslash. */
  function Decimal(b: Byte): Bytes {
    [BACKSLASH, 48 + b as int / 100, 48 + b as int / 10 % 10, 48 + b as int % 10]
  }

  /** The ways to write one byte (section 5.1 of RFC 1035): itself, unless it is a
      dot or a backslash; behind a backslash, unless it is a digit; or by number. */
  predicate WritesByte(t: Bytes, b: Byte) {
    || (t == [b] && b != DOT && b != BACKSLASH)
    || (t == [BACKSLASH, b] && !IsDigit(b))
    || t == Decimal(b)
  }

  /** Byte by byte. */
  ghost predicate WritesLabel(t: Bytes, l: Bytes)
    decreases |l|
  {
    if l == [] then t == []
    else exists i :: 0 < i <= |t| && WritesByte(t[..i], l[0]) && WritesLabel(t[i..], l[1..])
  }

  /** The labels from the leftmost on, with dots between them. */
  ghost predicate WritesName(t: Bytes, n: Name)
    decreases |n|
  {
    && n != []
    && if |n| == 1 then WritesLabel(t, n[0])
       else exists i :: 0 <= i < |t| && t[i] == DOT && WritesLabel(t[..i], n[|n| - 1]) && WritesName(t[i + 1..], n[..|n| - 1])
  }

  lemma UnescapeDecimal(b: Byte, rest: Bytes, there: Byte)
    ensures Unescape(Decimal(b) + rest, there) == (b, 4)
  {
    var d := Decimal(b);
    var s := d + rest;
    assert s[1] == d[1] && s[2] == d[2] && s[3] == d[3];
    Digits(b);
  }

  lemma UnescapeQuoted(b: Byte, rest: Bytes, there: Byte)
    requires !IsDigit(b)
    ensures Unescape([BACKSLASH, b] + rest, there) == (b, 2)
  {
    assert ([BACKSLASH, b] + rest)[1] == b;
  }

  /** However a byte is written, it is read as this byte. */
  lemma WrittenByte(t: Bytes, b: Byte, rest: Bytes, there: Byte)
    requires WritesByte(t, b)
    ensures t != [] && t[0] != DOT
    ensures if t[0] == BACKSLASH then Unescape(t + rest, there) == (b, |t|) else t == [b]
  {
    if t == Decimal(b) {
      UnescapeDecimal(b, rest, there);
    } else if t != [b] {
      UnescapeQuoted(b, rest, there);
    }
  }

  lemma ScanWritten(t: Bytes, b: Byte, rest: Bytes, done: Bytes, lab: Bytes, buf: Bytes)
    requires |buf| == MAXDOMAINLEN && WritesByte(t, b) && |done| + 1 + |lab| < MAXDOMAINLEN
    ensures Scan(t + rest, done, lab, buf) == Scan(rest, done, lab + [b], buf)
  {
    WrittenByte(t, b, rest, buf[|done| + 1 + |lab|]);
    assert (t + rest)[0] == t[0] && (t + rest)[|t|..] == rest;
  }

  /** A label that fills the buffer is refused, whatever follows. */
  lemma ScanFull(rest: Bytes, done: Bytes, lab: Bytes, buf: Bytes)
    requires |buf| == MAXDOMAINLEN && lab != [] && |done| + 1 + |lab| >= MAXDOMAINLEN
    ensures Scan(rest, done, lab, buf) == None
  {
  }

  /** A written label is read, as long as it fits. */
  lemma {:induction false} ScanWrittenLabel(t: Bytes, l: Bytes, rest: Bytes, done: Bytes, lab: Bytes, buf: Bytes)
    requires |buf| == MAXDOMAINLEN && WritesLabel(t, l)
    ensures l == [] || |done| + 1 + |lab| + |l| < MAXDOMAINLEN ==> Scan(t + rest, done, lab, buf) == Scan(rest, done, lab + l, buf)
    ensures l != [] && |done| + 1 + |lab| + |l| >= MAXDOMAINLEN ==> Scan(t + rest, done, lab, buf) == None
    decreases |l|
  {
    if l == [] {
      assert t + rest == rest && lab + l == lab;
    } else {
      var i :| 0 < i <= |t| && WritesByte(t[..i], l[0]) && WritesLabel(t[i..], l[1..]);
      assert t + rest == t[..i] + (t[i..] + rest);
      if |done| + 1 + |lab| < MAXDOMAINLEN {
        ScanWritten(t[..i], l[0], t[i..] + rest, done, lab, buf);
        ScanWrittenLabel(t[i..], l[1..], rest, done, lab + [l[0]], buf);
        LabelOn(lab, l);
        if |l| == 1 && |done| + 1 + |lab| + 1 >= MAXDOMAINLEN {
          ScanFull(rest, done, lab + [l[0]], buf);
        }
      } else {
        ScanStops(t + rest, done, lab, buf);
      }
    }
  }

  lemma LabelOn(lab: Bytes, l: Bytes)
    requires l != []
    ensures lab + [l[0]] + l[1..] == lab + l && (|l| == 1 ==> lab + [l[0]] == lab + l)
  {
  }

  lemma ScanStops(s: Bytes, done: Bytes, lab: Bytes, buf: Bytes)
    requires |buf| == MAXDOMAINLEN && s != [] && |done| + 1 + |lab| >= MAXDOMAINLEN
    ensures Scan(s, done, lab, buf) == None
  {
  }

  predicate LegalLabels(n: Name) {
    forall i :: 0 <= i < |n| ==> 0 < |n[i]| <= MAXLABELLEN
  }

  /** The result for a written name behind the labels `done`. */
  ghost function Result(n: Name, done: Bytes): Option<seq<int>> {
    if LegalLabels(n) && |done| + |WireName(n)| <= MAXDOMAINLEN then Some(done + WireName(n)) else None
  }

  lemma {:induction false} WireNameLength(n: Name)
    ensures |WireName(n)| >= 1
    ensures n != [] ==> |WireName(n)| == 1 + |n[|n| - 1]| + |WireName(n[..|n| - 1])|
  {
  }

  /** The end of a written name, with or without a dot. */
  lemma ScanLast(t: Bytes, l: Label, dot: bool, done: Bytes, buf: Bytes)
    requires |buf| == MAXDOMAINLEN && WritesLabel(t, l) && l != []
    ensures Scan(t + (if dot then [DOT] else []), done, [], buf) == Result([l], done)
  {
    var end := if dot then [DOT] else [];
    ScanWrittenLabel(t, l, end, done, [], buf);
    assert [] + l == l && [l][..0] == [] && [l][0] == l;
    WireNameLength([l]);
    WireNameLength([]);
    if |done| + 1 + |l| < MAXDOMAINLEN && |l| <= MAXLABELLEN {
      var all: Bytes := done + [|l|] + l;
      assert [DOT][1..] == [];
      assert Scan(end, done, l, buf) == Some(all + [0]);
      JoinWire(done, [|l|], l, [0]);
      assert WireName([]) == [0];
    }
  }

  lemma {:induction false} ScanWrittenName(t: Bytes, n: Name, dot: bool, done: Bytes, buf: Bytes)
    requires |buf| == MAXDOMAINLEN && WritesName(t, n) && n[0] != []
    ensures Scan(t + (if dot then [DOT] else []), done, [], buf) == Result(n, done)
    decreases |n|
  {
    if |n| == 1 {
      assert n == [n[0]];
      ScanLast(t, n[0], dot, done, buf);
    } else {
      var i :| 0 <= i < |t| && t[i] == DOT && WritesLabel(t[..i], n[|n| - 1]) && WritesName(t[i + 1..], n[..|n| - 1]);
      ScanFirst(t, i, n, if dot then [DOT] else [], done, buf);
      var l: Bytes := n[|n| - 1];
      if 0 < |l| <= MAXLABELLEN && |done| + 1 + |l| < MAXDOMAINLEN {
        ScanWrittenName(t[i + 1..], n[..|n| - 1], dot, done + [|l|] + l, buf);
      }
    }
  }

  /** Its leftmost label and the dot behind it. */
  lemma ScanFirst(t: Bytes, i: nat, n: Name, end: Bytes, done: Bytes, buf: Bytes)
    requires |buf| == MAXDOMAINLEN && |n| > 1 && i < |t| && t[i] == DOT && WritesLabel(t[..i], n[|n| - 1])
    ensures var l: Bytes, up := n[|n| - 1], n[..|n| - 1];
            if 0 < |l| <= MAXLABELLEN && |done| + 1 + |l| < MAXDOMAINLEN then
              && Scan(t + end, done, [], buf) == Scan(t[i + 1..] + end, done + [|l|] + l, [], buf)
              && Result(n, done) == Result(up, done + [|l|] + l)
            else Scan(t + end, done, [], buf) == None && Result(n, done) == None
  {
    var l: Bytes, up := n[|n| - 1], n[..|n| - 1];
    var rest := [DOT] + (t[i + 1..] + end);
    assert t + end == t[..i] + rest && rest[1..] == t[i + 1..] + end;
    ScanWrittenLabel(t[..i], l, rest, done, [], buf);
    assert [] + l == l;
    WireNameLength(n);
    WireNameLength(up);
    if 0 < |l| <= MAXLABELLEN && |done| + 1 + |l| < MAXDOMAINLEN {
      LegalUp(n);
      JoinWire(done, [|l|], l, WireName(up));
    }
  }

  lemma LegalUp(n: Name)
    requires n != [] && 0 < |n[|n| - 1]| <= MAXLABELLEN
    ensures LegalLabels(n) <==> LegalLabels(n[..|n| - 1])
  {
    if LegalLabels(n[..|n| - 1]) {
      forall i | 0 <= i < |n|
        ensures 0 < |n[i]| <= MAXLABELLEN
      {
        assert i < |n| - 1 ==> n[..|n| - 1][i] == n[i];
      }
    }
  }

  lemma {:induction false} WrittenIsText(t: Bytes, n: Name)
    requires WritesName(t, n) && n[0] != []
    ensures t != [] && t != [DOT]
    decreases |n|
  {
    if |n| == 1 {
      var i :| 0 < i <= |t| && WritesByte(t[..i], n[0][0]) && WritesLabel(t[i..], n[0][1..]);
      assert t[..i][0] == t[0];
    } else {
      var i :| 0 <= i < |t| && t[i] == DOT && WritesLabel(t[..i], n[|n| - 1]) && WritesName(t[i + 1..], n[..|n| - 1]);
      WrittenIsText(t[i + 1..], n[..|n| - 1]);
    }
  }

  /** However a name is written, and whether or not its text ends with a dot, it
      is parsed as itself if it is legal and refused if it is not. */
  lemma WrittenIsParsed(t: Bytes, n: Name, buf: Bytes)
    requires |buf| == MAXDOMAINLEN && WritesName(t, n) && n[0] != []
    ensures Parse(t, buf) == (if LegalName(n) then Some(WireName(n)) else None)
    ensures Parse(t + [DOT], buf) == Parse(t, buf)
  {
    WrittenIsText(t, n);
    ScanWrittenName(t, n, false, [], buf);
    ScanWrittenName(t, n, true, [], buf);
    assert t + [] == t && [] + WireName(n) == WireName(n);
  }

  // ----- the final dot

  /** The text ends inside a label, and not with a lone backslash. */
  predicate EndsOpen(s: Bytes, inside: bool)
    decreases |s|
  {
    if s == [] then inside
    else if s[0] == DOT then EndsOpen(s[1..], false)
    else if s[0] == BACKSLASH then |s| >= 2 && EndsOpen(s[Unescape(s, 0).1..], true)
    else EndsOpen(s[1..], true)
  }

  lemma {:induction false} ScanFinalDot(s: Bytes, done: Bytes, lab: Bytes, buf: Bytes)
    requires |buf| == MAXDOMAINLEN && EndsOpen(s, lab != [])
    ensures Scan(s + [DOT], done, lab, buf) == Scan(s, done, lab, buf)
    decreases |s|
  {
    if s == [] {
      assert s + [DOT] == [DOT] && [DOT][1..] == [];
    } else if |done| + 1 + |lab| < MAXDOMAINLEN {
      assert (s + [DOT])[0] == s[0] && (s + [DOT])[1..] == s[1..] + [DOT];
      if s[0] == DOT {
        if lab != [] && |lab| <= MAXLABELLEN {
          ScanFinalDot(s[1..], done + [|lab|] + lab, [], buf);
        }
      } else if s[0] == BACKSLASH {
        var e := Unescape(s, buf[|done| + 1 + |lab|]);
        UnescapeDot(s, buf[|done| + 1 + |lab|]);
        assert (s + [DOT])[e.1..] == s[e.1..] + [DOT];
        ScanFinalDot(s[e.1..], done, lab + [e.0], buf);
      } else {
        ScanFinalDot(s[1..], done, lab + [s[0]], buf);
      }
    }
  }

  lemma UnescapeDot(s: Bytes, there: Byte)
    requires |s| >= 2
    ensures Unescape(s + [DOT], there) == Unescape(s, there) && Unescape(s, there).1 == Unescape(s, 0).1
  {
    assert (s + [DOT])[1] == s[1];
  }

  /** Any text that does not end with a dot or a backslash is parsed, or refused,
      as with a final dot. */
  lemma FinalDotIsOptional(s: Bytes, buf: Bytes)
    requires |buf| == MAXDOMAINLEN && EndsOpen(s, false)
    ensures Parse(s + [DOT], buf) == Parse(s, buf)
  {
    assert (s + [DOT])[0] == s[0];
    ScanFinalDot(s, [], [], buf);
  }

  // ----- printed text

  /** Labels of letters, digits, hyphens and underscores print as themselves. */
  lemma {:induction false} PlainPrints(l: Bytes)
    requires forall i :: 0 <= i < |l| ==> IsPlain(l[i])
    ensures EscapeLabel(l) == l
  {
    if l != [] {
      PlainPrints(l[1..]);
    }
  }

  lemma {:induction false} EscapeWrites(l: Bytes)
    ensures WritesLabel(EscapeLabel(l), l)
  {
    if l != [] {
      EscapeWrites(l[1..]);
      var t, i := EscapeLabel(l), |EscapeByte(l[0])|;
      assert t[..i] == EscapeByte(l[0]) && t[i..] == EscapeLabel(l[1..]);
      assert WritesByte(t[..i], l[0]);
    }
  }

  lemma {:induction false} EscapeLength(l: Bytes)
    ensures |EscapeLabel(l)| <= 4 * |l|
    decreases |l|
  {
    if l != [] {
      EscapeLength(l[1..]);
    }
  }

  /** The text of a legal name and its terminator fit the printing buffer. */
  lemma {:induction false} PrintFits(n: Name)
    ensures |PrintLabels(n)| <= 4 * (|WireName(n)| - 1)
    decreases |n|
  {
    if n != [] {
      EscapeLength(n[|n| - 1]);
      PrintFits(n[..|n| - 1]);
    }
  }

  // ----- only legal names come out

  /** A row of labels, without the root label. */
  predicate LabelRow(d: Bytes)
    decreases |d|
  {
    d == [] || (0 < d[0] <= MAXLABELLEN && 1 + d[0] as int <= |d| && LabelRow(d[1 + d[0] as int..]))
  }

  lemma {:induction false} RowGrows(d: Bytes, lab: Bytes)
    requires LabelRow(d) && 0 < |lab| <= MAXLABELLEN
    ensures LabelRow(d + [|lab|] + lab)
    decreases |d|
  {
    var d' := d + [|lab|] + lab;
    if d == [] {
      assert d'[1 + d'[0] as int..] == [];
    } else {
      var k := 1 + d[0] as int;
      RowGrows(d[k..], lab);
      assert d'[0] == d[0] && d'[k..] == d[k..] + [|lab|] + lab;
    }
  }

  lemma {:induction false} RowEnds(d: Bytes, at: nat)
    requires at <= |d| && LabelRow(d[at..])
    ensures SkipName(d + [0], at) == |d| + 1
    decreases |d| - at
  {
    if at < |d| {
      var k := 1 + d[at] as int;
      assert d[at..][k..] == d[at + k..];
      RowEnds(d, at + k);
    }
  }

  /** Whatever text is accepted, the result is one legal name in wire format. */
  lemma {:induction false} ScanLegal(s: Bytes, done: Bytes, lab: Bytes, buf: Bytes)
    requires |buf| == MAXDOMAINLEN && LabelRow(done) && Scan(s, done, lab, buf).Some?
    ensures var w := Scan(s, done, lab, buf).value; SkipName(w, 0) == |w| <= MAXDOMAINLEN
    decreases |s|
  {
    if s == [] {
      if lab == [] {
        assert done[0..] == done;
        RowEnds(done, 0);
      } else {
        RowGrows(done, lab);
        var all := done + [|lab|] + lab;
        assert all[0..] == all;
        RowEnds(all, 0);
      }
    } else if s[0] == DOT {
      RowGrows(done, lab);
      ScanLegal(s[1..], done + [|lab|] + lab, [], buf);
    } else if s[0] == BACKSLASH {
      var e := Unescape(s, buf[|done| + 1 + |lab|]);
      ScanLegal(s[e.1..], done, lab + [e.0], buf);
    } else {
      ScanLegal(s[1..], done, lab + [s[0]], buf);
    }
  }

  lemma ParseLegal(s: Bytes, buf: Bytes)
    requires |buf| == MAXDOMAINLEN && Parse(s, buf).Some?
    ensures var w := Parse(s, buf).value; SkipName(w, 0) == |w| <= MAXDOMAINLEN
  {
    if s != [DOT] {
      ScanLegal(s, [], [], buf);
    }
  }

  // ----- the parser

  /** `dname_parse_wire`; 0 is its failure. */
  method ParseWire(dname: array<Byte>, name: Bytes) returns (len: nat)
    requires dname.Length == MAXDOMAINLEN
    modifies dname
    ensures len == 0 <==> Parse(name, old(dname[..])).None?
    ensures len > 0 ==> len <= MAXDOMAINLEN && dname[..len] == Parse(name, old(dname[..])).value
  {
    if name == [DOT] {
      dname[0] := 0;
      return 1;
    }
    var s, h, p := 0, 0, 1;
    ghost var before := dname[..];
    assert name[0..] == name;
    while s < |name|
      invariant 0 <= s <= |name| && 0 <= h < p <= MAXDOMAINLEN
      invariant forall i :: p <= i < MAXDOMAINLEN ==> dname[i] == before[i]
      invariant Scan(name[s..], dname[..h], dname[h + 1..p], before) == Parse(name, before)
    {
      if p >= MAXDOMAINLEN {
        return 0;
      }
      ghost var done, lab := dname[..h], dname[h + 1..p];
      assert name[s..][0] == name[s] && name[s..][1..] == name[s + 1..];
      if name[s] == DOT {
        if p == h + 1 {
          return 0;
        }
        var labelLength := p - h - 1;
        if labelLength > MAXLABELLEN {
          return 0;
        }
        dname[h] := labelLength;
        assert dname[..p] == done + [|lab|] + lab;
        h := p;
        s := s + 1;
      } else if name[s] == BACKSLASH {
        var e := Unescape(name[s..], dname[p]);
        dname[p] := e.0;
        assert name[s..][e.1..] == name[s + e.1..];
        assert dname[h + 1..p + 1] == lab + [e.0] && dname[..h] == done;
        s := s + e.1;
      } else {
        dname[p] := name[s];
        assert dname[h + 1..p + 1] == lab + [name[s]] && dname[..h] == done;
        s := s + 1;
      }
      p := p + 1;
    }
    assert name[s..] == [];
    len := FinishWire(dname, h, p);
  }

  /** After the loop: the last label and the root label. */
  method FinishWire(dname: array<Byte>, start: nat, end: nat) returns (len: nat)
    requires dname.Length == MAXDOMAINLEN && start < end <= MAXDOMAINLEN
    modifies dname
    ensures var r := Finish(old(dname[..start]), old(dname[start + 1..end]));
            (len == 0 <==> r.None?) && (len > 0 ==> len <= MAXDOMAINLEN && dname[..len] == r.value)
  {
    var h, p := start, end;
    ghost var done, lab := dname[..h], dname[h + 1..p];
    if p != h + 1 {
      var labelLength := p - h - 1;
      if labelLength > MAXLABELLEN {
        return 0;
      }
      dname[h] := labelLength;
      assert dname[..p] == done + [|lab|] + lab;
      h := p;
      p := p + 1;
    }
    if h >= MAXDOMAINLEN {
      return 0;
    }
    ghost var all := dname[..h];
    dname[h] := 0;
    assert dname[..p] == all + [0];
    return p;
  }
}
