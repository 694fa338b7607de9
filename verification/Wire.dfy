/** Records in uncompressed wire format as the difference store keeps them,
    and finding their boundaries again, after `ixfr_putrr`,
    `ixfr_storerr_uncompressed` and `count_rr_length`. */
module Wire {
  import opened Names
  import opened Records

  type Bytes = seq<Byte>

  /** The longest name, in bytes. */
  const MAXDOMAINLEN := 255

  // ----- reading lengths

  /** The position after the uncompressed name at `i`, or -1. */
  function SkipName(data: Bytes, i: nat): (r: int)
    ensures r == -1 || i < r <= |data|
    decreases |data| - i
  {
    if i >= |data| then -1
    else if data[i] == 0 then i + 1
    else if data[i] >= 64 then -1
    else if i + 1 + data[i] as int > |data| then -1
    else SkipName(data, i + 1 + data[i] as int)
  }

  function ReadU16(data: Bytes, i: nat): nat
    requires i + 2 <= |data|
  {
    var d: seq<int> := data;
    d[i] * 256 + d[i + 1]
  }

  /** The length of the record at `current`, or 0. */
  function RrLength(data: Bytes, current: nat): (n: nat)
    ensures current + n <= |data| || n == 0
  {
    var i := SkipName(data, current);
    if i == -1 || i + 10 > |data| then 0
    else
      var end := i + 10 + ReadU16(data, i + 8);
      if end > |data| then 0 else end - current
  }

  /** `count_rr_length`. */
  method CountRrLength(data: Bytes, current: nat) returns (n: nat)
    ensures n == RrLength(data, current)
  {
    var i := current;
    if current >= |data| {
      return 0;
    }
    while true
      invariant current <= i <= |data|
      invariant SkipName(data, i) == SkipName(data, current)
      decreases |data| - i
    {
      if i + 1 > |data| {
        return 0;
      }
      var labelSize: int := data[i];
      i := i + 1;
      if labelSize == 0 {
        break;
      } else if labelSize >= 64 {
        return 0;
      } else if i + labelSize > |data| {
        return 0;
      }
      i := i + labelSize;
    }
    if i + 10 > |data| {
      return 0;
    }
    i := i + 8;
    var rdlen := ReadU16(data, i);
    i := i + 2;
    if i + rdlen > |data| {
      return 0;
    }
    i := i + rdlen;
    n := i - current;
  }

  // ----- lengths only look at the record itself

  lemma {:induction false} SkipNameShift(pre: Bytes, data: Bytes, post: Bytes, i: nat)
    requires SkipName(data, i) != -1
    ensures SkipName(pre + data + post, |pre| + i) == |pre| + SkipName(data, i)
    decreases |data| - i
  {
    var all := pre + data + post;
    assert all[|pre| + i] == data[i];
    if data[i] != 0 {
      SkipNameShift(pre, data, post, i + 1 + data[i] as int);
    }
  }

  /** A whole record and nothing else. */
  predicate IsWire(w: Bytes) {
    w != [] && RrLength(w, 0) == |w|
  }

  lemma RrLengthInside(pre: Bytes, w: Bytes, post: Bytes)
    requires IsWire(w)
    ensures RrLength(pre + w + post, |pre|) == |w|
  {
    SkipNameShift(pre, w, post, 0);
    var i := SkipName(w, 0);
    var all := pre + w + post;
    assert all[|pre| + i + 8] == w[i + 8] && all[|pre| + i + 9] == w[i + 9];
  }

  /** `data` is a row of whole records. */
  function Join(ws: seq<Bytes>): Bytes {
    if ws == [] then [] else ws[0] + Join(ws[1..])
  }

  ghost predicate AllWires(ws: seq<Bytes>) {
    ws == [] || (IsWire(ws[0]) && AllWires(ws[1..]))
  }

  /** At the start of record `i` the scan finds exactly that record. */
  lemma {:induction false} BoundaryRecovered(ws: seq<Bytes>, i: nat)
    requires AllWires(ws) && i < |ws|
    ensures IsWire(ws[i])
    ensures Join(ws[..i + 1]) == Join(ws[..i]) + ws[i]
    ensures Join(ws) == Join(ws[..i]) + Join(ws[i..])
    ensures RrLength(Join(ws), |Join(ws[..i])|) == |ws[i]|
    ensures Join(ws)[|Join(ws[..i])|..|Join(ws[..i])| + |ws[i]|] == ws[i]
  {
    AllWiresAt(ws, i);
    JoinSplit(ws, i);
    JoinSplit(ws[..i + 1], i);
    assert ws[..i + 1][..i] == ws[..i] && ws[..i + 1][i..] == [ws[i]];
    assert Join([ws[i]]) == ws[i] + Join([]) == ws[i];
    var pre, rest := Join(ws[..i]), Join(ws[i + 1..]);
    assert ws[i..][1..] == ws[i + 1..];
    assert Join(ws) == pre + (ws[i] + rest) == pre + ws[i] + rest;
    RrLengthInside(pre, ws[i], rest);
  }

  lemma {:induction false} JoinSplit(ws: seq<Bytes>, i: nat)
    requires i <= |ws|
    ensures Join(ws) == Join(ws[..i]) + Join(ws[i..])
  {
    if i == 0 {
      assert ws[0..] == ws;
      assert Join(ws[..0]) == [];
    } else {
      JoinSplit(ws[1..], i - 1);
      assert ws[1..][..i - 1] == ws[..i][1..];
      assert ws[1..][i - 1..] == ws[i..];
    }
  }

  lemma {:induction false} AllWiresAt(ws: seq<Bytes>, i: nat)
    requires AllWires(ws) && i < |ws|
    ensures IsWire(ws[i])
  {
    if i > 0 {
      AllWiresAt(ws[1..], i - 1);
    }
  }

  // ----- splitting a section into its records

  function Split(data: Bytes): seq<Bytes>
    decreases |data|
  {
    var n := RrLength(data, 0);
    if n == 0 then [] else [data[..n]] + Split(data[n..])
  }

  /** Nothing but whole records. */
  predicate Wired(data: Bytes)
    decreases |data|
  {
    var n := RrLength(data, 0);
    data == [] || (n > 0 && Wired(data[n..]))
  }

  lemma {:induction false} SplitJoin(ws: seq<Bytes>)
    requires AllWires(ws)
    ensures Wired(Join(ws)) && Split(Join(ws)) == ws
  {
    if ws != [] {
      SplitJoin(ws[1..]);
      var data := Join(ws);
      assert data == [] + ws[0] + Join(ws[1..]);
      RrLengthInside([], ws[0], Join(ws[1..]));
      assert data[..|ws[0]|] == ws[0] && data[|ws[0]|..] == Join(ws[1..]);
    }
  }

  lemma {:induction false} SkipNameFrom(data: Bytes, c: nat, i: nat)
    requires c + i <= |data|
    ensures SkipName(data, c + i) == var r := SkipName(data[c..], i); if r == -1 then -1 else c + r
    decreases |data| - c - i
  {
    if c + i < |data| && 0 < data[c + i] < 64 && c + i + 1 + data[c + i] as int <= |data| {
      assert data[c..][i] == data[c + i];
      SkipNameFrom(data, c, i + 1 + data[c + i] as int);
    }
  }

  /** The record at `c` is the first record of what follows `c`. */
  lemma RrLengthFrom(data: Bytes, c: nat)
    requires c <= |data|
    ensures RrLength(data, c) == RrLength(data[c..], 0)
  {
    SkipNameFrom(data, c, 0);
  }

  // ----- writing

  /** Labels from the leftmost to the root. */
  function WireName(n: Name): seq<int> {
    if n == [] then [0]
    else
      var lab: seq<int> := n[|n| - 1];
      [|lab|] + lab + WireName(n[..|n| - 1])
  }

  function U16(v: nat): seq<int> {
    [v / 256 % 256, v % 256]
  }

  function U32(v: nat): seq<int> {
    U16(v / 0x10000) + U16(v)
  }

  /** Numbers are in network order, and are read as they were written. */
  lemma NetworkOrder(v: nat, tail: Bytes)
    requires v < 0x1_0000_0000
    ensures AreBytes(U16(v)) && |U16(v)| == 2 && (v < 0x10000 ==> U16(v)[0] * 0x100 + U16(v)[1] == v == ReadU16(U16(v) + tail, 0))
    ensures AreBytes(U32(v)) && |U32(v)| == 4
    ensures U32(v)[0] * 0x100_0000 + U32(v)[1] * 0x1_0000 + U32(v)[2] * 0x100 + U32(v)[3] == v
  {
    var u: Bytes := U16(v) + tail;
    assert u[0] == v / 256 % 256 && u[1] == v % 256;
  }

  function AtomBytes(a: Atom): seq<int> {
    match a
    case NameAtom(n) => WireName(n)
    case LiteralAtom(w) => w
    case DataAtom(d) => d
  }

  function RdataBytes(rdata: seq<Atom>): seq<int> {
    if rdata == [] then [] else AtomBytes(rdata[0]) + RdataBytes(rdata[1..])
  }

  /** Type, class, TTL and rdata length. */
  function FixedPart(typ: nat, klass: nat, ttl: nat, rdlen: nat): seq<int> {
    U16(typ) + U16(klass) + U32(ttl) + U16(rdlen)
  }

  /** `ixfr_putrr`: owner, fixed fields, rdata. */
  function Encode(r: Rr): seq<int> {
    WireName(r.owner) + (FixedPart(r.typ, r.klass, r.ttl, |RdataBytes(r.rdata)|) + RdataBytes(r.rdata))
  }

  ghost predicate WireNameOk(n: Name) {
    forall i :: 0 <= i < |n| ==> 1 <= |n[i]| < 64
  }

  ghost predicate AtomsOk(rdata: seq<Atom>) {
    rdata == [] || ((rdata[0].NameAtom? ==> WireNameOk(rdata[0].name)) && AtomsOk(rdata[1..]))
  }

  /** A record that has a wire form. */
  ghost predicate Encodable(r: Rr) {
    && WireNameOk(r.owner) && AtomsOk(r.rdata) && |RdataBytes(r.rdata)| < 0x10000
    && r.typ < 0x10000 && r.klass < 0x10000 && r.ttl < 0x1_0000_0000
  }

  ghost predicate AreBytes(s: seq<int>) {
    forall i :: 0 <= i < |s| ==> 0 <= s[i] < 0x100
  }

  lemma {:induction false} WireNameBytes(n: Name)
    requires WireNameOk(n)
    ensures AreBytes(WireName(n))
    ensures SkipName(WireName(n), 0) == |WireName(n)|
  {
    if n != [] {
      var up: Name := n[..|n| - 1];
      WireNameBytes(up);
      var lab: seq<int> := n[|n| - 1];
      var w: Bytes := WireName(n);
      var pre: Bytes := [|lab|] + lab;
      var rest: Bytes := WireName(up);
      assert w == pre + rest == pre + rest + [];
      SkipNameShift(pre, rest, [], 0);
      assert w[0] == |lab|;
    }
  }

  lemma {:induction false} RdataAreBytes(rdata: seq<Atom>)
    requires AtomsOk(rdata)
    ensures AreBytes(RdataBytes(rdata))
  {
    if rdata != [] {
      RdataAreBytes(rdata[1..]);
      if rdata[0].NameAtom? {
        WireNameBytes(rdata[0].name);
      }
    }
  }

  lemma FixedFields(typ: nat, klass: nat, ttl: nat, rdlen: nat)
    requires rdlen < 0x10000
    ensures var f := FixedPart(typ, klass, ttl, rdlen);
            |f| == 10 && AreBytes(f) && f[8] * 256 + f[9] == rdlen
  {
  }

  lemma WireOfParts(name: Bytes, fixed: Bytes, rdata: Bytes)
    requires SkipName(name, 0) == |name| && |fixed| == 10 && ReadU16(fixed, 8) == |rdata|
    ensures IsWire(name + (fixed + rdata))
  {
    var w := name + (fixed + rdata);
    assert w == [] + name + (fixed + rdata);
    SkipNameShift([], name, fixed + rdata, 0);
    assert w[|name| + 8] == fixed[8] && w[|name| + 9] == fixed[9];
  }

  /** What the store writes for a record is a whole record. */
  lemma EncodeIsWire(r: Rr)
    requires Encodable(r)
    ensures AreBytes(Encode(r)) && IsWire(Encode(r))
  {
    WireNameBytes(r.owner);
    RdataAreBytes(r.rdata);
    FixedFields(r.typ, r.klass, r.ttl, |RdataBytes(r.rdata)|);
    WireOfParts(WireName(r.owner), FixedPart(r.typ, r.klass, r.ttl, |RdataBytes(r.rdata)|), RdataBytes(r.rdata));
  }
}
