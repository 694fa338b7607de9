/** Reading a record from a packet into the domain table: `dname_make`,
    `rdata_wireformat_to_rdata_atoms` and the record loop of `apply_ixfr`,
    against the wire form in which the difference store keeps records. */
module Rdata {
  import opened Names
  import opened Records
  import opened Wire
  import opened Sequences
  import opened PacketName
  import opened Compression
  import opened RdataFields
  import opened PacketRr

  // ----- names

  function Lowered(s: Bytes): Bytes {
    if s == [] then [] else [Lower(s[0])] + Lowered(s[1..])
  }

  /** `dname_make` with normalisation, as labels from the top down. */
  function NameOf(w: Bytes): Name
    decreases |w|
  {
    if w == [] || w[0] == 0 || 1 + w[0] as int > |w| then []
    else NameOf(w[1 + w[0] as int..]) + [Lowered(w[1..1 + w[0] as int])]
  }

  /** A name of the domain table. */
  ghost predicate GoodName(n: Name) {
    WireNameOk(n) && |WireName(n)| <= MAXDOMAINLEN && Normal(n)
  }

  lemma NameOfCons(lab: Label, rest: Bytes)
    requires 1 <= |lab| < 64
    ensures var len: Byte := |lab|;
            NameOf([len] + lab + rest) == NameOf(rest) + [Lowered(lab)]
  {
    var len: Byte := |lab|;
    var w := [len] + lab + rest;
    assert w[1..1 + |lab|] == lab && w[1 + |lab|..] == rest;
  }

  ghost predicate Normal(n: Name) {
    n == [] || (Lowered(n[|n| - 1]) == n[|n| - 1] && Normal(n[..|n| - 1]))
  }

  lemma {:induction false} NameOfWire(n: Name)
    requires WireNameOk(n) && Normal(n)
    ensures AreBytes(WireName(n)) && NameOf(WireName(n)) == n
  {
    WireNameBytes(n);
    if n != [] {
      var up: Name := n[..|n| - 1];
      NameOfWire(up);
      NameOfCons(n[|n| - 1], WireName(up));
    }
  }

  /** The two names have the same letters, in any case. */
  ghost predicate SameLetters(n: Name, m: Name) {
    |n| == |m| && forall i :: 0 <= i < |n| ==> LabelLetters(n[i], m[i])
  }

  ghost predicate LabelLetters(a: Label, b: Label) {
    |a| == |b| && forall j :: 0 <= j < |a| ==> EitherCase(a[j], b[j])
  }

  /** No letter is in upper case. */
  ghost predicate NoUpper(b: Label) {
    forall j :: 0 <= j < |b| ==> !(65 <= b[j] <= 90)
  }

  lemma {:induction false} LoweredIs(a: Label, b: Label)
    requires LabelLetters(a, b) && NoUpper(b)
    ensures Lowered(a) == b
    decreases |a|
  {
    if a != [] {
      assert EitherCase(a[0], b[0]) && !(65 <= b[0] <= 90);
      assert forall j :: 0 <= j < |a| - 1 ==> EitherCase(a[1..][j], b[1..][j]) by {
        forall j | 0 <= j < |a| - 1
          ensures EitherCase(a[1..][j], b[1..][j])
        {
          assert a[1..][j] == a[j + 1] && b[1..][j] == b[j + 1];
        }
      }
      LoweredIs(a[1..], b[1..]);
    }
  }

  /** A name in a packet, with its letters in any case, is read as its name in
      lower case. */
  lemma {:induction false} CaseIsFolded(n: Name, m: Name)
    requires WireNameOk(n) && SameLetters(n, m) && forall i :: 0 <= i < |m| ==> NoUpper(m[i])
    ensures AreBytes(WireName(n)) && NameOf(WireName(n)) == m
    decreases |n|
  {
    WireNameBytes(n);
    if n != [] {
      var up: Name, low := n[..|n| - 1], m[..|m| - 1];
      assert forall i :: 0 <= i < |up| ==> up[i] == n[i] && low[i] == m[i];
      CaseIsFolded(up, low);
      NameOfCons(n[|n| - 1], WireName(up));
      LoweredIs(n[|n| - 1], m[|m| - 1]);
      assert m == low + [m[|m| - 1]];
    }
  }

  // ----- whole names in uncompressed form

  /** `w` is one uncompressed name. */
  predicate WholeName(w: Bytes) {
    SkipName(w, 0) == |w|
  }

  /** Of two whole names at the start of the same bytes, both are one. */
  lemma WholeNameOnce(v: Bytes, a: Bytes, w: Bytes, b: Bytes)
    requires WholeName(v) && WholeName(w) && v + a == w + b
    ensures v == w && a == b
  {
    assert [] + v + a == v + a && [] + w + b == w + b;
    SkipNameShift([], v, a, 0);
    SkipNameShift([], w, b, 0);
    assert |v| == |w|;
    assert (v + a)[..|v|] == v && (w + b)[..|w|] == w;
    assert (v + a)[|v|..] == a && (w + b)[|w|..] == b;
  }

  lemma WholeNameLength(w: Bytes, rest: Bytes)
    requires WholeName(w) && |w| <= MAXDOMAINLEN
    ensures NameLength(w + rest) == |w|
  {
    assert [] + w + rest == w + rest;
    SkipNameShift([], w, rest, 0);
  }

  /** What the bytes spell is a whole name. */
  lemma {:induction false} FollowWhole(pkt: Bytes, p: nat, k: nat)
    requires Follow(pkt, p, true, NONE, k).Some?
    ensures WholeName(Follow(pkt, p, true, NONE, k).value)
    decreases k
  {
    match ItemAt(pkt, p, true)
    case Bad =>
    case Root =>
    case Text(to) =>
      FollowWhole(pkt, to, k - 1);
      var head, rest := pkt[p..to], Follow(pkt, to, true, NONE, k - 1).value;
      assert head + rest + [] == head + rest;
      SkipNameShift(head, rest, [], 0);
      assert (head + rest)[0] == pkt[p];
    case Jump(to) => FollowWhole(pkt, to, k - 1);
  }

  lemma NameAtWhole(pkt: Bytes, p: nat)
    requires NameAt(pkt, p).Some?
    ensures WholeName(NameAt(pkt, p).value)
  {
    var w := NameAt(pkt, p).value;
    var k: nat :| Follow(pkt, p, true, NONE, k) == Some(w);
    FollowWhole(pkt, p, k);
  }

  /** An uncompressed name in the packet is read as it is. */
  lemma PlainNameAt(pkt: Bytes, p: nat, w: Bytes)
    requires p + |w| <= |pkt| && pkt[p..p + |w|] == w && WholeName(w)
    ensures NameAt(pkt, p) == Some(w) && After(pkt, p) == Some(p + |w|)
  {
    assert w[0..] == w;
    PlainSpells(pkt, p, w, 0);
    NameAtIs(pkt, p, w);
    PlainAfter(pkt, p, w, 0);
  }

  lemma {:induction false} PlainAfter(pkt: Bytes, at: nat, w: Bytes, i: nat)
    requires at + |w| <= |pkt| && pkt[at..at + |w|] == w && SkipName(w, i) == |w|
    ensures After(pkt, at + i) == Some(at + |w|)
    decreases |w| - i
  {
    assert pkt[at..at + |w|][i] == pkt[at + i];
    if w[i] != 0 {
      PlainAfter(pkt, at, w, i + 1 + w[i] as int);
      assert ItemAt(pkt, at + i, true) == Text(at + i + 1 + w[i] as int);
    }
  }

  // ----- rdata

  /** The atom for a name field: names of the domain table are normalised,
      literal names are kept as they are. */
  function NameField(field: Field, w: Bytes): Atom {
    match field
    case LiteralName => LiteralAtom(w)
    case Gateway(_) => DataAtom(Lowered(w))
    case _ => NameAtom(NameOf(w))
  }

  function OneLess(n: nat): nat {
    if n > 0 then n - 1 else 0
  }

  /** One field of the rdata that ends at `to`, and where it ends. */
  ghost function ReadField(pkt: Bytes, p: nat, to: nat, field: Field, before: seq<Atom>): (r: Option<(Atom, nat)>)
    requires p <= to <= |pkt|
    ensures r.Some? ==> p <= r.value.1 <= to
  {
    if IsName(field, before) then
      var w, next := NameAt(pkt, p), After(pkt, p);
      if w.None? || next.None? || |w.value| > MAXDOMAINLEN || next.value > to then None
      else Some((NameField(field, w.value), next.value))
    else
      var n := FieldLength(field, before, pkt[p..to]);
      if p + n > to then None else Some((DataAtom(pkt[p..p + n]), p + n))
  }

  /** The atoms of the rdata between `p` and `to`, behind the atoms `before`. */
  ghost function ReadAtoms(pkt: Bytes, p: nat, to: nat, fields: seq<Field>, required: nat, before: seq<Atom>): Option<seq<Atom>>
    requires p <= to <= |pkt|
    decreases |fields|
  {
    if fields == [] then if p == to then Some(before) else None
    else if required == 0 && p == to then Some(before)
    else
      match ReadField(pkt, p, to, fields[0], before)
      case None => None
      case Some((a, next)) => ReadAtoms(pkt, next, to, fields[1..], OneLess(required), before + [a])
  }

  /** An atom of the zone as its field asks for it; `rest` is the rdata from
      there on. */
  ghost predicate AtomFits(a: Atom, field: Field, before: seq<Atom>, rest: seq<int>) {
    if IsName(field, before) then
      match field
      case LiteralName => a.LiteralAtom? && WholeName(a.wire) && |a.wire| <= MAXDOMAINLEN
      case Gateway(_) => a.DataAtom? && WholeName(a.data) && |a.data| <= MAXDOMAINLEN && Lowered(a.data) == a.data
      case _ => a.NameAtom? && GoodName(a.name)
    else a.DataAtom? && AreBytes(rest) && |a.data| == FieldLength(field, before, rest)
  }

  /** The atoms have the layout of their type. */
  ghost predicate Typed(atoms: seq<Atom>, fields: seq<Field>, required: nat, before: seq<Atom>)
    decreases |atoms|
  {
    if atoms == [] then fields == [] || required == 0
    else
      && fields != [] && (required > 0 || RdataBytes(atoms) != [])
      && AtomFits(atoms[0], fields[0], before, RdataBytes(atoms))
      && Typed(atoms[1..], fields[1..], OneLess(required), before + [atoms[0]])
  }

  /** A name atom is one whole name in wire form, and is read back from it. */
  lemma NameAtomBytes(a: Atom, field: Field, before: seq<Atom>, rest: seq<int>)
    requires IsName(field, before) && AtomFits(a, field, before, rest)
    ensures AreBytes(AtomBytes(a)) && WholeName(AtomBytes(a)) && |AtomBytes(a)| <= MAXDOMAINLEN
    ensures NameField(field, AtomBytes(a)) == a
  {
    if a.NameAtom? {
      WireNameBytes(a.name);
      NameOfWire(a.name);
    }
  }

  lemma {:induction false} TypedBytes(atoms: seq<Atom>, fields: seq<Field>, required: nat, before: seq<Atom>)
    requires Typed(atoms, fields, required, before)
    ensures AreBytes(RdataBytes(atoms))
    decreases |atoms|
  {
    if atoms != [] {
      TypedBytes(atoms[1..], fields[1..], OneLess(required), before + [atoms[0]]);
      if IsName(fields[0], before) {
        NameAtomBytes(atoms[0], fields[0], before, RdataBytes(atoms));
      }
    }
  }

  /** One atom of uncompressed rdata. */
  lemma PlainAtom(pkt: Bytes, p: nat, to: nat, field: Field, before: seq<Atom>, a: Atom)
    requires p + |AtomBytes(a)| <= to <= |pkt| && pkt[p..p + |AtomBytes(a)|] == AtomBytes(a)
    requires AtomFits(a, field, before, pkt[p..to])
    ensures ReadField(pkt, p, to, field, before) == Some((a, p + |AtomBytes(a)|))
  {
    if IsName(field, before) {
      NameAtomBytes(a, field, before, pkt[p..to]);
      PlainNameAt(pkt, p, AtomBytes(a));
    }
  }

  lemma ReadEnd(pkt: Bytes, p: nat, fields: seq<Field>, required: nat, before: seq<Atom>)
    requires p <= |pkt| && (fields == [] || required == 0)
    ensures ReadAtoms(pkt, p, p, fields, required, before) == Some(before + [])
  {
    assert before + [] == before;
  }

  lemma Divided(pkt: Bytes, p: nat, to: nat, a: Bytes, b: Bytes)
    requires p <= to <= |pkt| && pkt[p..to] == a + b
    ensures p + |a| <= to && pkt[p..p + |a|] == a && pkt[p + |a|..to] == b
  {
    assert pkt[p..p + |a|] == (a + b)[..|a|];
    assert pkt[p + |a|..to] == (a + b)[|a|..];
  }

  /** Uncompressed rdata is read back as the atoms it was written from. */
  lemma {:induction false} PlainAtoms(pkt: Bytes, p: nat, to: nat, fields: seq<Field>, required: nat, before: seq<Atom>, atoms: seq<Atom>)
    requires p <= to <= |pkt| && Typed(atoms, fields, required, before)
    requires pkt[p..to] == RdataBytes(atoms)
    ensures ReadAtoms(pkt, p, to, fields, required, before) == Some(before + atoms)
    decreases |atoms|
  {
    if atoms == [] {
      ReadEnd(pkt, p, fields, required, before);
    } else {
      var next := FirstAtom(pkt, p, to, fields, required, before, atoms);
      PlainAtoms(pkt, next, to, fields[1..], OneLess(required), before + [atoms[0]], atoms[1..]);
      OneMoreRead(pkt, p, to, fields, required, before, atoms, next);
    }
  }

  /** From the rest of the atoms to all of them. */
  lemma OneMoreRead(pkt: Bytes, p: nat, to: nat, fields: seq<Field>, required: nat, before: seq<Atom>, atoms: seq<Atom>, next: nat)
    requires p <= next <= to <= |pkt| && fields != [] && atoms != [] && (required > 0 || p < to)
    requires ReadField(pkt, p, to, fields[0], before) == Some((atoms[0], next))
    requires ReadAtoms(pkt, next, to, fields[1..], OneLess(required), before + [atoms[0]]) == Some(before + [atoms[0]] + atoms[1..])
    ensures ReadAtoms(pkt, p, to, fields, required, before) == Some(before + atoms)
  {
    assert before + [atoms[0]] + atoms[1..] == before + atoms;
  }

  lemma FirstAtom(pkt: Bytes, p: nat, to: nat, fields: seq<Field>, required: nat, before: seq<Atom>, atoms: seq<Atom>) returns (next: nat)
    requires p <= to <= |pkt| && atoms != [] && Typed(atoms, fields, required, before) && pkt[p..to] == RdataBytes(atoms)
    ensures p <= next <= to && fields != [] && (required > 0 || p < to)
    ensures ReadField(pkt, p, to, fields[0], before) == Some((atoms[0], next)) && pkt[next..to] == RdataBytes(atoms[1..])
    ensures Typed(atoms[1..], fields[1..], OneLess(required), before + [atoms[0]])
  {
    var a := atoms[0];
    TypedBytes(atoms[1..], fields[1..], OneLess(required), before + [a]);
    AtomIsBytes(a, fields[0], before, RdataBytes(atoms));
    Divided(pkt, p, to, AtomBytes(a), RdataBytes(atoms[1..]));
    PlainAtom(pkt, p, to, fields[0], before, a);
    next := p + |AtomBytes(a)|;
  }

  lemma AtomIsBytes(a: Atom, field: Field, before: seq<Atom>, rest: seq<int>)
    requires AtomFits(a, field, before, rest)
    ensures AreBytes(AtomBytes(a))
  {
    if IsName(field, before) {
      NameAtomBytes(a, field, before, rest);
    }
  }

  // ----- rdata with compressed names

  /** Fields for which the writer stops at the end of the field. */
  predicate Measures(field: Field) {
    field.Fixed? || field.Counted? || field.Apl? || field.SvcParam?
  }

  /** Writer and reader agree on the length of a field; what follows it may be
      compressed in the packet. */
  lemma SameField(field: Field, before: seq<Atom>, rest: Bytes, rd: Bytes, tail: Bytes, d: Bytes)
    requires Measures(field) && rest != [] && CopyLen(field, rest) <= |rest|
    requires rd == rest[..CopyLen(field, rest)] + tail && d <= rd && |d| == FieldLength(field, before, rd)
    requires |rest| == CopyLen(field, rest) ==> tail == []
    ensures FieldLength(field, before, rest) == CopyLen(field, rest) == |d| && d == rest[..|d|] && rd[|d|..] == tail
  {
    var n := CopyLen(field, rest);
    assert rd[..n] == rest[..n];
    if field.Counted? {
      assert rd[..n][0] == rest[..n][0];
    } else if field.Apl? {
      assert rd[..n][3] == rest[..n][3];
    } else if field.SvcParam? {
      assert rd[..n][2] == rest[..n][2] && rd[..n][3] == rest[..n][3];
    }
    assert d == rd[..|d|];
  }

  /** The first atom of rdata whose field is written compressed. */
  lemma CompressedFirst(pkt: Bytes, p: nat, to: nat, fields: seq<Field>, required: nat, before: seq<Atom>, atoms: seq<Atom>, rd: Bytes)
    returns (next: nat)
    requires p < to <= |pkt| && Typed(atoms, fields, required, before) && rd == RdataBytes(atoms)
    requires fields != [] && fields[0].CompressedName? && ReadRdata(pkt, p, to, fields) == Some(rd)
    ensures p <= next <= to && atoms != []
    ensures ReadField(pkt, p, to, fields[0], before) == Some((atoms[0], next))
    ensures AreBytes(RdataBytes(atoms[1..])) && ReadRdata(pkt, next, to, fields[1..]) == Some(RdataBytes(atoms[1..]))
  {
    var w := NameAt(pkt, p).value;
    next := After(pkt, p).value;
    var r := ReadRdata(pkt, next, to, fields[1..]).value;
    NameAtWhole(pkt, p);
    assert rd == w + r && rd != [];
    NameAtomBytes(atoms[0], fields[0], before, rd);
    TypedBytes(atoms[1..], fields[1..], OneLess(required), before + [atoms[0]]);
    WholeNameOnce(w, r, AtomBytes(atoms[0]), RdataBytes(atoms[1..]));
  }

  /** The first atom of another field that ends before the rdata does. */
  lemma MeasuredFirst(pkt: Bytes, p: nat, to: nat, fields: seq<Field>, required: nat, before: seq<Atom>, atoms: seq<Atom>, rd: Bytes)
    returns (next: nat)
    requires p < to <= |pkt| && Typed(atoms, fields, required, before) && rd == RdataBytes(atoms)
    requires fields != [] && Measures(fields[0]) && ReadRdata(pkt, p, to, fields) == Some(rd)
    ensures p <= next <= to && atoms != []
    ensures ReadField(pkt, p, to, fields[0], before) == Some((atoms[0], next))
    ensures AreBytes(RdataBytes(atoms[1..])) && ReadRdata(pkt, next, to, fields[1..]) == Some(RdataBytes(atoms[1..]))
  {
    DataFirst(atoms, fields, required, before, rd);
    next := MeasuredStep(pkt, p, to, fields, before, rd, atoms[0].data);
  }

  lemma MeasuredStep(pkt: Bytes, p: nat, to: nat, fields: seq<Field>, before: seq<Atom>, rd: Bytes, d: Bytes) returns (next: nat)
    requires p < to <= |pkt| && fields != [] && Measures(fields[0]) && ReadRdata(pkt, p, to, fields) == Some(rd)
    requires d <= rd && |d| == FieldLength(fields[0], before, rd)
    ensures p <= next <= to && ReadField(pkt, p, to, fields[0], before) == Some((DataAtom(d), next))
    ensures ReadRdata(pkt, next, to, fields[1..]) == Some(rd[|d|..])
  {
    var tail;
    next, tail := FieldWritten(pkt, p, to, fields, rd);
    SameField(fields[0], before, pkt[p..to], rd, tail, d);
    DataRead(pkt, p, to, fields[0], before, d);
  }

  lemma DataRead(pkt: Bytes, p: nat, to: nat, field: Field, before: seq<Atom>, d: Bytes)
    requires p + |d| <= to <= |pkt| && Measures(field)
    requires FieldLength(field, before, pkt[p..to]) == |d| && d == pkt[p..to][..|d|]
    ensures ReadField(pkt, p, to, field, before) == Some((DataAtom(d), p + |d|))
  {
    assert pkt[p..p + |d|] == pkt[p..to][..|d|];
  }

  lemma FieldWritten(pkt: Bytes, p: nat, to: nat, fields: seq<Field>, rd: Bytes) returns (next: nat, tail: Bytes)
    requires p < to <= |pkt| && fields != [] && Measures(fields[0]) && ReadRdata(pkt, p, to, fields) == Some(rd)
    ensures p < next <= to && CopyLen(fields[0], pkt[p..to]) == next - p
    ensures ReadRdata(pkt, next, to, fields[1..]) == Some(tail) && rd == pkt[p..to][..next - p] + tail
    ensures next == to ==> tail == []
  {
    next := p + CopyLen(fields[0], pkt[p..to]);
    tail := ReadRdata(pkt, next, to, fields[1..]).value;
    assert pkt[p..next] == pkt[p..to][..next - p];
  }

  lemma DataFirst(atoms: seq<Atom>, fields: seq<Field>, required: nat, before: seq<Atom>, rd: Bytes)
    requires Typed(atoms, fields, required, before) && rd == RdataBytes(atoms) && rd != []
    requires fields != [] && Measures(fields[0])
    ensures atoms != [] && atoms[0].DataAtom? && atoms[0].data <= rd
    ensures |atoms[0].data| == FieldLength(fields[0], before, rd)
    ensures AreBytes(RdataBytes(atoms[1..])) && rd[|atoms[0].data|..] == RdataBytes(atoms[1..])
  {
    TypedBytes(atoms[1..], fields[1..], OneLess(required), before + [atoms[0]]);
  }

  /** Rdata that was written with compressed names is read as its atoms. */
  lemma {:induction false} AtomsRead(pkt: Bytes, p: nat, to: nat, fields: seq<Field>, required: nat, before: seq<Atom>, atoms: seq<Atom>)
    requires p <= to <= |pkt| && Typed(atoms, fields, required, before)
    requires AreBytes(RdataBytes(atoms)) && ReadRdata(pkt, p, to, fields) == Some(RdataBytes(atoms))
    ensures ReadAtoms(pkt, p, to, fields, required, before) == Some(before + atoms)
    decreases |atoms|
  {
    if p == to || (!fields[0].CompressedName? && !Measures(fields[0])) {
      WrittenWhole(pkt, p, to, fields, RdataBytes(atoms));
      PlainAtoms(pkt, p, to, fields, required, before, atoms);
    } else {
      var next;
      if fields[0].CompressedName? {
        next := CompressedFirst(pkt, p, to, fields, required, before, atoms, RdataBytes(atoms));
      } else {
        next := MeasuredFirst(pkt, p, to, fields, required, before, atoms, RdataBytes(atoms));
      }
      TypedMore(atoms, fields, required, before);
      AtomsRead(pkt, next, to, fields[1..], OneLess(required), before + [atoms[0]], atoms[1..]);
      OneMoreRead(pkt, p, to, fields, required, before, atoms, next);
    }
  }

  lemma TypedMore(atoms: seq<Atom>, fields: seq<Field>, required: nat, before: seq<Atom>)
    requires Typed(atoms, fields, required, before) && atoms != []
    ensures fields != [] && Typed(atoms[1..], fields[1..], OneLess(required), before + [atoms[0]])
  {
  }

  lemma WrittenWhole(pkt: Bytes, p: nat, to: nat, fields: seq<Field>, rd: Bytes)
    requires p <= to <= |pkt| && ReadRdata(pkt, p, to, fields) == Some(rd)
    requires p == to || (fields != [] && !fields[0].CompressedName? && !Measures(fields[0]))
    ensures rd == pkt[p..to]
  {
    if p < to {
      assert ReadRdata(pkt, to, to, fields[1..]) == Some([]);
      assert pkt[p..to] + [] == pkt[p..to];
    }
  }

  // ----- records

  function ReadU32(data: Bytes, i: nat): nat
    requires i + 4 <= |data|
  {
    ReadU16(data, i) * 0x10000 + ReadU16(data, i + 2)
  }

  /** The record at `p` and the position after it. */
  ghost function ReadRecord(pkt: Bytes, p: nat, types: Types): (r: Option<(Rr, nat)>)
    ensures r.Some? ==> p < r.value.1 <= |pkt|
  {
    var w, q := NameAt(pkt, p), After(pkt, p);
    if w.None? || q.None? || |w.value| > MAXDOMAINLEN then None
    else RecordFrom(pkt, NameOf(w.value), q.value, types)
  }

  /** What follows the owner. */
  ghost function RecordFrom(pkt: Bytes, owner: Name, q: nat, types: Types): (r: Option<(Rr, nat)>)
    ensures r.Some? ==> q < r.value.1 <= |pkt|
  {
    if q + 10 > |pkt| then None
    else
      var to := q + 10 + ReadU16(pkt, q + 8);
      if to > |pkt| then None
      else
        match RecordAtoms(pkt, q + 10, to, types(ReadU16(pkt, q)))
        case None => None
        case Some(atoms) => Some((Rr(owner, ReadU16(pkt, q), ReadU16(pkt, q + 2), ReadU32(pkt, q + 4), atoms), to))
  }

  ghost function RecordAtoms(pkt: Bytes, p: nat, to: nat, d: Descriptor): Option<seq<Atom>>
    requires p <= to <= |pkt|
  {
    ReadAtoms(pkt, p, to, d.fields, d.minimum, [])
  }

  /** A record of the zone: names of the domain table, numbers of the width the
      wire gives them, and rdata with the layout of its type. */
  ghost predicate WellTyped(r: Rr, types: Types) {
    && GoodName(r.owner) && r.typ < 0x10000 && r.klass < 0x10000 && r.ttl < 0x1_0000_0000
    && |RdataBytes(r.rdata)| < 0x10000
    && Typed(r.rdata, types(r.typ).fields, types(r.typ).minimum, [])
  }

  lemma {:induction false} TypedAtoms(atoms: seq<Atom>, fields: seq<Field>, required: nat, before: seq<Atom>)
    requires Typed(atoms, fields, required, before)
    ensures AtomsOk(atoms)
    decreases |atoms|
  {
    if atoms != [] {
      TypedAtoms(atoms[1..], fields[1..], OneLess(required), before + [atoms[0]]);
    }
  }

  lemma TypedEncodable(r: Rr, types: Types)
    requires WellTyped(r, types)
    ensures Encodable(r) && AreBytes(Encode(r)) && IsWire(Encode(r))
  {
    TypedAtoms(r.rdata, types(r.typ).fields, types(r.typ).minimum, []);
    EncodeIsWire(r);
  }

  /** The ten bytes between owner and rdata say what they should. */
  lemma FixedRead(pkt: Bytes, q: nat, typ: nat, klass: nat, ttl: nat, rdlen: nat)
    requires typ < 0x10000 && klass < 0x10000 && ttl < 0x1_0000_0000 && q + 8 <= |pkt|
    requires pkt[q..q + 8] == FixedPart(typ, klass, ttl, rdlen)[..8]
    ensures ReadU16(pkt, q) == typ && ReadU16(pkt, q + 2) == klass && ReadU32(pkt, q + 4) == ttl
  {
    var f: seq<int> := FixedPart(typ, klass, ttl, rdlen);
    forall i | 0 <= i < 8
      ensures pkt[q + i] as int == f[i]
    {
      assert pkt[q..q + 8][i] == f[..8][i];
    }
    assert f[..8] == [f[0], f[1], f[2], f[3], f[4], f[5], f[6], f[7]];
    U16Value(typ);
    U16Value(klass);
    U16Value(ttl / 0x10000);
    U16Value(ttl % 0x10000);
    SameU16Bytes(ttl);
  }

  lemma U16Value(v: nat)
    requires v < 0x10000
    ensures U16(v)[0] * 256 + U16(v)[1] == v
  {
  }

  lemma SameU16Bytes(v: nat)
    ensures U16(v) == U16(v % 0x10000)
  {
    assert v == v / 0x10000 * 256 * 256 + v % 0x10000;
    assert v / 256 == v / 0x10000 * 256 + v % 0x10000 / 256;
  }

  /** A record is what its parts say. */
  lemma RecordIs(pkt: Bytes, p: nat, types: Types, w: Bytes, q: nat, to: nat, r: Rr)
    requires NameAt(pkt, p) == Some(w) && |w| <= MAXDOMAINLEN && After(pkt, p) == Some(q) && NameOf(w) == r.owner
    requires q + 10 <= to <= |pkt| && to == q + 10 + ReadU16(pkt, q + 8)
    requires ReadU16(pkt, q) == r.typ && ReadU16(pkt, q + 2) == r.klass && ReadU32(pkt, q + 4) == r.ttl
    requires RecordAtoms(pkt, q + 10, to, types(r.typ)) == Some(r.rdata)
    ensures ReadRecord(pkt, p, types) == Some((r, to))
  {
    RecordFromIs(pkt, q, types, to, r);
  }

  lemma RecordFromIs(pkt: Bytes, q: nat, types: Types, to: nat, r: Rr)
    requires q + 10 <= to <= |pkt| && to == q + 10 + ReadU16(pkt, q + 8)
    requires ReadU16(pkt, q) == r.typ && ReadU16(pkt, q + 2) == r.klass && ReadU32(pkt, q + 4) == r.ttl
    requires RecordAtoms(pkt, q + 10, to, types(r.typ)) == Some(r.rdata)
    ensures RecordFrom(pkt, r.owner, q, types) == Some((r, to))
  {
  }

  lemma OwnerBytes(r: Rr, types: Types)
    requires WellTyped(r, types)
    ensures AreBytes(WireName(r.owner)) && WholeName(WireName(r.owner)) && |WireName(r.owner)| <= MAXDOMAINLEN
    ensures NameOf(WireName(r.owner)) == r.owner
  {
    WireNameBytes(r.owner);
    NameOfWire(r.owner);
  }

  lemma RdataIsBytes(r: Rr, types: Types)
    requires WellTyped(r, types)
    ensures AreBytes(RdataBytes(r.rdata)) && |RdataBytes(r.rdata)| < 0x10000
  {
    TypedBytes(r.rdata, types(r.typ).fields, types(r.typ).minimum, []);
  }

  /** The parts of a wire form. */
  lemma EncodedParts(name: Bytes, f: Bytes, rdata: Bytes, w: Bytes, eight: Bytes, rd: Bytes)
    requires WholeName(name) && |f| == 10 && WholeName(w) && |eight| == 8
    requires name + (f + rdata) == w + eight + LengthField(|rd|) + rd
    ensures name == w && eight == f[..8] && rd == rdata
  {
    var tail := eight + LengthField(|rd|) + rd;
    assert w + eight + LengthField(|rd|) + rd == w + tail;
    WholeNameOnce(name, f + rdata, w, tail);
    assert (f + rdata)[..8] == f[..8] && tail[..8] == eight;
    assert (f + rdata)[10..] == rdata && tail[10..] == rd;
  }

  /** A record that the packet holds, with its names compressed, is read as the
      record of the zone it was written from. */
  lemma RecordRead(pkt: Bytes, p: nat, types: Types, r: Rr, wire: Bytes, to: nat)
    requires WellTyped(r, types) && wire == Encode(r) && ReadRr(pkt, p, types) == Some((wire, to))
    ensures ReadRecord(pkt, p, types) == Some((r, to))
  {
    var w, q := PartsFound(pkt, p, types, r, wire, to);
    SentAtoms(pkt, q + 10, to, types(r.typ), r.rdata);
    RecordIs(pkt, p, types, w, q, to, r);
  }

  lemma PartsFound(pkt: Bytes, p: nat, types: Types, r: Rr, wire: Bytes, to: nat) returns (w: Bytes, q: nat)
    requires WellTyped(r, types) && wire == Encode(r) && ReadRr(pkt, p, types) == Some((wire, to))
    ensures NameAt(pkt, p) == Some(w) && |w| <= MAXDOMAINLEN && After(pkt, p) == Some(q) && NameOf(w) == r.owner
    ensures q + 10 <= to <= |pkt| && to == q + 10 + ReadU16(pkt, q + 8)
    ensures ReadU16(pkt, q) == r.typ && ReadU16(pkt, q + 2) == r.klass && ReadU32(pkt, q + 4) == r.ttl
    ensures AreBytes(RdataBytes(r.rdata)) && ReadRdata(pkt, q + 10, to, types(r.typ).fields) == Some(RdataBytes(r.rdata))
  {
    var end, rd;
    w, q, end, rd := PartsOf(pkt, p, types);
    ReadParts(pkt, p, types, w, q, end, rd);
    OwnerBytes(r, types);
    RdataIsBytes(r, types);
    NameAtWhole(pkt, p);
    PartsMatch(pkt, r, wire, w, q, rd);
  }

  lemma SentAtoms(pkt: Bytes, p: nat, to: nat, d: Descriptor, atoms: seq<Atom>)
    requires p <= to <= |pkt| && Typed(atoms, d.fields, d.minimum, [])
    requires AreBytes(RdataBytes(atoms)) && ReadRdata(pkt, p, to, d.fields) == Some(RdataBytes(atoms))
    ensures RecordAtoms(pkt, p, to, d) == Some(atoms)
  {
    assert [] + atoms == atoms;
    AtomsRead(pkt, p, to, d.fields, d.minimum, [], atoms);
  }

  lemma PartsMatch(pkt: Bytes, r: Rr, wire: Bytes, w: Bytes, q: nat, rd: Bytes)
    requires AreBytes(WireName(r.owner)) && WholeName(WireName(r.owner)) && AreBytes(RdataBytes(r.rdata))
    requires r.typ < 0x10000 && r.klass < 0x10000 && r.ttl < 0x1_0000_0000 && |RdataBytes(r.rdata)| < 0x10000
    requires q + 8 <= |pkt| && WholeName(w) && wire == Encode(r) && wire == w + pkt[q..q + 8] + LengthField(|rd|) + rd
    ensures w == WireName(r.owner) && rd == RdataBytes(r.rdata)
    ensures ReadU16(pkt, q) == r.typ && ReadU16(pkt, q + 2) == r.klass && ReadU32(pkt, q + 4) == r.ttl
  {
    FixedFields(r.typ, r.klass, r.ttl, |RdataBytes(r.rdata)|);
    var f: Bytes := FixedPart(r.typ, r.klass, r.ttl, |RdataBytes(r.rdata)|);
    EncodedParts(WireName(r.owner), f, RdataBytes(r.rdata), w, pkt[q..q + 8], rd);
    FixedRead(pkt, q, r.typ, r.klass, r.ttl, |RdataBytes(r.rdata)|);
  }

  /** The stored form itself is read back as the record. */
  lemma StoredRead(r: Rr, types: Types)
    requires WellTyped(r, types)
    ensures Encodable(r) && AreBytes(Encode(r)) && ReadRecord(Encode(r), 0, types) == Some((r, |Encode(r)|))
  {
    TypedEncodable(r, types);
    var w, f, rd := WireParts(r, types);
    StoredAtoms(Encode(r), |w| + 10, types(r.typ), r.rdata);
    StoredAs(Encode(r), w, r, types);
  }

  /** The parts of the stored form. */
  lemma WireParts(r: Rr, types: Types) returns (w: Bytes, f: Bytes, rd: Bytes)
    requires WellTyped(r, types) && AreBytes(Encode(r))
    ensures Encode(r) == w + (f + rd) && |f| == 10 && f[8] as int * 256 + f[9] as int == |rd|
    ensures WholeName(w) && |w| <= MAXDOMAINLEN && NameOf(w) == r.owner && rd == RdataBytes(r.rdata)
    ensures f == FixedPart(r.typ, r.klass, r.ttl, |rd|) && r.typ < 0x10000 && r.klass < 0x10000 && r.ttl < 0x1_0000_0000
    ensures var pkt: Bytes := Encode(r);
            && |pkt| == |w| + 10 + |rd| && pkt[0..|w|] == w && pkt[|w|..|w| + 8] == f[..8]
            && pkt[|w| + 10..|pkt|] == rd && ReadU16(pkt, |w| + 8) == |rd|
            && ReadU16(pkt, |w|) == r.typ && ReadU16(pkt, |w| + 2) == r.klass && ReadU32(pkt, |w| + 4) == r.ttl
  {
    OwnerBytes(r, types);
    RdataIsBytes(r, types);
    FixedFields(r.typ, r.klass, r.ttl, |RdataBytes(r.rdata)|);
    w, f, rd := WireName(r.owner), FixedPart(r.typ, r.klass, r.ttl, |RdataBytes(r.rdata)|), RdataBytes(r.rdata);
    StoredParts(Encode(r), w, f, rd);
    FixedRead(Encode(r), |w|, r.typ, r.klass, r.ttl, |rd|);
  }

  lemma StoredAs(pkt: Bytes, w: Bytes, r: Rr, types: Types)
    requires |w| + 10 <= |pkt| == |w| + 10 + ReadU16(pkt, |w| + 8) && pkt[0..|w|] == w
    requires WholeName(w) && |w| <= MAXDOMAINLEN && NameOf(w) == r.owner
    requires ReadU16(pkt, |w|) == r.typ && ReadU16(pkt, |w| + 2) == r.klass && ReadU32(pkt, |w| + 4) == r.ttl
    requires RecordAtoms(pkt, |w| + 10, |pkt|, types(r.typ)) == Some(r.rdata)
    ensures ReadRecord(pkt, 0, types) == Some((r, |pkt|))
  {
    PlainNameAt(pkt, 0, w);
    RecordIs(pkt, 0, types, w, |w|, |pkt|, r);
  }

  lemma StoredAtoms(pkt: Bytes, p: nat, d: Descriptor, atoms: seq<Atom>)
    requires p <= |pkt| && Typed(atoms, d.fields, d.minimum, []) && pkt[p..|pkt|] == RdataBytes(atoms)
    ensures RecordAtoms(pkt, p, |pkt|, d) == Some(atoms)
  {
    assert [] + atoms == atoms;
    PlainAtoms(pkt, p, |pkt|, d.fields, d.minimum, [], atoms);
  }

  lemma StoredParts(pkt: Bytes, w: Bytes, f: Bytes, rd: Bytes)
    requires pkt == w + (f + rd) && |f| == 10 && f[8] as int * 256 + f[9] as int == |rd|
    ensures pkt[0..|w|] == w && pkt[|w|..|w| + 8] == f[..8] && pkt[|w| + 10..|pkt|] == rd
    ensures ReadU16(pkt, |w| + 8) == |rd| && |pkt| == |w| + 10 + |rd|
  {
    assert pkt[|w| + 8] == f[8] && pkt[|w| + 9] == f[9];
  }

  /** No two records of the zone have the same wire form. */
  lemma EncodeInjective(r: Rr, s: Rr, types: Types)
    requires WellTyped(r, types) && WellTyped(s, types) && Encode(r) == Encode(s)
    ensures r == s
  {
    StoredRead(r, types);
    StoredRead(s, types);
  }

  // ----- records of the zone can be written

  lemma {:induction false} FitsTyped(atoms: seq<Atom>, fields: seq<Field>, required: nat, before: seq<Atom>, rd: Bytes)
    requires Typed(atoms, fields, required, before) && rd == RdataBytes(atoms)
    ensures FitsFields(rd, fields)
    decreases |atoms|
  {
    if rd != [] {
      var field, n := fields[0], |AtomBytes(atoms[0])|;
      TypedMore(atoms, fields, required, before);
      TypedBytes(atoms[1..], fields[1..], OneLess(required), before + [atoms[0]]);
      FitsTyped(atoms[1..], fields[1..], OneLess(required), before + [atoms[0]], RdataBytes(atoms[1..]));
      if field.CompressedName? {
        NameAtomBytes(atoms[0], field, before, rd);
        WholeNameLength(AtomBytes(atoms[0]), RdataBytes(atoms[1..]));
        assert rd[n..] == RdataBytes(atoms[1..]);
      } else if Measures(field) {
        DataFirst(atoms, fields, required, before, rd);
        assert CopyLen(field, rd) == n;
      } else {
        assert rd[|rd|..] == [];
      }
    }
  }

  /** The packet writer can divide up every record of the zone. */
  lemma TypedGoodRr(r: Rr, types: Types)
    requires WellTyped(r, types)
    ensures AreBytes(Encode(r)) && IsWire(Encode(r)) && GoodRr(Encode(r), types)
  {
    TypedEncodable(r, types);
    var w, f, rd := WireParts(r, types);
    FitsTyped(r.rdata, types(r.typ).fields, types(r.typ).minimum, [], rd);
    GoodParts(Encode(r), w, f, rd, types);
  }

  lemma GoodParts(rr: Bytes, w: Bytes, f: Bytes, rd: Bytes, types: Types)
    requires rr == w + (f + rd) && |f| == 10 && ReadU16(rr, |w| + 8) == |rd|
    requires WholeName(w) && |w| <= MAXDOMAINLEN && FitsFields(rd, types(ReadU16(rr, |w|)).fields)
    ensures GoodRr(rr, types)
  {
    WholeNameLength(w, f + rd);
    assert rr[|w| + 10..] == rd;
  }

  // ----- the reader

  /** `dname_make_wire_from_packet`; the empty result is its failure. */
  method ReadName(pkt: Bytes, p: nat) returns (wire: Bytes, next: nat)
    requires |pkt| <= MAX_PACKET_SIZE
    ensures wire == [] <==> NameAt(pkt, p).None? || |NameAt(pkt, p).value| > MAXDOMAINLEN
    ensures wire != [] ==> NameAt(pkt, p) == Some(wire) && After(pkt, p) == Some(next)
  {
    wire, next := MakeWireFromPacket(pkt, p, true);
    if wire != [] {
      assert Accepts(pkt, p, true, wire);
      NameAtIs(pkt, p, wire);
    } else if NameAt(pkt, p).Some? {
      NameAtWhole(pkt, p);
      assert !Accepts(pkt, p, true, NameAt(pkt, p).value);
    }
  }

  /** One field of `rdata_wireformat_to_rdata_atoms`. */
  method ReadOneField(pkt: Bytes, p: nat, to: nat, field: Field, before: seq<Atom>) returns (r: Option<(Atom, nat)>)
    requires |pkt| <= MAX_PACKET_SIZE && p <= to <= |pkt|
    ensures r == ReadField(pkt, p, to, field, before)
  {
    if IsName(field, before) {
      var wire, next := ReadName(pkt, p);
      if wire == [] || next > to {
        return None;
      }
      return Some((NameField(field, wire), next));
    }
    var length := FieldLength(field, before, pkt[p..to]);
    if p + length > to {
      return None;
    }
    return Some((DataAtom(pkt[p..p + length]), p + length));
  }

  /** The atoms from field `i` of the descriptor on. */
  ghost function ReadRest(pkt: Bytes, p: nat, to: nat, d: Descriptor, i: nat, before: seq<Atom>): Option<seq<Atom>>
    requires p <= to <= |pkt| && i <= |d.fields|
  {
    ReadAtoms(pkt, p, to, d.fields[i..], if i < d.minimum then d.minimum - i else 0, before)
  }

  lemma ReadStep(pkt: Bytes, p: nat, to: nat, d: Descriptor, i: nat, before: seq<Atom>)
    requires p <= to <= |pkt| && i < |d.fields|
    ensures ReadRest(pkt, p, to, d, i, before) ==
            if i >= d.minimum && p == to then Some(before)
            else
              match ReadField(pkt, p, to, d.fields[i], before)
              case None => None
              case Some((a, next)) => ReadRest(pkt, next, to, d, i + 1, before + [a])
  {
    assert d.fields[i..][0] == d.fields[i] && d.fields[i..][1..] == d.fields[i + 1..];
  }

  /** `rdata_wireformat_to_rdata_atoms`. */
  method ReadRdataAtoms(pkt: Bytes, p: nat, rdlen: nat, d: Descriptor) returns (r: Option<seq<Atom>>)
    requires |pkt| <= MAX_PACKET_SIZE && p <= |pkt|
    ensures r == if p + rdlen > |pkt| then None else RecordAtoms(pkt, p, p + rdlen, d)
  {
    if p + rdlen > |pkt| {
      return None;
    }
    var to, at, i, atoms := p + rdlen, p, 0, [];
    assert d.fields[0..] == d.fields;
    while i < |d.fields|
      invariant 0 <= i <= |d.fields| && p <= at <= to
      invariant RecordAtoms(pkt, p, to, d) == ReadRest(pkt, at, to, d, i, atoms)
    {
      var required := i < d.minimum;
      ReadStep(pkt, at, to, d, i, atoms);
      if !required && at == to {
        return Some(atoms);
      }
      var f := ReadOneField(pkt, at, to, d.fields[i], atoms);
      if f.None? {
        return None;
      }
      atoms, at, i := atoms + [f.value.0], f.value.1, i + 1;
    }
    return if at < to then None else Some(atoms);
  }

  /** One record of the answer section. */
  method ReadOneRecord(pkt: Bytes, p: nat, types: Types) returns (r: Option<(Rr, nat)>)
    requires |pkt| <= MAX_PACKET_SIZE
    ensures r == ReadRecord(pkt, p, types)
  {
    var wire, q := ReadName(pkt, p);
    if wire == [] {
      return None;
    }
    r := ReadBody(pkt, NameOf(wire), q, types);
  }

  method ReadBody(pkt: Bytes, owner: Name, q: nat, types: Types) returns (r: Option<(Rr, nat)>)
    requires |pkt| <= MAX_PACKET_SIZE
    ensures r == RecordFrom(pkt, owner, q, types)
  {
    if q + 10 > |pkt| {
      return None;
    }
    var typ, klass, ttl, rdlen := ReadU16(pkt, q), ReadU16(pkt, q + 2), ReadU32(pkt, q + 4), ReadU16(pkt, q + 8);
    var atoms := ReadRdataAtoms(pkt, q + 10, rdlen, types(typ));
    if atoms.None? {
      return None;
    }
    return Some((Rr(owner, typ, klass, ttl, atoms.value), q + 10 + rdlen));
  }

  /** How the bytes of a packet read as records. */
  type Reader = nat -> Option<(Rr, nat)>

  /** Names the position a proof is about to read at. */
  ghost predicate ReadingAt(p: nat) {
    true
  }

  ghost predicate IsReader(pkt: Bytes, types: Types, read: Reader) {
    forall p {:trigger ReadingAt(p)} :: ReadingAt(p) ==> read(p) == ReadRecord(pkt, p, types)
  }

  lemma PacketReader(pkt: Bytes, types: Types) returns (read: Reader)
    ensures IsReader(pkt, types, read)
  {
    read := p => ReadRecord(pkt, p, types);
  }

  /** The next `n` records from `p` on. */
  ghost function ReadAll(read: Reader, p: nat, n: nat): Option<seq<Rr>>
    decreases n
  {
    if n == 0 then Some([])
    else
      match read(p)
      case None => None
      case Some((r, next)) => Behind([r], ReadAll(read, next, n - 1))
  }

  ghost function Behind(a: seq<Rr>, b: Option<seq<Rr>>): Option<seq<Rr>> {
    match b
    case None => None
    case Some(s) => Some(a + s)
  }

  lemma BehindMore(a: seq<Rr>, r: Rr, b: Option<seq<Rr>>)
    ensures Behind(a + [r], b) == Behind(a, Behind([r], b))
  {
    if b.Some? {
      assert a + [r] + b.value == a + ([r] + b.value);
    }
  }

  method ReadNext(pkt: Bytes, p: nat, types: Types, ghost read: Reader) returns (r: Option<(Rr, nat)>)
    requires |pkt| <= MAX_PACKET_SIZE && IsReader(pkt, types, read)
    ensures r == read(p)
  {
    r := ReadOneRecord(pkt, p, types);
    assert ReadingAt(p);
  }

  /** The answer section of a packet: `ancount` records from `p` on. */
  method ReadAnswers(pkt: Bytes, p: nat, ancount: nat, types: Types, ghost read: Reader) returns (r: Option<seq<Rr>>)
    requires |pkt| <= MAX_PACKET_SIZE && IsReader(pkt, types, read)
    ensures r == ReadAll(read, p, ancount)
  {
    var i, at, rrs: seq<Rr> := 0, p, [];
    ghost var all := ReadAll(read, p, ancount);
    if all.Some? {
      assert [] + all.value == all.value;
    }
    while i < ancount
      invariant 0 <= i <= ancount && all == Behind(rrs, ReadAll(read, at, ancount - i))
    {
      var one := ReadNext(pkt, at, types, read);
      if one.None? {
        return None;
      }
      BehindMore(rrs, one.value.0, ReadAll(read, one.value.1, ancount - i - 1));
      i, at, rrs := i + 1, one.value.1, rrs + [one.value.0];
    }
    assert rrs + [] == rrs;
    return Some(rrs);
  }

  /** The table of types, the test that a record is laid out by it, and the
      stored form of such a record. */
  datatype Form = Form(types: Types, ok: Rr -> bool, wire: Rr -> Bytes)

  /** Names the record a proof is about to use. */
  ghost predicate Regard(r: Rr) {
    true
  }

  ghost predicate IsForm(form: Form) {
    forall r {:trigger Regard(r)} :: Regard(r) ==>
      (form.ok(r) <==> WellTyped(r, form.types)) && (WellTyped(r, form.types) ==> form.wire(r) == Encode(r))
  }

  lemma FormOf(types: Types) returns (form: Form)
    ensures IsForm(form) && form.types == types
  {
    form := Form(types, r => WellTyped(r, types), r => Stored(r, types));
    forall r | Regard(r) && WellTyped(r, types)
      ensures form.wire(r) == Encode(r)
    {
      TypedEncodable(r, types);
    }
  }

  ghost function Stored(r: Rr, types: Types): Bytes {
    if WellTyped(r, types) then
      TypedEncodable(r, types);
      Encode(r)
    else []
  }

  /** `wires` are the stored forms of these records of the zone. */
  ghost predicate StoredAll(rs: seq<Rr>, wires: seq<Bytes>, form: Form)
    decreases |rs|
  {
    |rs| == |wires| &&
    (rs == [] || (form.ok(rs[0]) && wires[0] == form.wire(rs[0]) && StoredAll(rs[1..], wires[1..], form)))
  }

  lemma NextRead(pkt: Bytes, p: nat, form: Form, r: Rr, wire: Bytes, to: nat, read: Reader)
    requires IsForm(form) && IsReader(pkt, form.types, read)
    requires form.ok(r) && wire == form.wire(r) && ReadRr(pkt, p, form.types) == Some((wire, to))
    ensures read(p) == Some((r, to))
  {
    assert Regard(r);
    RecordRead(pkt, p, form.types, r, wire, to);
    assert ReadingAt(p);
  }

  /** A packet that holds the stored forms is read as the records. */
  lemma {:induction false} HoldsRead(pkt: Bytes, p: nat, to: nat, wires: seq<Bytes>, rs: seq<Rr>, form: Form, read: Reader)
    requires IsForm(form) && IsReader(pkt, form.types, read) && Holds(pkt, p, to, wires, form.types) && StoredAll(rs, wires, form)
    ensures ReadAll(read, p, |rs|) == Some(rs)
    decreases |rs|
  {
    if rs != [] {
      var next := ReadRr(pkt, p, form.types).value.1;
      NextRead(pkt, p, form, rs[0], wires[0], next, read);
      HoldsRead(pkt, next, to, wires[1..], rs[1..], form, read);
      assert [rs[0]] + rs[1..] == rs;
    }
  }

  /** A record takes at least eleven bytes. */
  lemma RrTakes(pkt: Bytes, p: nat, types: Types)
    requires ReadRr(pkt, p, types).Some?
    ensures p + 11 <= ReadRr(pkt, p, types).value.1
  {
    var w, q, end, rd := PartsOf(pkt, p, types);
    ReadParts(pkt, p, types, w, q, end, rd);
  }

  lemma {:induction false} HoldsCount(pkt: Bytes, p: nat, to: nat, wires: seq<Bytes>, types: Types)
    requires Holds(pkt, p, to, wires, types)
    ensures p + 11 * |wires| <= to
    decreases |wires|
  {
    if wires != [] {
      RrTakes(pkt, p, types);
      HoldsCount(pkt, ReadRr(pkt, p, types).value.1, to, wires[1..], types);
    }
  }
}
