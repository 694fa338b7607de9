/** What the reader of packets accepts: every record that it returns has the
    layout of its type, and its stored form is read as the same record. */
module RdataResults {
  import opened Names
  import opened Records
  import opened Wire
  import opened Sequences
  import opened PacketName
  import opened Compression
  import opened RdataFields
  import opened PacketRr
  import opened Rdata

  // ----- names

  lemma {:induction false} LoweredAt(s: Bytes, i: nat)
    requires i < |s|
    ensures |Lowered(s)| == |s| && Lowered(s)[i] == Lower(s[i])
  {
    if i > 0 {
      LoweredAt(s[1..], i - 1);
    } else if |s| > 1 {
      LoweredAt(s[1..], 0);
    }
  }

  lemma {:induction false} LoweredTwice(s: Bytes)
    ensures |Lowered(s)| == |s| && Lowered(Lowered(s)) == Lowered(s)
  {
    if s != [] {
      LoweredTwice(s[1..]);
      assert Lowered(s)[1..] == Lowered(s[1..]);
    }
  }

  /** The bytes that count labels are no letters. */
  lemma {:induction false} LoweredSkips(w: Bytes, i: nat)
    requires |Lowered(w)| == |w| && SkipName(w, i) == |w|
    ensures SkipName(Lowered(w), i) == |w|
    decreases |w| - i
  {
    LoweredAt(w, i);
    if w[i] != 0 {
      LoweredSkips(w, i + 1 + w[i] as int);
    }
  }

  /** A name that is read is a name of the domain table. */
  lemma {:induction false} NameOfGood(w: Bytes)
    requires WholeName(w)
    ensures WireNameOk(NameOf(w)) && Normal(NameOf(w)) && |WireName(NameOf(w))| == |w|
    decreases |w|
  {
    if w[0] != 0 {
      var k := 1 + w[0] as int;
      var lab, rest := w[1..k], w[k..];
      SkipNameFrom(w, k, 0);
      NameOfGood(rest);
      LoweredTwice(lab);
      var n, up := NameOf(w), NameOf(rest);
      assert n[..|n| - 1] == up && n[|n| - 1] == Lowered(lab);
    }
  }

  // ----- fields

  /** A field is as long in its own bytes as in the rdata that it was read from. */
  lemma SameMeasure(field: Field, before: seq<Atom>, rest: Bytes, d: Bytes, more: Bytes)
    requires !IsName(field, before) && FieldLength(field, before, rest) == |d| && d <= rest && (|d| == |rest| ==> more == [])
    ensures FieldLength(field, before, d + more) == |d|
  {
    assert forall i :: 0 <= i < |d| ==> (d + more)[i] == rest[i];
  }

  lemma NameFits(pkt: Bytes, p: nat, field: Field, before: seq<Atom>, rest: seq<int>)
    requires IsName(field, before) && NameAt(pkt, p).Some? && |NameAt(pkt, p).value| <= MAXDOMAINLEN
    ensures var a := NameField(field, NameAt(pkt, p).value);
            AtomFits(a, field, before, rest) && AtomBytes(a) != [] && AreBytes(AtomBytes(a))
  {
    var w := NameAt(pkt, p).value;
    NameAtWhole(pkt, p);
    NameOfGood(w);
    WireNameBytes(NameOf(w));
    LoweredTwice(w);
    LoweredSkips(w, 0);
  }

  /** The atoms that are read have the layout of the fields. */
  lemma {:induction false} AtomsTyped(pkt: Bytes, p: nat, to: nat, fields: seq<Field>, required: nat, before: seq<Atom>) returns (atoms: seq<Atom>)
    requires p <= to <= |pkt| && ReadAtoms(pkt, p, to, fields, required, before).Some?
    ensures ReadAtoms(pkt, p, to, fields, required, before) == Some(before + atoms)
    ensures Typed(atoms, fields, required, before) && AreBytes(RdataBytes(atoms)) && (RdataBytes(atoms) == [] <==> p == to)
    decreases |fields|
  {
    if fields == [] || (required == 0 && p == to) {
      atoms := [];
      assert before + [] == before;
      return;
    }
    var (a, next) := ReadField(pkt, p, to, fields[0], before).value;
    var tail := AtomsTyped(pkt, next, to, fields[1..], OneLess(required), before + [a]);
    atoms := [a] + tail;
    assert before + [a] + tail == before + ([a] + tail) && atoms[1..] == tail;
    FirstFits(pkt, p, to, fields[0], before, RdataBytes(tail));
  }

  lemma FirstFits(pkt: Bytes, p: nat, to: nat, field: Field, before: seq<Atom>, more: Bytes)
    requires p <= to <= |pkt| && ReadField(pkt, p, to, field, before).Some?
    requires var (a, next) := ReadField(pkt, p, to, field, before).value; more == [] <==> next == to
    ensures var (a, next) := ReadField(pkt, p, to, field, before).value;
            && AtomFits(a, field, before, AtomBytes(a) + more) && AreBytes(AtomBytes(a))
            && (AtomBytes(a) + more == [] <==> p == to)
  {
    if IsName(field, before) {
      var a := NameField(field, NameAt(pkt, p).value);
      NameFits(pkt, p, field, before, AtomBytes(a) + more);
      assert AtomBytes(a) + more != [];
    } else {
      var rest := pkt[p..to];
      var d := rest[..FieldLength(field, before, rest)];
      assert d == pkt[p..p + |d|];
      SameMeasure(field, before, rest, d, more);
    }
  }

  // ----- records

  lemma BodyTyped(pkt: Bytes, owner: Name, q: nat, types: Types)
    requires RecordFrom(pkt, owner, q, types).Some?
    ensures var r := RecordFrom(pkt, owner, q, types).value.0;
            && r.owner == owner && r.typ < 0x10000 && r.klass < 0x10000 && r.ttl < 0x1_0000_0000
            && Typed(r.rdata, types(r.typ).fields, types(r.typ).minimum, [])
  {
    var d := types(ReadU16(pkt, q));
    var atoms := AtomsTyped(pkt, q + 10, q + 10 + ReadU16(pkt, q + 8), d.fields, d.minimum, []);
    assert [] + atoms == atoms;
  }

  /** Every record that is read has the layout of its type, unless its names,
      written out, make its rdata too long for a record. */
  lemma ReadIsTyped(pkt: Bytes, p: nat, types: Types)
    requires ReadRecord(pkt, p, types).Some?
    ensures var r := ReadRecord(pkt, p, types).value.0;
            WellTyped(r, types) <==> |RdataBytes(r.rdata)| < 0x10000
  {
    var w, q := NameAt(pkt, p).value, After(pkt, p).value;
    NameAtWhole(pkt, p);
    NameOfGood(w);
    BodyTyped(pkt, NameOf(w), q, types);
  }

  /** Its stored form is then read as the same record. */
  lemma ReadAgain(pkt: Bytes, p: nat, types: Types)
    requires ReadRecord(pkt, p, types).Some? && |RdataBytes(ReadRecord(pkt, p, types).value.0.rdata)| < 0x10000
    ensures var r := ReadRecord(pkt, p, types).value.0;
            AreBytes(Encode(r)) && ReadRecord(Encode(r), 0, types) == Some((r, |Encode(r)|))
  {
    ReadIsTyped(pkt, p, types);
    StoredRead(ReadRecord(pkt, p, types).value.0, types);
  }
}
