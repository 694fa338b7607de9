/** Records with compressed names: how a reader takes one from a packet, and
    what a writer has to have put there. */
module PacketRr {
  import opened Names
  import opened Wire
  import opened Sequences
  import opened PacketName
  import opened Compression
  import opened RdataFields

  // ----- rdata fields

  /** Rdata that the fields of its type divide up. */
  predicate FitsFields(rd: Bytes, fields: seq<Field>)
    decreases |fields|
  {
    if rd == [] then true
    else if fields == [] then false
    else if fields[0].CompressedName? then
      NameLength(rd) != 0 && FitsFields(rd[NameLength(rd)..], fields[1..])
    else
      CopyLen(fields[0], rd) <= |rd| && FitsFields(rd[CopyLen(fields[0], rd)..], fields[1..])
  }

  /** A whole uncompressed record whose rdata its type can divide up. */
  predicate GoodRr(rr: Bytes, types: Types) {
    var n := NameLength(rr);
    && n != 0 && n + 10 <= |rr| && n + 10 + ReadU16(rr, n + 8) == |rr|
    && FitsFields(rr[n + 10..], types(ReadU16(rr, n)).fields)
  }

  // ----- reading

  /** The name at `p`, uncompressed, when there is one. */
  ghost function NameAt(pkt: Bytes, p: nat): Option<Bytes> {
    if exists w :: Spells(pkt, p, true, NONE, w) then
      var w :| Spells(pkt, p, true, NONE, w);
      Some(w)
    else None
  }

  lemma NameAtIs(pkt: Bytes, p: nat, w: Bytes)
    requires Spells(pkt, p, true, NONE, w)
    ensures NameAt(pkt, p) == Some(w)
  {
    var v :| NameAt(pkt, p) == Some(v) && Spells(pkt, p, true, NONE, v);
    SpellsOne(pkt, p, true, NONE, v, w);
  }

  /** The rdata between `p` and `to`, with its names uncompressed. */
  ghost function ReadRdata(pkt: Bytes, p: nat, to: nat, fields: seq<Field>): Option<Bytes>
    requires to <= |pkt|
    decreases |fields|
  {
    if p == to then Some([])
    else if p > to || fields == [] then None
    else if fields[0].CompressedName? then
      var w, next := NameAt(pkt, p), After(pkt, p);
      if w.None? || next.None? then None else Prepend(w.value, ReadRdata(pkt, next.value, to, fields[1..]))
    else
      var n := CopyLen(fields[0], pkt[p..to]);
      if p + n > to then None else Prepend(pkt[p..p + n], ReadRdata(pkt, p + n, to, fields[1..]))
  }

  /** The record at `p` in uncompressed form, and the position after it. */
  ghost function ReadRr(pkt: Bytes, p: nat, types: Types): Option<(Bytes, nat)> {
    var w, q := NameAt(pkt, p), After(pkt, p);
    if w.None? || q.None? || q.value + 10 > |pkt| then None
    else
      var to := q.value + 10 + ReadU16(pkt, q.value + 8);
      if to > |pkt| then None
      else
        var rd := ReadRdata(pkt, q.value + 10, to, types(ReadU16(pkt, q.value)).fields);
        if rd.None? then None
        else Some((w.value + pkt[q.value..q.value + 8] + LengthField(|rd.value|) + rd.value, to))
  }

  /** The two bytes of a length. */
  function LengthField(n: nat): Bytes {
    var f: Bytes := [n / 256 % 256, n % 256];
    f
  }

  // ----- what has been written

  /** A field in the packet, from `from` to `to`, standing for `w`. */
  datatype Piece = Piece(field: Field, from: nat, to: nat, w: Bytes)

  ghost predicate PieceOk(pkt: Bytes, hole: int, x: Piece) {
    && x.from < x.to <= |pkt| && x.w != []
    && if x.field.CompressedName? then Spells(pkt, x.from, true, hole, x.w) && After(pkt, x.from) == Some(x.to)
       else hole + 2 <= x.from && pkt[x.from..x.to] == x.w
  }

  /** The pieces follow each other from `from` to `to`, one for each field. */
  ghost predicate Chained(pkt: Bytes, hole: int, xs: seq<Piece>, fields: seq<Field>, from: nat, to: nat)
    decreases |xs|
  {
    if xs == [] then from == to
    else
      && fields != [] && xs[0].field == fields[0] && xs[0].from == from && PieceOk(pkt, hole, xs[0])
      && Chained(pkt, hole, xs[1..], fields[1..], xs[0].to, to)
  }

  ghost function Flat(xs: seq<Piece>): Bytes {
    if xs == [] then [] else xs[0].w + Flat(xs[1..])
  }

  /** Each plain piece took what its field takes from the rdata at that point,
      where `rest` is the rdata behind the pieces. */
  ghost predicate Measured(xs: seq<Piece>, rest: Bytes)
    decreases |xs|
  {
    if xs == [] then true
    else
      && xs[0].w != []
      && (xs[0].field.CompressedName? || CopyLen(xs[0].field, xs[0].w + (Flat(xs[1..]) + rest)) == |xs[0].w|)
      && Measured(xs[1..], rest)
  }

  lemma {:induction false} MeasuredSnoc(xs: seq<Piece>, x: Piece, rest: Bytes)
    requires Measured(xs, x.w + rest) && x.w != []
    requires x.field.CompressedName? || CopyLen(x.field, x.w + rest) == |x.w|
    ensures Measured(xs + [x], rest)
    ensures Flat(xs + [x]) == Flat(xs) + x.w
    decreases |xs|
  {
    if xs == [] {
      assert xs + [x] == [x] && [x][1..] == [];
      assert Flat([]) + rest == rest;
      assert Flat([x]) == x.w + Flat([]) == x.w;
      assert [] + x.w == x.w;
    } else {
      MeasuredSnoc(xs[1..], x, rest);
      assert (xs + [x])[1..] == xs[1..] + [x];
      assert Flat(xs[1..]) + x.w + rest == Flat(xs[1..]) + (x.w + rest);
      assert xs[0].w + (Flat(xs[1..]) + x.w) == xs[0].w + Flat(xs[1..]) + x.w;
    }
  }

  lemma {:induction false} ChainSnoc(pkt: Bytes, hole: int, xs: seq<Piece>, fields: seq<Field>, from: nat, x: Piece)
    requires Chained(pkt, hole, xs, fields, from, x.from) && |xs| < |fields| && x.field == fields[|xs|]
    requires PieceOk(pkt, hole, x)
    ensures Chained(pkt, hole, xs + [x], fields, from, x.to)
    decreases |xs|
  {
    if xs == [] {
      assert xs + [x] == [x] && [x][1..] == [];
      assert Chained(pkt, hole, [], fields[1..], x.to, x.to);
    } else {
      ChainSnoc(pkt, hole, xs[1..], fields[1..], xs[0].to, x);
      assert (xs + [x])[1..] == xs[1..] + [x];
    }
  }

  lemma PieceStays(pkt: Bytes, pkt': Bytes, hole: int, hole': int, x: Piece)
    requires SameBut(pkt, pkt', hole) && PieceOk(pkt, hole, x)
    requires hole' == hole || hole' == NONE
    ensures PieceOk(pkt', hole', x)
  {
    if x.field.CompressedName? {
      SpellsStays(pkt, pkt', x.from, hole, hole', x.w);
      var k: nat :| Follow(pkt, x.from, true, hole, k) == Some(x.w);
      AfterStays(pkt, pkt', x.from, hole, k);
    } else {
      assert pkt'[x.from..x.to] == pkt[x.from..x.to];
    }
  }

  lemma {:induction false} ChainStays(pkt: Bytes, pkt': Bytes, hole: int, hole': int, xs: seq<Piece>, fields: seq<Field>, from: nat, to: nat)
    requires SameBut(pkt, pkt', hole) && Chained(pkt, hole, xs, fields, from, to)
    requires hole' == hole || hole' == NONE
    ensures Chained(pkt', hole', xs, fields, from, to)
    decreases |xs|
  {
    if xs != [] {
      PieceStays(pkt, pkt', hole, hole', xs[0]);
      ChainStays(pkt, pkt', hole, hole', xs[1..], fields[1..], xs[0].to, to);
    }
  }

  lemma {:induction false} ChainBounds(pkt: Bytes, hole: int, xs: seq<Piece>, fields: seq<Field>, from: nat, to: nat)
    requires Chained(pkt, hole, xs, fields, from, to)
    ensures from <= to && (xs != [] ==> from < to <= |pkt| && Flat(xs) != [])
    decreases |xs|
  {
    if xs != [] {
      ChainBounds(pkt, hole, xs[1..], fields[1..], xs[0].to, to);
    }
  }

  /** A field's length does not depend on how the fields behind it are written. */
  lemma SameLength(field: Field, a: Bytes, b: Bytes)
    requires a != [] && b != [] && !field.CompressedName?
    requires CopyLen(field, a) <= |a| && CopyLen(field, a) <= |b|
    requires a[..CopyLen(field, a)] == b[..CopyLen(field, a)]
    requires |a| == CopyLen(field, a) <==> |b| == CopyLen(field, a)
    ensures CopyLen(field, b) == CopyLen(field, a)
  {
    var n := CopyLen(field, a);
    if field.Counted? {
      assert a[..n][0] == b[..n][0];
    } else if field.Apl? {
      assert a[..n][3] == b[..n][3];
    } else if field.SvcParam? {
      assert a[..n][2] == b[..n][2] && a[..n][3] == b[..n][3];
    }
  }

  lemma PlainRead(pkt: Bytes, x: Piece, rest: Bytes, to: nat)
    requires !x.field.CompressedName? && x.w != []
    requires x.from < x.to <= to <= |pkt| && pkt[x.from..x.to] == x.w
    requires CopyLen(x.field, x.w + rest) == |x.w| && (rest == [] <==> x.to == to)
    ensures CopyLen(x.field, pkt[x.from..to]) == |x.w|
  {
    var a, b := x.w + rest, pkt[x.from..to];
    assert a[..|x.w|] == x.w;
    assert b[..|x.w|] == pkt[x.from..x.to];
    SameLength(x.field, a, b);
  }

  /** The reader takes the pieces as they were written. */
  lemma {:induction false} PiecesRead(pkt: Bytes, xs: seq<Piece>, fields: seq<Field>, from: nat, to: nat)
    requires Chained(pkt, NONE, xs, fields, from, to) && Measured(xs, []) && to <= |pkt|
    ensures ReadRdata(pkt, from, to, fields) == Some(Flat(xs))
    decreases |xs|
  {
    if xs != [] {
      var x, ys := xs[0], xs[1..];
      ChainBounds(pkt, NONE, ys, fields[1..], x.to, to);
      PiecesRead(pkt, ys, fields[1..], x.to, to);
      OnePieceRead(pkt, x, Flat(ys), fields, to);
      assert Flat(ys) + [] == Flat(ys);
    }
  }

  lemma OnePieceRead(pkt: Bytes, x: Piece, rest: Bytes, fields: seq<Field>, to: nat)
    requires fields != [] && x.field == fields[0] && PieceOk(pkt, NONE, x) && x.to <= to <= |pkt|
    requires x.field.CompressedName? || CopyLen(x.field, x.w + rest) == |x.w|
    requires ReadRdata(pkt, x.to, to, fields[1..]) == Some(rest) && (rest == [] <==> x.to == to)
    ensures ReadRdata(pkt, x.from, to, fields) == Some(x.w + rest)
  {
    if x.field.CompressedName? {
      NameAtIs(pkt, x.from, x.w);
    } else {
      PlainRead(pkt, x, rest, to);
    }
  }

  // ----- more bytes behind a record do not change it

  lemma NameAtStays(pkt: Bytes, pkt': Bytes, p: nat)
    requires pkt <= pkt' && NameAt(pkt, p).Some?
    ensures NameAt(pkt', p) == NameAt(pkt, p) && After(pkt', p) == After(pkt, p)
  {
    var w := NameAt(pkt, p).value;
    SpellsStays(pkt, pkt', p, NONE, NONE, w);
    NameAtIs(pkt', p, w);
    var k: nat :| Follow(pkt, p, true, NONE, k) == Some(w);
    AfterStays(pkt, pkt', p, NONE, k);
  }

  lemma {:induction false} RdataStays(pkt: Bytes, pkt': Bytes, p: nat, to: nat, fields: seq<Field>)
    requires pkt <= pkt' && to <= |pkt| && ReadRdata(pkt, p, to, fields).Some?
    ensures ReadRdata(pkt', p, to, fields) == ReadRdata(pkt, p, to, fields)
    decreases |fields|
  {
    if p < to && fields != [] {
      if fields[0].CompressedName? {
        NameAtStays(pkt, pkt', p);
        RdataStays(pkt, pkt', After(pkt, p).value, to, fields[1..]);
      } else {
        assert pkt'[p..to] == pkt[p..to];
        var n := CopyLen(fields[0], pkt[p..to]);
        assert pkt'[p..p + n] == pkt[p..p + n];
        RdataStays(pkt, pkt', p + n, to, fields[1..]);
      }
    }
  }

  /** The parts of a record that can be read: its owner `w` up to `q`, ten bytes,
      and the rdata `rd` up to `to`. */
  ghost predicate HasParts(pkt: Bytes, p: nat, types: Types, w: Bytes, q: nat, to: nat, rd: Bytes) {
    && NameAt(pkt, p) == Some(w) && After(pkt, p) == Some(q)
    && q + 10 <= to <= |pkt| && to == q + 10 + ReadU16(pkt, q + 8)
    && ReadRdata(pkt, q + 10, to, types(ReadU16(pkt, q)).fields) == Some(rd)
  }

  lemma ReadParts(pkt: Bytes, p: nat, types: Types, w: Bytes, q: nat, to: nat, rd: Bytes)
    requires HasParts(pkt, p, types, w, q, to, rd)
    ensures ReadRr(pkt, p, types) == Some((w + pkt[q..q + 8] + LengthField(|rd|) + rd, to))
  {
  }

  lemma PartsOf(pkt: Bytes, p: nat, types: Types) returns (w: Bytes, q: nat, to: nat, rd: Bytes)
    requires ReadRr(pkt, p, types).Some?
    ensures HasParts(pkt, p, types, w, q, to, rd)
  {
    w, q := NameAt(pkt, p).value, After(pkt, p).value;
    to := q + 10 + ReadU16(pkt, q + 8);
    rd := ReadRdata(pkt, q + 10, to, types(ReadU16(pkt, q)).fields).value;
  }

  lemma PartsStay(pkt: Bytes, pkt': Bytes, p: nat, types: Types, w: Bytes, q: nat, to: nat, rd: Bytes)
    requires pkt <= pkt' && HasParts(pkt, p, types, w, q, to, rd)
    ensures HasParts(pkt', p, types, w, q, to, rd) && pkt'[q..q + 8] == pkt[q..q + 8]
  {
    NameAtStays(pkt, pkt', p);
    SameU16(pkt, pkt', q);
    SameU16(pkt, pkt', q + 8);
    RdataStays(pkt, pkt', q + 10, to, types(ReadU16(pkt, q)).fields);
  }

  lemma SameU16(pkt: Bytes, pkt': Bytes, at: nat)
    requires pkt <= pkt' && at + 2 <= |pkt|
    ensures ReadU16(pkt', at) == ReadU16(pkt, at)
  {
  }

  lemma RrStays(pkt: Bytes, pkt': Bytes, p: nat, types: Types)
    requires pkt <= pkt' && ReadRr(pkt, p, types).Some?
    ensures ReadRr(pkt', p, types) == ReadRr(pkt, p, types)
  {
    var w, q, to, rd := PartsOf(pkt, p, types);
    PartsStay(pkt, pkt', p, types, w, q, to, rd);
    ReadParts(pkt, p, types, w, q, to, rd);
    ReadParts(pkt', p, types, w, q, to, rd);
  }

  /** From `p` to `to` the packet holds exactly the records `rrs`. */
  ghost predicate Holds(pkt: Bytes, p: nat, to: nat, rrs: seq<Bytes>, types: Types)
    decreases |rrs|
  {
    if rrs == [] then p == to
    else
      var r := ReadRr(pkt, p, types);
      r.Some? && r.value.0 == rrs[0] && Holds(pkt, r.value.1, to, rrs[1..], types)
  }

  lemma {:induction false} HoldsOneMore(pkt: Bytes, pkt': Bytes, p: nat, rrs: seq<Bytes>, rr: Bytes, types: Types)
    requires pkt <= pkt' && Holds(pkt, p, |pkt|, rrs, types)
    requires ReadRr(pkt', |pkt|, types) == Some((rr, |pkt'|))
    ensures Holds(pkt', p, |pkt'|, rrs + [rr], types)
    decreases |rrs|
  {
    if rrs == [] {
      assert rrs + [rr] == [rr] && [rr][1..] == [];
      assert Holds(pkt', |pkt'|, |pkt'|, [], types);
    } else {
      RrStays(pkt, pkt', p, types);
      HoldsOneMore(pkt, pkt', ReadRr(pkt, p, types).value.1, rrs[1..], rr, types);
      assert (rrs + [rr])[0] == rrs[0] && (rrs + [rr])[1..] == rrs[1..] + [rr];
    }
  }

  /** A packet holds one list of so many records. */
  lemma {:induction false} HoldsOne(pkt: Bytes, p: nat, to: nat, to': nat, rrs: seq<Bytes>, rrs': seq<Bytes>, types: Types)
    requires Holds(pkt, p, to, rrs, types) && Holds(pkt, p, to', rrs', types) && |rrs| == |rrs'|
    ensures rrs == rrs' && to == to'
    decreases |rrs|
  {
    if rrs != [] {
      HoldsOne(pkt, ReadRr(pkt, p, types).value.1, to, to', rrs[1..], rrs'[1..], types);
      assert rrs == [rrs[0]] + rrs[1..] && rrs' == [rrs'[0]] + rrs'[1..];
    }
  }
}
