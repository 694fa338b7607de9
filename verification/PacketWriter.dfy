/** The packet being filled and its compression table: `pktcompression_write_dname`
    and `ixfr_write_rr_pkt`. */
module PacketWriter {
  import opened Names
  import opened Wire
  import opened Sequences
  import opened PacketName
  import opened Compression
  import opened RdataFields
  import opened PacketRr

  class Packet {
    /** The bytes before the position of the buffer. */
    var bytes: Bytes
    var table: Table
    const capacity: nat

    constructor (header: Bytes, capacity: nat)
      requires header != []
      ensures bytes == header && table == map[] && this.capacity == capacity
      ensures GoodTable(bytes, table, NONE)
    {
      this.bytes := header;
      this.table := map[];
      this.capacity := capacity;
    }

    /** `pktcompression_find`. */
    method Find(w: Bytes) returns (offset: nat)
      ensures offset == if w in table then table[w] else 0
    {
      if w in table {
        return table[w];
      }
      return 0;
    }

    /** `pktcompression_insert`. */
    method Insert(w: Bytes, offset: nat)
      modifies this`table
      ensures table == if offset > MAX_COMPRESSION_OFFSET || w in old(table) then old(table)
                       else old(table)[w := offset]
    {
      if offset > MAX_COMPRESSION_OFFSET {
        return;
      }
      if w !in table {
        table := table[w := offset];
      }
    }

    /** `pktcompression_insert_with_labels`: the query name, already in the
        packet, can be pointed to from each of its labels. */
    method InsertWithLabels(dname: Bytes, offset: nat)
      requires GoodTable(bytes, table, NONE) && offset > 0
      requires SkipName(dname, 0) == |dname|
      requires offset + |dname| <= |bytes| && bytes[offset..offset + |dname|] == dname
      modifies this`table
      ensures GoodTable(bytes, table, NONE)
      ensures Keeps(old(table), table)
      ensures forall j: nat :: Labels(dname, 0, j) && j + 1 < |dname| && offset + j <= MAX_COMPRESSION_OFFSET ==> dname[j..] in table
    {
      if offset > MAX_COMPRESSION_OFFSET {
        return;
      }
      var i := 0;
      while dname[i] != 0
        invariant 0 <= i < |dname| && SkipName(dname, i) == |dname|
        invariant GoodTable(bytes, table, NONE) && Keeps(old(table), table)
        invariant forall j: nat :: Labels(dname, 0, j) && j < |dname| ==> Labels(dname, i, j) || dname[j..] in table
        decreases |dname| - i
      {
        InsertLabel(dname, i, offset);
        var lablen := dname[i] as int;
        if offset + i > MAX_COMPRESSION_OFFSET - lablen - 1 {
          return;
        }
        i := i + lablen + 1;
      }
    }

    /** One label of it. */
    method InsertLabel(dname: Bytes, i: nat, offset: nat)
      requires GoodTable(bytes, table, NONE) && offset > 0 && i < |dname| && SkipName(dname, i) == |dname|
      requires offset + |dname| <= |bytes| && bytes[offset..offset + |dname|] == dname
      modifies this`table
      ensures GoodTable(bytes, table, NONE) && Keeps(old(table), table)
      ensures offset + i <= MAX_COMPRESSION_OFFSET ==> dname[i..] in table
    {
      PlainSpells(bytes, offset, dname, i);
      InsertKeeps(bytes, table, dname[i..], offset + i);
      Insert(dname[i..], offset + i);
    }

    /** Put a pointer to the rest of the name. */
    method WritePointer(offset: nat, rr: Bytes, i: nat, ghost end: nat, ghost pkt0: Bytes, ghost table0: Table, ghost hole: int) returns (ok: bool)
      requires Writing(pkt0, bytes, table, hole, rr, i, end) && NONE <= hole && hole + 2 <= |pkt0|
      requires rr[i] != 0 && rr[i..end] in table && table[rr[i..end]] == offset && Met(table0, table, |pkt0|, rr, i, end)
      modifies this`bytes
      ensures ok <==> |old(bytes)| + 2 <= capacity
      ensures ok ==> Written(pkt0, bytes, table, hole, rr, end) && |bytes| == |old(bytes)| + 2 <= |pkt0| + end && Compact(table0, table, |pkt0|, |bytes|, rr, end)
      ensures !ok ==> bytes == old(bytes)
    {
      if |bytes| + 2 > capacity {
        return false;
      }
      EntryAhead(bytes, table, hole, rr, |pkt0|, i, end);
      PointerSpells(bytes, offset, hole, rr[i..end]);
      ghost var before := bytes;
      bytes := bytes + [192 + offset / 256, offset % 256];
      Finish(pkt0, before, bytes, table, hole, rr, i, end);
      MetEnds(table0, table, |pkt0|, |bytes|, rr, i, end);
      ok := true;
    }

    /** Put the root label. */
    method WriteRoot(rr: Bytes, i: nat, ghost end: nat, ghost pkt0: Bytes, ghost table0: Table, ghost hole: int) returns (ok: bool)
      requires Writing(pkt0, bytes, table, hole, rr, i, end) && NONE <= hole && hole + 2 <= |pkt0|
      requires rr[i] == 0 && Met(table0, table, |pkt0|, rr, i, end)
      modifies this`bytes
      ensures ok <==> |old(bytes)| + 1 <= capacity
      ensures ok ==> Written(pkt0, bytes, table, hole, rr, end) && |bytes| == |old(bytes)| + 1 <= |pkt0| + end && Compact(table0, table, |pkt0|, |bytes|, rr, end)
      ensures !ok ==> bytes == old(bytes)
    {
      if |bytes| + 1 > capacity {
        return false;
      }
      RootSpells(bytes, hole);
      assert rr[i..end] == [0];
      ghost var before := bytes;
      bytes := bytes + [0];
      Finish(pkt0, before, bytes, table, hole, rr, i, end);
      MetEnds(table0, table, |pkt0|, |bytes|, rr, i, end);
      ok := true;
    }

    /** Put one label and remember the name that starts with it. */
    method WriteLabel(rr: Bytes, i: nat, dnameLen: nat, ghost end: nat, ghost pkt0: Bytes, ghost hole: int) returns (ok: bool)
      requires end == i + dnameLen && Writing(pkt0, bytes, table, hole, rr, i, end) && pkt0 != []
      requires rr[i] != 0
      modifies this`bytes, this`table
      ensures ok <==> |old(bytes)| + rr[i] as int + 1 <= capacity
      ensures ok ==> Writing(pkt0, bytes, table, hole, rr, i + rr[i] as int + 1, end)
      ensures Keeps(old(table), table) && (ok && |old(bytes)| <= MAX_COMPRESSION_OFFSET ==> rr[i..end] in table)
      ensures !ok ==> bytes == old(bytes) && table == old(table)
    {
      var lablen := rr[i] as int;
      if |bytes| + lablen + 1 > capacity {
        return false;
      }
      ghost var before, table0 := bytes, table;
      Insert(rr[i..i + dnameLen], |bytes|);
      bytes := bytes + rr[i..i + lablen + 1];
      NextLabel(pkt0, before, bytes, table0, table, hole, rr, i, end);
      ok := true;
    }

    /** `pktcompression_write_dname`, the name that `rr` starts with: when it
        fits, the packet spells it, and every table entry is still right.  From
        the first label whose name was in the table on, it takes two bytes; the
        name itself is in the table then, if it is in reach. */
    method WriteDname(rr: Bytes, ghost hole: int) returns (wirelen: nat)
      requires GoodTable(bytes, table, hole) && bytes != [] && hole + 2 <= |bytes| && NONE <= hole
      modifies this`bytes, this`table
      ensures old(bytes) <= bytes && |bytes| <= |old(bytes)| + NameLength(rr)
      ensures wirelen != 0 ==>
                wirelen == NameLength(rr) && Written(old(bytes), bytes, table, hole, rr, wirelen) && |bytes| <= capacity
      ensures wirelen != 0 ==> Compact(old(table), table, |old(bytes)|, |bytes|, rr, wirelen)
      ensures wirelen == 0 ==> NameLength(rr) == 0 || |old(bytes)| + NameLength(rr) > capacity
    {
      var dnameLen: nat := DnameLength(rr);
      if dnameLen == 0 {
        return 0;
      }
      var i: nat, ok := 0, true;
      ghost var end := dnameLen;
      BeginWriting(bytes, table, hole, rr, end);
      while rr[i] != 0
        invariant Writing(old(bytes), bytes, table, hole, rr, i, end)
        invariant i + dnameLen == end == NameLength(rr) && Met(old(table), table, |old(bytes)|, rr, i, end)
        decreases dnameLen
      {
        var offset := Find(rr[i..i + dnameLen]);
        if offset != 0 {
          ok := WritePointer(offset, rr, i, end, old(bytes), old(table), hole);
          return if ok then i + dnameLen else 0;
        }
        var next;
        ok, next := WriteNextLabel(rr, i, dnameLen, end, old(bytes), old(table), hole);
        if !ok {
          return 0;
        }
        i, dnameLen := next, dnameLen - (next - i);
      }
      ok := WriteRoot(rr, i, end, old(bytes), old(table), hole);
      return if ok then i + 1 else 0;
    }

    /** A label of a name that the table does not have from there on. */
    method WriteNextLabel(rr: Bytes, i: nat, dnameLen: nat, ghost end: nat, ghost pkt0: Bytes, ghost table0: Table, ghost hole: int)
      returns (ok: bool, next: nat)
      requires end == i + dnameLen && Writing(pkt0, bytes, table, hole, rr, i, end) && pkt0 != [] && rr[i] != 0
      requires Met(table0, table, |pkt0|, rr, i, end)
      requires rr[i..end] in table ==> table[rr[i..end]] == 0
      modifies this`bytes, this`table
      ensures ok <==> |old(bytes)| + rr[i] as int + 1 <= capacity
      ensures ok ==> i < next < end && Writing(pkt0, bytes, table, hole, rr, next, end) && Met(table0, table, |pkt0|, rr, next, end)
      ensures !ok ==> bytes == old(bytes) && table == old(table)
    {
      AheadOn(table0, table, bytes, hole, rr, |pkt0|, i, end);
      ok := WriteLabel(rr, i, dnameLen, end, pkt0, hole);
      next := i + rr[i] as int + 1;
      assert rr[0..end] == rr[..end];
    }

    /** One rdata field: the name compressed, or the bytes as they are. */
    method WriteField(rest: Bytes, field: Field, ghost hole: int) returns (n: nat)
      requires GoodTable(bytes, table, hole) && bytes != [] && NONE <= hole && hole + 2 <= |bytes|
      requires rest != [] && FieldOf(rest, field) > 0 && FieldOf(rest, field) <= |rest|
      modifies this`bytes, this`table
      ensures old(bytes) <= bytes && |bytes| <= |old(bytes)| + FieldOf(rest, field)
      ensures n != 0 ==>
                && n == FieldOf(rest, field)
                && GoodTable(bytes, table, hole) && |bytes| <= capacity
                && PieceOk(bytes, hole, Piece(field, |old(bytes)|, |bytes|, rest[..n]))
      ensures n == 0 ==> |old(bytes)| + FieldOf(rest, field) > capacity
    {
      if field.CompressedName? {
        n := WriteDname(rest, hole);
        return;
      }
      var copyLen := CopyLen(field, rest);
      if |bytes| + copyLen > capacity {
        return 0;
      }
      ghost var before := bytes;
      bytes := bytes + rest[..copyLen];
      TableStays(before, bytes, table, hole, hole);
      assert bytes[|before|..|bytes|] == rest[..copyLen];
      n := copyLen;
    }

    /** The rdata loop of `ixfr_write_rr_pkt`. */
    method WriteRdata(rd: Bytes, fields: seq<Field>, ghost hole: int) returns (ok: bool, ghost xs: seq<Piece>)
      requires GoodTable(bytes, table, hole) && bytes != [] && NONE <= hole && hole + 2 <= |bytes|
      requires FitsFields(rd, fields)
      modifies this`bytes, this`table
      ensures old(bytes) <= bytes && |bytes| <= |old(bytes)| + |rd|
      ensures ok && |old(bytes)| <= capacity ==> |bytes| <= capacity
      ensures ok ==>
                && GoodTable(bytes, table, hole)
                && Chained(bytes, hole, xs, fields, |old(bytes)|, |bytes|) && Measured(xs, []) && Flat(xs) == rd
      ensures !ok ==> |old(bytes)| + |rd| > capacity
    {
      BeginRdata(bytes, table, hole, fields, rd);
      ok, xs := WriteFields(rd, fields, hole, bytes);
      if ok {
        EndRdata(old(bytes), bytes, table, hole, xs, fields, rd);
      }
    }

    method WriteFields(rd: Bytes, fields: seq<Field>, ghost hole: int, ghost start: Bytes) returns (ok: bool, ghost xs: seq<Piece>)
      requires RdataState(start, bytes, table, hole, [], fields, rd, rd, 0)
      modifies this`bytes, this`table
      ensures ok ==> RdataState(start, bytes, table, hole, xs, fields, rd, [], |xs|)
      ensures ok && |old(bytes)| <= capacity ==> |bytes| <= capacity
      ensures !ok ==> start <= bytes && |bytes| <= |start| + |rd| && |start| + |rd| > capacity
    {
      var rest, i := rd, 0;
      xs := [];
      while i < |fields| && rest != []
        invariant i <= |fields| && RdataState(start, bytes, table, hole, xs, fields, rd, rest, i)
        invariant |old(bytes)| <= capacity ==> |bytes| <= capacity
      {
        var n;
        n, xs := WriteNextField(rd, rest, fields, i, hole, start, xs);
        if n == 0 {
          return false, xs;
        }
        rest := rest[n..];
        i := i + 1;
      }
      AllWritten(start, bytes, table, hole, xs, fields, rd, rest, i);
      ok := true;
    }

    /** One turn of that loop. */
    method WriteNextField(ghost rd: Bytes, rest: Bytes, fields: seq<Field>, i: nat, ghost hole: int, ghost start: Bytes, ghost xs: seq<Piece>)
      returns (n: nat, ghost xs': seq<Piece>)
      requires i < |fields| && rest != [] && RdataState(start, bytes, table, hole, xs, fields, rd, rest, i)
      modifies this`bytes, this`table
      ensures n <= |rest|
      ensures n != 0 ==> RdataState(start, bytes, table, hole, xs', fields, rd, rest[n..], i + 1) && |bytes| <= capacity
      ensures n == 0 ==> start <= bytes && |bytes| <= |start| + |rd| && |start| + |rd| > capacity
    {
      FieldStep(rest, fields, i);
      n := WriteField(rest, fields[i], hole);
      xs' := xs;
      if n != 0 {
        ghost var x := Piece(fields[i], |old(bytes)|, |bytes|, rest[..n]);
        AddPiece(old(bytes), bytes, hole, xs, fields, |start|, x);
        MeasurePiece(xs, x, rest, n);
        xs' := xs + [x];
      }
    }

    /** What follows the owner: type, class, ttl, the rdata, and its length
        patched in afterwards. */
    method WriteBody(rr: Bytes, n: nat, types: Types, ghost p: nat) returns (ok: bool)
      requires GoodRr(rr, types) && n == NameLength(rr) && bytes != [] && GoodTable(bytes, table, NONE)
      requires Spells(bytes, p, true, NONE, rr[..n]) && After(bytes, p) == Some(|bytes|)
      modifies this`bytes, this`table
      ensures ok ==>
                && old(bytes) <= bytes && |bytes| <= |old(bytes)| + |rr| - n && |bytes| <= capacity
                && GoodTable(bytes, table, NONE)
                && ReadRr(bytes, p, types) == Some((rr, |bytes|))
      ensures !ok ==> |old(bytes)| + |rr| - n > capacity
    {
      if |bytes| + 10 > capacity {
        return false;
      }
      ghost var named := bytes;
      bytes := bytes + rr[n..n + 8] + [0, 0];
      var rdpos := |bytes| - 2;
      TableStays(named, bytes, table, NONE, rdpos);
      ghost var xs;
      ok, xs := WriteRdata(rr[n + 10..], types(ReadU16(rr, n)).fields, rdpos);
      if !ok {
        return false;
      }
      ghost var full := bytes;
      var rdlen := |bytes| - rdpos - 2;
      bytes := PutU16(bytes, rdpos, rdlen);
      FinishBody(p, named, full, bytes, table, rr, types, xs);
    }

    /** `ixfr_write_rr_pkt`: a record goes in whole, so that reading the packet
        there gives it back, or not at all; it is left out only when its
        uncompressed form would not fit, or when compression has run out of
        reach in a packet that already holds records. */
    method WriteRr(rr: Bytes, types: Types, first: bool, room: nat) returns (ok: bool)
      requires GoodRr(rr, types) && bytes != [] && GoodTable(bytes, table, NONE)
      modifies this`bytes, this`table
      ensures ok ==>
                && old(bytes) <= bytes && |bytes| <= room && |bytes| <= capacity && |bytes| <= |old(bytes)| + |rr|
                && (first || |old(bytes)| <= MAX_COMPRESSION_OFFSET)
                && GoodTable(bytes, table, NONE)
                && ReadRr(bytes, |old(bytes)|, types) == Some((rr, |bytes|))
      ensures !ok ==>
                && bytes == old(bytes)
                && (|bytes| + |rr| > capacity || |bytes| + |rr| > room || (!first && |bytes| > MAX_COMPRESSION_OFFSET))
    {
      if |bytes| > room || (!first && |bytes| > MAX_COMPRESSION_OFFSET) {
        return false;
      }
      var before := bytes;
      var n := WriteDname(rr, NONE);
      if n == 0 {
        bytes := before;
        return false;
      }
      ok := WriteBody(rr, n, types, |before|);
      if !ok || |bytes| > room {
        bytes := before;
        return false;
      }
    }
  }

  /** Behind its header the packet holds these records and nothing else. */
  ghost predicate Carries(packet: Packet, header: Bytes, rrs: seq<Bytes>, types: Types)
    reads packet
  {
    header <= packet.bytes && Holds(packet.bytes, |header|, |packet.bytes|, rrs, types)
  }

  /** It can also take more records. */
  ghost predicate Filled(packet: Packet, header: Bytes, rrs: seq<Bytes>, types: Types)
    reads packet
  {
    packet.bytes != [] && GoodTable(packet.bytes, packet.table, NONE) && Carries(packet, header, rrs, types)
  }

  /** One more record. */
  method WriteNext(packet: Packet, rr: Bytes, types: Types, first: bool, room: nat, ghost header: Bytes, ghost rrs: seq<Bytes>)
    returns (ok: bool)
    requires Filled(packet, header, rrs, types) && GoodRr(rr, types)
    modifies packet`bytes, packet`table
    ensures ok ==> Filled(packet, header, rrs + [rr], types) && old(packet.bytes) <= packet.bytes
    ensures ok ==>
              && |packet.bytes| <= room && |packet.bytes| <= packet.capacity && |packet.bytes| <= |old(packet.bytes)| + |rr|
              && (first || |old(packet.bytes)| <= MAX_COMPRESSION_OFFSET)
    ensures !ok ==>
              && packet.bytes == old(packet.bytes) && Carries(packet, header, rrs, types)
              && (|packet.bytes| + |rr| > packet.capacity || |packet.bytes| + |rr| > room
                  || (!first && |packet.bytes| > MAX_COMPRESSION_OFFSET))
  {
    ok := packet.WriteRr(rr, types, first, room);
    if ok {
      HoldsOneMore(old(packet.bytes), packet.bytes, |header|, rrs, rr, types);
    }
  }

  /** A name that was written compressed is what the decoder reads there, and it
      stops where the writer stopped. */
  method DnameRoundTrip(packet: Packet, rr: Bytes) returns (wire: Bytes, next: nat)
    requires packet.bytes != [] && GoodTable(packet.bytes, packet.table, NONE)
    requires |packet.bytes| + |rr| <= packet.capacity <= MAX_PACKET_SIZE
    modifies packet
    ensures wire == rr[..NameLength(rr)] && (NameLength(rr) != 0 ==> next == |packet.bytes|)
  {
    var start := |packet.bytes|;
    var n := packet.WriteDname(rr, NONE);
    if n == 0 {
      return [], start;
    }
    wire, next := MakeWireFromPacket(packet.bytes, start, true);
    assert Accepts(packet.bytes, start, true, rr[..n]);
  }

  /** `buffer_write_u16_at`. */
  function PutU16(pkt: Bytes, at: nat, v: nat): (r: Bytes)
    requires at + 2 <= |pkt| && v < 65536
    ensures |r| == |pkt| && SameBut(pkt, r, at) && ReadU16(r, at) == v
  {
    pkt[at := v / 256][at + 1 := v % 256]
  }

  ghost predicate Keeps(before: Table, table: Table) {
    forall w :: w in before ==> w in table && table[w] == before[w]
  }

  lemma InsertKeeps(pkt: Bytes, table: Table, w: Bytes, offset: nat)
    requires GoodTable(pkt, table, NONE) && 0 < offset < |pkt| && Spells(pkt, offset, true, NONE, w)
    ensures offset <= MAX_COMPRESSION_OFFSET ==> GoodTable(pkt, table[w := offset], NONE)
  {
  }

  function FieldOf(rest: Bytes, field: Field): nat
    requires rest != []
  {
    if field.CompressedName? then NameLength(rest) else CopyLen(field, rest)
  }

  /** The rdata `rd` but for `rest` is in the packet, as the pieces `xs`. */
  ghost predicate RdataState(start: Bytes, pkt: Bytes, table: Table, hole: int, xs: seq<Piece>, fields: seq<Field>,
                             rd: Bytes, rest: Bytes, i: nat) {
    && start != [] && start <= pkt && |pkt| + |rest| <= |start| + |rd|
    && NONE <= hole && hole + 2 <= |start| && GoodTable(pkt, table, hole)
    && i == |xs| && i <= |fields| && FitsFields(rest, fields[i..])
    && Measured(xs, rest) && Flat(xs) + rest == rd && Chained(pkt, hole, xs, fields, |start|, |pkt|)
  }

  lemma BeginRdata(pkt: Bytes, table: Table, hole: int, fields: seq<Field>, rd: Bytes)
    requires GoodTable(pkt, table, hole) && pkt != [] && NONE <= hole && hole + 2 <= |pkt|
    requires FitsFields(rd, fields)
    ensures RdataState(pkt, pkt, table, hole, [], fields, rd, rd, 0)
  {
    JoinEmpty(rd);
    assert fields[0..] == fields;
  }

  lemma AllWritten(start: Bytes, pkt: Bytes, table: Table, hole: int, xs: seq<Piece>, fields: seq<Field>, rd: Bytes, rest: Bytes, i: nat)
    requires RdataState(start, pkt, table, hole, xs, fields, rd, rest, i) && (i == |fields| || rest == [])
    ensures rest == [] && RdataState(start, pkt, table, hole, xs, fields, rd, [], |xs|)
  {
  }

  lemma EndRdata(start: Bytes, pkt: Bytes, table: Table, hole: int, xs: seq<Piece>, fields: seq<Field>, rd: Bytes)
    requires RdataState(start, pkt, table, hole, xs, fields, rd, [], |xs|)
    ensures Flat(xs) == rd && Measured(xs, []) && Chained(pkt, hole, xs, fields, |start|, |pkt|)
  {
    JoinEmpty(Flat(xs));
  }

  lemma FieldStep(rest: Bytes, fields: seq<Field>, i: nat)
    requires i < |fields| && rest != [] && FitsFields(rest, fields[i..])
    ensures 0 < FieldOf(rest, fields[i]) <= |rest|
    ensures FitsFields(rest[FieldOf(rest, fields[i])..], fields[i + 1..])
  {
    assert fields[i..][0] == fields[i] && fields[i..][1..] == fields[i + 1..];
  }

  lemma AddPiece(pkt: Bytes, pkt': Bytes, hole: int, xs: seq<Piece>, fields: seq<Field>, from: nat, x: Piece)
    requires pkt <= pkt' && Chained(pkt, hole, xs, fields, from, |pkt|) && |xs| < |fields|
    requires x.field == fields[|xs|] && x.from == |pkt| && x.to == |pkt'| && PieceOk(pkt', hole, x)
    ensures Chained(pkt', hole, xs + [x], fields, from, |pkt'|)
  {
    ChainStays(pkt, pkt', hole, hole, xs, fields, from, |pkt|);
    ChainSnoc(pkt', hole, xs, fields, from, x);
  }

  lemma MeasurePiece(xs: seq<Piece>, x: Piece, rest: Bytes, n: nat)
    requires rest != [] && 0 < n <= |rest| && n == FieldOf(rest, x.field) && x.w == rest[..n]
    requires Measured(xs, rest)
    ensures Measured(xs + [x], rest[n..]) && Flat(xs + [x]) + rest[n..] == Flat(xs) + rest
  {
    Rejoin(Flat(xs), rest, n);
    MeasuredSnoc(xs, x, rest[n..]);
  }

  lemma JoinEmpty(a: Bytes)
    ensures a + [] == a && [] + a == a
  {
  }

  lemma Rejoin(a: Bytes, rest: Bytes, n: nat)
    requires n <= |rest|
    ensures rest[..n] + rest[n..] == rest
    ensures a + rest[..n] + rest[n..] == a + rest
  {
  }

  lemma OwnerRead(named: Bytes, pkt: Bytes, p: nat, w: Bytes)
    requires Spells(named, p, true, NONE, w) && After(named, p) == Some(|named|) && SameBut(named, pkt, NONE)
    ensures NameAt(pkt, p) == Some(w) && After(pkt, p) == Some(|named|)
  {
    SpellsStays(named, pkt, p, NONE, NONE, w);
    NameAtIs(pkt, p, w);
    var k: nat :| Follow(named, p, true, NONE, k) == Some(w);
    AfterStays(named, pkt, p, NONE, k);
  }

  /** The packet with the length patched in reads back as the record. */
  lemma ReadBack(p: nat, named: Bytes, full: Bytes, pkt: Bytes, rr: Bytes, types: Types, xs: seq<Piece>)
    requires GoodRr(rr, types)
    requires var n := NameLength(rr);
             && Spells(named, p, true, NONE, rr[..n]) && After(named, p) == Some(|named|)
             && |full| >= |named| + 10 && full[..|named| + 10] == named + rr[n..n + 8] + [0, 0]
             && Chained(full, |named| + 8, xs, types(ReadU16(rr, n)).fields, |named| + 10, |full|)
             && Measured(xs, []) && Flat(xs) == rr[n + 10..]
    requires |pkt| == |full| && SameBut(full, pkt, |named| + 8) && ReadU16(pkt, |named| + 8) == |full| - |named| - 10
    ensures ReadRr(pkt, p, types) == Some((rr, |pkt|))
  {
    var n, q := NameLength(rr), |named|;
    var fields := types(ReadU16(rr, n)).fields;
    Patched(named, rr[n..n + 8], full, pkt);
    OwnerRead(named, pkt, p, rr[..n]);
    RdataRead(full, pkt, q, xs, fields);
    Assembled(p, q, pkt, rr, types);
  }

  lemma RdataRead(full: Bytes, pkt: Bytes, q: nat, xs: seq<Piece>, fields: seq<Field>)
    requires |pkt| == |full| && SameBut(full, pkt, q + 8)
    requires Chained(full, q + 8, xs, fields, q + 10, |full|) && Measured(xs, [])
    ensures ReadRdata(pkt, q + 10, |pkt|, fields) == Some(Flat(xs))
  {
    ChainStays(full, pkt, q + 8, NONE, xs, fields, q + 10, |full|);
    PiecesRead(pkt, xs, fields, q + 10, |full|);
  }

  lemma Assembled(p: nat, q: nat, pkt: Bytes, rr: Bytes, types: Types)
    requires GoodRr(rr, types) && q + 10 <= |pkt|
    requires var n := NameLength(rr);
             && NameAt(pkt, p) == Some(rr[..n]) && After(pkt, p) == Some(q) && pkt[q..q + 8] == rr[n..n + 8]
             && ReadU16(pkt, q + 8) == |pkt| - q - 10
             && ReadRdata(pkt, q + 10, |pkt|, types(ReadU16(rr, n)).fields) == Some(rr[n + 10..])
    ensures ReadRr(pkt, p, types) == Some((rr, |pkt|))
  {
    var n := NameLength(rr);
    TypeRead(pkt, q, rr, n);
    ReadParts(pkt, p, types, rr[..n], q, |pkt|, rr[n + 10..]);
    Whole(rr, n);
  }

  /** The length goes in last. */
  lemma FinishBody(p: nat, named: Bytes, full: Bytes, pkt: Bytes, table: Table, rr: Bytes, types: Types, xs: seq<Piece>)
    requires GoodRr(rr, types)
    requires var n := NameLength(rr);
             && Spells(named, p, true, NONE, rr[..n]) && After(named, p) == Some(|named|)
             && named + rr[n..n + 8] + [0, 0] <= full
             && Chained(full, |named| + 8, xs, types(ReadU16(rr, n)).fields, |named| + 10, |full|)
             && Measured(xs, []) && Flat(xs) == rr[n + 10..]
    requires GoodTable(full, table, |named| + 8)
    requires |pkt| == |full| && SameBut(full, pkt, |named| + 8) && ReadU16(pkt, |named| + 8) == |full| - |named| - 10
    ensures ReadRr(pkt, p, types) == Some((rr, |pkt|)) && GoodTable(pkt, table, NONE) && named <= pkt
  {
    TakePrefix(named + rr[NameLength(rr)..NameLength(rr) + 8] + [0, 0], full);
    Patched(named, rr[NameLength(rr)..NameLength(rr) + 8], full, pkt);
    TableStays(full, pkt, table, |named| + 8, NONE);
    ReadBack(p, named, full, pkt, rr, types, xs);
  }

  lemma TakePrefix(a: Bytes, b: Bytes)
    requires a <= b
    ensures b[..|a|] == a
  {
  }

  lemma TypeRead(pkt: Bytes, q: nat, rr: Bytes, n: nat)
    requires q + 8 <= |pkt| && n + 8 <= |rr| && pkt[q..q + 8] == rr[n..n + 8]
    ensures ReadU16(pkt, q) == ReadU16(rr, n)
  {
    assert pkt[q..q + 8][0] == rr[n..n + 8][0] && pkt[q..q + 8][1] == rr[n..n + 8][1];
  }

  lemma Patched(named: Bytes, eight: Bytes, full: Bytes, pkt: Bytes)
    requires |eight| == 8 && |full| >= |named| + 10 && full[..|named| + 10] == named + eight + [0, 0]
    requires |pkt| == |full| && SameBut(full, pkt, |named| + 8)
    ensures SameBut(named, pkt, NONE) && named <= pkt
    ensures pkt[|named|..|named| + 8] == eight
  {
    var head := full[..|named| + 10];
    forall i | 0 <= i < |named| + 8
      ensures pkt[i] == (named + eight)[i]
    {
      assert head[i] == full[i];
    }
  }

  lemma Whole(rr: Bytes, n: nat)
    requires n + 10 <= |rr| && n + 10 + ReadU16(rr, n + 8) == |rr|
    ensures rr == rr[..n] + rr[n..n + 8] + LengthField(|rr[n + 10..]|) + rr[n + 10..]
  {
    assert LengthField(|rr[n + 10..]|) == rr[n + 8..n + 10];
  }

  /** The labels before `i` of the name `rr[..end]` are in the packet. */
  ghost predicate Writing(pkt0: Bytes, pkt: Bytes, table: Table, hole: int, rr: Bytes, i: nat, end: nat) {
    && i < end <= |rr| && SkipName(rr, i) == end && Labels(rr, 0, i)
    && pkt == pkt0 + rr[..i]
    && OpenTable(pkt, table, hole, rr, |pkt0|, i, end)
  }

  /** The whole name is in the packet. */
  ghost predicate Written(pkt0: Bytes, pkt: Bytes, table: Table, hole: int, rr: Bytes, end: nat) {
    && end <= |rr| && pkt0 <= pkt
    && GoodTable(pkt, table, hole)
    && Spells(pkt, |pkt0|, true, hole, rr[..end])
    && After(pkt, |pkt0|) == Some(|pkt|)
  }

  lemma BeginWriting(pkt: Bytes, table: Table, hole: int, rr: Bytes, end: nat)
    requires GoodTable(pkt, table, hole) && end == NameLength(rr) && end != 0
    ensures Writing(pkt, pkt, table, hole, rr, 0, end)
  {
    assert pkt + rr[..0] == pkt;
  }

  /** From every label on whose name was in the table, it is still to be written. */
  ghost predicate AllAhead(table0: Table, rr: Bytes, i: nat, end: nat) {
    forall j: nat {:trigger rr[j..end]} :: Labels(rr, 0, j) && j < end <= |rr| && rr[j..end] in table0 ==> Labels(rr, i, j)
  }

  /** While a name is written: nothing is lost from the table, and it has the name. */
  ghost predicate Met(table0: Table, table: Table, start: nat, rr: Bytes, i: nat, end: nat) {
    && end <= |rr| && Keeps(table0, table) && AllAhead(table0, rr, i, end)
    && (i > 0 && start <= MAX_COMPRESSION_OFFSET ==> rr[..end] in table)
  }

  /** The name took two bytes from any label on whose name was in the table, and
      is in the table itself, if it is in reach; nothing is lost from there. */
  ghost predicate Compact(table0: Table, table: Table, start: nat, stop: nat, rr: Bytes, end: nat) {
    && end <= |rr| && Keeps(table0, table)
    && (forall j: nat {:trigger rr[j..end]} :: Labels(rr, 0, j) && j < end && rr[j..end] in table0 ==> stop <= start + j + 2)
    && (end > 1 && start <= MAX_COMPRESSION_OFFSET ==> rr[..end] in table)
  }

  lemma MetEnds(table0: Table, table: Table, start: nat, stop: nat, rr: Bytes, i: nat, end: nat)
    requires Met(table0, table, start, rr, i, end) && i < end && stop <= start + i + 2
    requires (rr[i] == 0 && end == i + 1) || rr[i..end] in table
    ensures Compact(table0, table, start, stop, rr, end)
  {
    assert rr[0..end] == rr[..end];
  }

  lemma AheadOn(table0: Table, table: Table, pkt: Bytes, hole: int, rr: Bytes, start: nat, i: nat, end: nat)
    requires AllAhead(table0, rr, i, end) && i < end <= |rr| && 0 < rr[i] && Keeps(table0, table) && start > 0
    requires OpenTable(pkt, table, hole, rr, start, i, end) && (rr[i..end] in table ==> table[rr[i..end]] == 0)
    ensures AllAhead(table0, rr, i + 1 + rr[i] as int, end)
  {
    if rr[i..end] in table {
      EntryAhead(pkt, table, hole, rr, start, i, end);
      assert false;
    }
  }

  /** The entry found for the rest of the name is not one of the pending ones. */
  lemma EntryAhead(pkt: Bytes, table: Table, hole: int, rr: Bytes, start: nat, i: nat, end: nat)
    requires OpenTable(pkt, table, hole, rr, start, i, end) && i < end <= |rr| && rr[i..end] in table
    ensures GoodEntry(pkt, rr[i..end], table[rr[i..end]], hole)
  {
  }

  lemma NextLabel(pkt0: Bytes, before: Bytes, pkt: Bytes, table0: Table, table: Table, hole: int, rr: Bytes, i: nat, end: nat)
    requires Writing(pkt0, before, table0, hole, rr, i, end) && rr[i] != 0 && pkt0 != []
    requires pkt == before + rr[i..i + 1 + rr[i] as int]
    requires table == if |before| > MAX_COMPRESSION_OFFSET || rr[i..end] in table0 then table0
                      else table0[rr[i..end] := |before|]
    ensures Writing(pkt0, pkt, table, hole, rr, i + 1 + rr[i] as int, end)
  {
    var i', start := i + 1 + rr[i] as int, |pkt0|;
    LabelsOn(rr, 0, i);
    OpenTableGrows(before, pkt, table0, hole, rr, start, i, end);
    OpenTableOn(pkt, table0, hole, rr, start, i, end, table);
    assert rr[..i] + rr[i..i'] == rr[..i'];
    assert pkt0 + (rr[..i] + rr[i..i']) == pkt0 + rr[..i] + rr[i..i'];
  }

  lemma Finish(pkt0: Bytes, before: Bytes, pkt: Bytes, table: Table, hole: int, rr: Bytes, i: nat, end: nat)
    requires Writing(pkt0, before, table, hole, rr, i, end) && before <= pkt
    requires hole + 2 <= |pkt0|
    requires Spells(pkt, |before|, true, hole, rr[i..end]) && After(pkt, |before|) == Some(|pkt|)
    ensures Written(pkt0, pkt, table, hole, rr, end)
  {
    var start := |pkt0|;
    OpenTableGrows(before, pkt, table, hole, rr, start, i, end);
    assert pkt[start..start + i] == before[start..] == rr[..i];
    TableCloses(pkt, table, hole, rr, start, i, end);
    LabelsSpell(pkt, start, rr, 0, i, end, hole);
    assert rr[0..end] == rr[..end];
  }
}
