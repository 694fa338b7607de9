/** Serving a collated incremental transfer in packets, after
    `ixfr_copy_rrs_into_packet` and `query_ixfr`. */
module IxfrServe {
  import opened Names
  import opened Sequences
  import opened Wire
  import opened IxfrChain
  import opened PacketName
  import opened Compression
  import opened RdataFields
  import opened PacketRr
  import opened PacketWriter

  const QHEADERSZ: nat := 12

  /** What the proofs of the cursor need to know about bytes: how a section falls
      into records, which records can be written, which records a packet holds
      behind its header, and whether it can take more. */
  datatype Splitter = Splitter(
    split: Bytes -> seq<Bytes>, wired: Bytes -> bool, good: Bytes -> bool,
    holds: (Bytes, Bytes, seq<Bytes>) -> bool, open: (Bytes, Table) -> bool)

  lemma SplitFirst(data: Bytes)
    requires Wired(data) && data != []
    ensures var n := RrLength(data, 0);
            0 < n <= |data| && Wired(data[n..]) && Split(data) == [data[..n]] + Split(data[n..])
  {
  }

  ghost predicate AllGood(ws: seq<Bytes>, types: Types) {
    ws == [] || (GoodRr(ws[0], types) && AllGood(ws[1..], types))
  }

  /** Names the bytes whose records a proof is about to use. */
  ghost predicate Look(x: Bytes) {
    true
  }

  /** Names the packet a proof is about to use. */
  ghost predicate Open(pkt: Bytes, header: Bytes, rrs: seq<Bytes>, table: Table) {
    true
  }

  ghost predicate IsSplitter(p: Splitter, types: Types) {
    && (forall x {:trigger Look(x)} :: Look(x) ==>
          && p.split(x) == Split(x)
          && (p.wired(x) <==> Wired(x) && AllGood(Split(x), types))
          && (p.good(x) <==> GoodRr(x, types)))
    && forall pkt, header, rrs, table {:trigger Open(pkt, header, rrs, table)} :: Open(pkt, header, rrs, table) ==>
         && (p.holds(pkt, header, rrs) <==> header <= pkt && Holds(pkt, |header|, |pkt|, rrs, types))
         && (p.open(pkt, table) <==> GoodTable(pkt, table, NONE))
  }

  lemma WireSplitter(types: Types) returns (p: Splitter)
    ensures IsSplitter(p, types)
  {
    p := Splitter((x: Bytes) => Split(x), (x: Bytes) => Wired(x) && AllGood(Split(x), types), (x: Bytes) => GoodRr(x, types),
                  (pkt: Bytes, header: Bytes, rrs: seq<Bytes>) => header <= pkt && Holds(pkt, |header|, |pkt|, rrs, types),
                  (pkt: Bytes, table: Table) => GoodTable(pkt, table, NONE));
  }

  /** A finished difference: both sections end with a SOA record. */
  ghost predicate EntryOk(d: IxfrData, p: Splitter) {
    && d.newsoa != [] && d.oldsoa != [] && p.good(d.newsoa) && p.good(d.oldsoa)
    && p.wired(d.del) && p.wired(d.add) && d.add != []
  }

  ghost predicate AllOk(es: seq<IxfrData>, p: Splitter) {
    es == [] || (EntryOk(es[0], p) && AllOk(es[1..], p))
  }

  lemma {:induction false} AllOkAt(es: seq<IxfrData>, p: Splitter, i: nat)
    requires AllOk(es, p) && i < |es|
    ensures EntryOk(es[i], p)
  {
    if i > 0 {
      AllOkAt(es[1..], p, i - 1);
    }
  }

  /** Names the position a proof is about to use. */
  ghost predicate At(i: nat) {
    true
  }

  ghost predicate Follows(data: map<Serial, IxfrData>, newestSerial: Serial, es: seq<IxfrData>) {
    forall i: nat {:trigger At(i)} :: At(i) && i < |es| ==>
      NextIn(data, newestSerial, es[i]) == if i + 1 < |es| then Some(es[i + 1]) else None
  }

  /** The chain is followed from its oldest to its newest entry. */
  lemma ChainFollows(zone: ZoneIxfr)
    requires zone.Valid()
    ensures Follows(zone.data, zone.newestSerial, zone.Entries())
    ensures |zone.Entries()| == |zone.path|
    ensures zone.path != [] ==> zone.newestSerial in zone.data
    ensures zone.path != [] ==> zone.data[zone.newestSerial] == zone.Entries()[|zone.path| - 1]
  {
    CollectAt(zone.data, zone.path);
    var es := zone.Entries();
    forall i: nat {:trigger At(i)} | At(i) && i < |es|
      ensures NextIn(zone.data, zone.newestSerial, es[i]) == if i + 1 < |es| then Some(es[i + 1]) else None
    {
      zone.NextIsNext(i);
    }
  }

  ghost function BodyOf(d: IxfrData, p: Splitter): seq<Bytes> {
    p.split(d.del) + p.split(d.add)
  }

  ghost function BodiesOf(es: seq<IxfrData>, p: Splitter): seq<Bytes> {
    if es == [] then [] else BodyOf(es[0], p) + BodiesOf(es[1..], p)
  }

  /** The start of an answer packet: header, question, and the query name if it
      is to be pointed to. */
  datatype Frame = Frame(header: Bytes, qname: Bytes)

  ghost predicate GoodFrame(f: Frame) {
    && QHEADERSZ <= |f.header| <= MAX_PACKET_SIZE
    && (f.qname != [] ==>
          && SkipName(f.qname, 0) == |f.qname| && QHEADERSZ + |f.qname| <= |f.header|
          && f.header[QHEADERSZ..QHEADERSZ + |f.qname|] == f.qname)
  }

  /** The sizes that end a packet: of the buffer, of a message for the first
      record that a round of copying adds, and of an answer for the others;
      space reserved for a signature is already taken off. */
  datatype Room = Room(capacity: nat, first: nat, later: nat)

  ghost predicate GoodRoom(r: Room) {
    r.first <= MAX_PACKET_SIZE && r.later <= MAX_PACKET_SIZE
  }

  /** The record `rr` is not taken into a packet of `len` bytes. */
  ghost predicate Refused(r: Room, len: nat, rr: Bytes, added: nat) {
    || len + |rr| > r.capacity
    || len + |rr| > (if added == 0 then r.first else r.later)
    || (added > 0 && len > MAX_COMPRESSION_OFFSET)
  }

  /** It is not taken, whether or not it would be the first one of a round. */
  ghost predicate Blocked(r: Room, len: nat, rr: Bytes) {
    Refused(r, len, rr, 0) || Refused(r, len, rr, 1)
  }

  /** So many bytes are within all limits. */
  predicate Ample(r: Room, len: nat) {
    len <= r.capacity && len <= r.first && len <= r.later && len <= MAX_COMPRESSION_OFFSET
  }

  /** A packet is no longer than its records written out, and within the limits
      if it holds any. */
  ghost predicate InSize(r: Room, len: nat, header: nat, rrs: seq<Bytes>) {
    len <= header + |Flatten(rrs)| && (rrs != [] ==> len <= r.capacity && (len <= r.first || len <= r.later))
  }

  lemma InSizeSnoc(r: Room, len: nat, len': nat, header: nat, rrs: seq<Bytes>, rr: Bytes)
    requires InSize(r, len, header, rrs) && len' <= len + |rr| && len' <= r.capacity && (len' <= r.first || len' <= r.later)
    ensures InSize(r, len', header, rrs + [rr])
  {
    FlattenSnoc(rrs, rr);
  }

  /** When a record is not taken, all records together are beyond some limit. */
  lemma BlockedIsFull(r: Room, len: nat, header: nat, rrs: seq<Bytes>, rest: seq<Bytes>)
    requires InSize(r, len, header, rrs) && rest != [] && Blocked(r, len, rest[0])
    ensures !Ample(r, header + |Flatten(rrs + rest)|)
  {
    var all := rrs + rest;
    assert all[..|rrs| + 1] == rrs + [rest[0]];
    FlattenPrefix(all, |rrs| + 1);
    FlattenSnoc(rrs, rest[0]);
  }

  /** The record fits into a packet that holds nothing but its header. */
  predicate FitsAlone(r: Room, header: Bytes, rr: Bytes) {
    |header| + |rr| <= r.capacity && |header| + |rr| <= r.first
  }

  class IxfrQuery {
    const data: map<Serial, IxfrData>
    const newestSerial: Serial
    const tcp: bool
    const endData: IxfrData
    const types: Types
    const room: Room
    ghost const entries: seq<IxfrData>
    ghost const p: Splitter

    var ixfrData: IxfrData
    ghost var at: nat
    var countNewsoa: nat
    var countOldsoa: nat
    var countDel: nat
    var countAdd: nat
    var posOfNewsoa: nat
    var isDone: bool
    var tc: bool
    /** The packet being filled, its header and the records behind it. */
    var out: Packet
    ghost var header: Bytes
    ghost var packet: seq<Bytes>

    // ----- the packet

    ghost predicate Carrying()
      reads this, out
    {
      p.holds(out.bytes, header, packet) && |out.bytes| <= MAX_PACKET_SIZE && InSize(room, |out.bytes|, |header|, packet)
    }

    ghost predicate Packing()
      reads this, out
    {
      Carrying() && out.bytes != [] && p.open(out.bytes, out.table) && out.capacity == room.capacity && GoodRoom(room)
    }

    /** `ixfr_write_rr_pkt`, for a record of the store. */
    method Put(rr: Bytes, added: nat) returns (ok: bool)
      requires Packing() && IsSplitter(p, types) && p.good(rr)
      modifies this`packet, out`bytes, out`table
      ensures Carrying() && old(out.bytes) <= out.bytes
      ensures ok ==> Packing() && packet == old(packet) + [rr]
      ensures ok ==> |out.bytes| <= room.capacity && |out.bytes| <= (if added == 0 then room.first else room.later)
      ensures ok ==> added == 0 || |old(out.bytes)| <= MAX_COMPRESSION_OFFSET
      ensures !ok ==> packet == old(packet) && out.bytes == old(out.bytes) && Refused(room, |out.bytes|, rr, added)
    {
      assert Look(rr) && Open(out.bytes, header, packet, out.table);
      ok := WriteNext(out, rr, types, added == 0, if added == 0 then room.first else room.later, header, packet);
      if ok {
        InSizeSnoc(room, |old(out.bytes)|, |out.bytes|, |header|, packet, rr);
        packet := packet + [rr];
      }
      assert Open(out.bytes, header, packet, out.table);
    }

    // ----- the cursor

    /** Going through the tree follows the entries of the chain. */
    ghost predicate Anchored() {
      AllOk(entries, p) && Follows(data, newestSerial, entries)
    }

    ghost predicate Cursor()
      reads this
    {
      && at < |entries| && ixfrData == entries[at] && EntryOk(ixfrData, p) && EntryOk(endData, p)
      && (countNewsoa == 0 || countNewsoa == |endData.newsoa|)
      && (countOldsoa == 0 || countOldsoa == |ixfrData.oldsoa|)
      && countDel <= |ixfrData.del| && p.wired(ixfrData.del[countDel..])
      && countAdd <= |ixfrData.add| && p.wired(ixfrData.add[countAdd..])
      && (countOldsoa > 0 ==> countNewsoa > 0)
      && (countDel > 0 || countAdd > 0 ==> countOldsoa > 0)
      && (countAdd > 0 ==> countDel == |ixfrData.del|)
    }

    /** The records of the current difference that are still to be sent. */
    ghost function CurRest(): seq<Bytes>
      requires Cursor()
      reads this
    {
      (if countNewsoa < |endData.newsoa| then [endData.newsoa] else []) + FromOldsoa()
    }

    /** All records that are still to be sent. */
    ghost function Remaining(): seq<Bytes>
      requires Cursor()
      reads this
    {
      if isDone then [] else CurRest() + BodiesOf(entries[at + 1..], p)
    }

    /** Starts at the entry for the requested serial. */
    constructor (zone: ZoneIxfr, tcp: bool, start: IxfrData, types: Types, room: Room, ghost i: nat, ghost p: Splitter)
      requires zone.Valid() && AllOk(zone.Entries(), p) && i < |zone.Entries()| && start == zone.Entries()[i]
      ensures this.tcp == tcp && this.types == types && this.room == room
      ensures entries == zone.Entries() && this.p == p && endData == entries[|entries| - 1]
      ensures Anchored() && Cursor() && Pending() && at == i && !isDone && !tc
      ensures countNewsoa == 0 && posOfNewsoa == 0
      ensures Remaining() == [endData.newsoa, start.oldsoa] + BodiesOf(entries[i..], p)
    {
      ChainFollows(zone);
      CollectAt(zone.data, zone.path);
      data, newestSerial := zone.data, zone.newestSerial;
      this.tcp, this.types, this.room, this.p := tcp, types, room, p;
      entries := zone.Entries();
      endData := zone.data[zone.newestSerial];
      ixfrData, at := start, i;
      countNewsoa, countOldsoa, countDel, countAdd, posOfNewsoa := 0, 0, 0, 0, 0;
      isDone, tc := false, false;
      out := new Packet([0], 0);
      header, packet := [], [];
      AllOkAt(zone.Entries(), p, i);
      AllOkAt(zone.Entries(), p, |zone.path| - 1);
      StartRemaining(zone.Entries(), i, zone.data[zone.newestSerial], p);
    }

    static lemma StartRemaining(es: seq<IxfrData>, i: nat, end: IxfrData, p: Splitter)
      requires i < |es|
      ensures es[i].del[0..] == es[i].del && es[i].add[0..] == es[i].add
      ensures [end.newsoa] + ([es[i].oldsoa] + (p.split(es[i].del) + p.split(es[i].add))) + BodiesOf(es[i + 1..], p)
           == [end.newsoa, es[i].oldsoa] + BodiesOf(es[i..], p)
    {
      assert es[i..][1..] == es[i + 1..];
    }

    // ----- copying records

    /** Copies records of one section until one does not fit; `full` then. */
    method CopySection(section: Bytes, start: nat, added: nat) returns (count: nat, total: nat, full: bool)
      requires Packing() && start <= |section| && p.wired(section[start..]) && IsSplitter(p, types)
      modifies this`packet, out`bytes, out`table
      ensures Carrying() && old(out.bytes) <= out.bytes && (!full ==> Packing())
      ensures start <= count <= |section| && p.wired(section[count..])
      ensures added <= total && |packet| == |old(packet)| + total - added
      ensures old(packet) <= packet && packet + p.split(section[count..]) == old(packet) + p.split(section[start..])
      ensures full <==> count < |section|
      ensures full ==> p.split(section[count..]) != [] && Refused(room, |out.bytes|, p.split(section[count..])[0], total)
    {
      count, total, full := start, added, false;
      while count < |section|
        invariant Packing() && old(out.bytes) <= out.bytes
        invariant start <= count <= |section| && p.wired(section[count..])
        invariant added <= total && |packet| == |old(packet)| + total - added
        invariant old(packet) <= packet && packet + p.split(section[count..]) == old(packet) + p.split(section[start..])
      {
        var n;
        n := CopyOne(section, count, total, old(packet) + p.split(section[start..]));
        if n == 0 {
          return count, total, true;
        }
        count, total := count + n, total + 1;
      }
    }

    /** One record of it. */
    method CopyOne(section: Bytes, count: nat, total: nat, ghost all: seq<Bytes>) returns (n: nat)
      requires Packing() && count < |section| && p.wired(section[count..]) && IsSplitter(p, types)
      requires packet + p.split(section[count..]) == all
      modifies this`packet, out`bytes, out`table
      ensures Carrying() && old(out.bytes) <= out.bytes && old(packet) <= packet
      ensures n > 0 ==> Packing() && count + n <= |section| && p.wired(section[count + n..]) && |packet| == |old(packet)| + 1
      ensures n > 0 ==> packet + p.split(section[count + n..]) == all
      ensures n == 0 ==> packet == old(packet)
      ensures n == 0 ==> p.split(section[count..]) != [] && Refused(room, |out.bytes|, p.split(section[count..])[0], total)
    {
      n := CountRrLength(section, count);
      FirstOfSection(section, count);
      var rr := section[count..count + n];
      assert packet + ([rr] + p.split(section[count + n..])) == packet + [rr] + p.split(section[count + n..]);
      var ok := Put(rr, total);
      if !ok {
        n := 0;
      }
    }

    /** The scan finds the next record and its end. */
    lemma FirstOfSection(section: Bytes, count: nat)
      requires IsSplitter(p, types) && count < |section| && p.wired(section[count..])
      ensures var n := RrLength(section, count);
              && 0 < n <= |section| - count && p.wired(section[count + n..]) && p.good(section[count..count + n])
              && p.split(section[count..]) == [section[count..count + n]] + p.split(section[count + n..])
    {
      RrLengthFrom(section, count);
      var n := RrLength(section, count);
      var rest := section[count..];
      assert Look(rest);
      SplitFirst(rest);
      assert Look(rest) && Look(section[count + n..]) && Look(section[count..count + n]);
      assert section[count..count + n] == rest[..n] && rest[n..] == section[count + n..];
    }

    /** An empty section has no records, another one has some. */
    lemma SectionEnds(section: Bytes)
      requires IsSplitter(p, types)
      ensures section == [] ==> p.split(section) == []
      ensures section != [] && p.wired(section) ==> p.split(section) != []
    {
      assert Look(section);
    }

    /** `packet` grew by the records that `before` has and `CurRest()` lacks. */
    ghost predicate Sent(packet0: seq<Bytes>, before: seq<Bytes>)
      requires Cursor()
      reads this
    {
      packet0 <= packet && packet + CurRest() == packet0 + before
    }

    /** What follows the SOA records. */
    ghost function Sections(): seq<Bytes>
      requires Cursor()
      reads this
    {
      p.split(ixfrData.del[countDel..]) + p.split(ixfrData.add[countAdd..])
    }

    ghost function FromOldsoa(): seq<Bytes>
      requires Cursor()
      reads this
    {
      (if countOldsoa < |ixfrData.oldsoa| then [ixfrData.oldsoa] else []) + Sections()
    }

    /** The newest SOA record comes first. */
    method CopyNewsoa() returns (total: nat, full: bool)
      requires Cursor() && Packing() && IsSplitter(p, types)
      modifies this`packet, this`countNewsoa, this`posOfNewsoa, out`bytes, out`table
      ensures Carrying() && old(out.bytes) <= out.bytes && (!full ==> Packing())
      ensures Cursor() && Sent(old(packet), old(CurRest()))
      ensures FromOldsoa() == old(FromOldsoa())
      ensures full ==> packet == old(packet) && total == 0 && countNewsoa == 0 && CurRest() != [] && Refused(room, |out.bytes|, CurRest()[0], 0)
      ensures !full ==> countNewsoa == |endData.newsoa| && CurRest() == FromOldsoa()
      ensures packet == old(packet) + if old(countNewsoa) == 0 && !full then [endData.newsoa] else []
      ensures |packet| == |old(packet)| + total
      ensures posOfNewsoa == if old(countNewsoa) == 0 && !full then |out.bytes| else old(posOfNewsoa)
      ensures old(countNewsoa) == 0 && old(packet) == [] && !full ==> posOfNewsoa > 0 && SoaFirst(out.bytes, posOfNewsoa)
    {
      ghost var tail := FromOldsoa();
      assert [] + tail == tail;
      if countNewsoa >= |endData.newsoa| {
        return 0, false;
      }
      assert packet + ([endData.newsoa] + tail) == packet + [endData.newsoa] + tail;
      var ok := Put(endData.newsoa, 0);
      if !ok {
        return 0, true;
      }
      countNewsoa := |endData.newsoa|;
      posOfNewsoa := |out.bytes|;
      if old(packet) == [] {
        assert packet == [endData.newsoa];
        SoaAlone();
      }
      return 1, false;
    }

    /** Then the SOA record of the version asked for. */
    method CopyOldsoa(added: nat) returns (total: nat, full: bool)
      requires Cursor() && Packing() && IsSplitter(p, types) && countNewsoa == |endData.newsoa|
      modifies this`packet, this`countOldsoa, out`bytes, out`table
      ensures Carrying() && old(out.bytes) <= out.bytes && (!full ==> Packing())
      ensures Cursor() && Sent(old(packet), old(CurRest()))
      ensures |packet| == |old(packet)| + total - added && total >= added
      ensures full ==> countAdd == 0 && CurRest() != [] && Refused(room, |out.bytes|, CurRest()[0], total)
      ensures !full ==> countOldsoa == |ixfrData.oldsoa|
    {
      ghost var tail := Sections();
      assert [] + tail == tail && [] + FromOldsoa() == FromOldsoa();
      if countOldsoa >= |ixfrData.oldsoa| {
        return added, false;
      }
      assert packet + ([ixfrData.oldsoa] + tail) == packet + [ixfrData.oldsoa] + tail;
      var ok := Put(ixfrData.oldsoa, added);
      if !ok {
        return added, true;
      }
      countOldsoa := |ixfrData.oldsoa|;
      return added + 1, false;
    }

    /** The other records of `ixfr_copy_rrs_into_packet`. */
    method CopySections(added: nat) returns (total: nat, full: bool)
      requires Cursor() && Packing() && countNewsoa == |endData.newsoa| && countOldsoa == |ixfrData.oldsoa| && IsSplitter(p, types)
      modifies this`packet, this`countDel, this`countAdd, out`bytes, out`table
      ensures Carrying() && old(out.bytes) <= out.bytes && (!full ==> Packing())
      ensures Cursor() && Sent(old(packet), old(CurRest())) && |packet| == |old(packet)| + total - added && total >= added
      ensures full ==> CurRest() != [] && Refused(room, |out.bytes|, CurRest()[0], total)
      ensures !full ==> countAdd == |ixfrData.add|
      ensures full ==> countAdd < |ixfrData.add|
    {
      ghost var packet0 := packet;
      ghost var del0, add0 := p.split(ixfrData.del[countDel..]), p.split(ixfrData.add[countAdd..]);
      RestIs(del0, add0);
      countDel, total, full := CopySection(ixfrData.del, countDel, added);
      ghost var packet1, del1 := packet, p.split(ixfrData.del[countDel..]);
      RestIs(del1, add0);
      Regroup(packet1, del1, packet0, del0, add0);
      if full {
        assert (del1 + add0)[0] == del1[0];
        return;
      }
      assert ixfrData.del[countDel..] == [];
      SectionEnds([]);
      assert [] + add0 == add0;
      countAdd, total, full := CopySection(ixfrData.add, countAdd, total);
      ghost var add1 := p.split(ixfrData.add[countAdd..]);
      RestIs([], add1);
      assert [] + add1 == add1;
    }

    lemma RestIs(dels: seq<Bytes>, adds: seq<Bytes>)
      requires Cursor() && countNewsoa == |endData.newsoa| && countOldsoa == |ixfrData.oldsoa|
      requires dels == p.split(ixfrData.del[countDel..]) && adds == p.split(ixfrData.add[countAdd..])
      ensures CurRest() == dels + adds
    {
    }

    static lemma Regroup<T>(a: seq<T>, b: seq<T>, c: seq<T>, d: seq<T>, tail: seq<T>)
      requires a + b == c + d
      ensures a + (b + tail) == c + (d + tail)
    {
      assert a + (b + tail) == (a + b) + tail;
    }

    /** The newest SOA record alone is in the first `pos` bytes. */
    ghost predicate SoaFirst(pkt: Bytes, pos: nat)
      reads this`header
    {
      pos <= |pkt| && p.holds(pkt[..pos], header, [endData.newsoa]) && InSize(room, pos, |header|, [endData.newsoa])
    }

    lemma SoaAlone()
      requires Carrying() && packet == [endData.newsoa]
      ensures SoaFirst(out.bytes, |out.bytes|)
    {
      assert out.bytes[..|out.bytes|] == out.bytes;
    }

    lemma SoaStays(pkt: Bytes, pkt': Bytes, pos: nat)
      requires SoaFirst(pkt, pos) && pkt <= pkt'
      ensures SoaFirst(pkt', pos)
    {
      assert pkt'[..pos] == pkt[..pos];
    }

    /** What follows the newest SOA record. */
    method CopyRest(added: nat, ghost soa: bool) returns (total: nat)
      requires Cursor() && Packing() && IsSplitter(p, types) && countNewsoa == |endData.newsoa|
      requires soa ==> SoaFirst(out.bytes, posOfNewsoa)
      modifies this`packet, this`countOldsoa, this`countDel, this`countAdd, out`bytes, out`table
      ensures Carrying() && old(out.bytes) <= out.bytes && (countAdd >= |ixfrData.add| ==> Packing())
      ensures Cursor() && Sent(old(packet), old(CurRest())) && |packet| == |old(packet)| + total - added && total >= added
      ensures countAdd < |ixfrData.add| ==> CurRest() != [] && Refused(room, |out.bytes|, CurRest()[0], total)
      ensures countAdd >= |ixfrData.add| ==> CurRest() == []
      ensures soa ==> SoaFirst(out.bytes, posOfNewsoa)
    {
      ghost var before := out.bytes;
      var full;
      total, full := CopyOldsoa(added);
      if soa {
        SoaStays(before, out.bytes, posOfNewsoa);
      }
      if full {
        return;
      }
      total, full := CopySections(total);
      if soa {
        SoaStays(before, out.bytes, posOfNewsoa);
      }
      if !full {
        assert ixfrData.add[countAdd..] == [] && ixfrData.del[countDel..] == [];
        SectionEnds([]);
      }
    }

    /** `ixfr_copy_rrs_into_packet`. */
    method CopyRrs() returns (total: nat)
      requires Cursor() && Packing() && IsSplitter(p, types)
      modifies this`packet, this`countNewsoa, this`countOldsoa, this`countDel, this`countAdd, this`posOfNewsoa, out`bytes, out`table
      ensures Carrying() && old(out.bytes) <= out.bytes && (countAdd >= |ixfrData.add| ==> Packing())
      ensures Cursor() && Sent(old(packet), old(CurRest())) && |packet| == |old(packet)| + total
      ensures countAdd < |ixfrData.add| ==> CurRest() != [] && Refused(room, |out.bytes|, CurRest()[0], total)
      ensures countAdd >= |ixfrData.add| ==> CurRest() == [] && countNewsoa > 0
      ensures countNewsoa > 0 || (packet == old(packet) && posOfNewsoa == old(posOfNewsoa))
      ensures old(countNewsoa) > 0 ==> posOfNewsoa == old(posOfNewsoa)
      ensures old(countNewsoa) == 0 && countNewsoa > 0 && old(packet) == [] ==> posOfNewsoa > 0 && SoaFirst(out.bytes, posOfNewsoa)
    {
      var full;
      total, full := CopyNewsoa();
      if full {
        return;
      }
      total := CopyRest(total, old(countNewsoa) == 0 && old(packet) == []);
    }

    // ----- one packet

    /** More is to be sent from the current difference, unless done. */
    ghost predicate Pending()
      reads this
    {
      isDone || countAdd < |ixfrData.add|
    }

    /** The records from the current difference on. */
    ghost function FromHere(): seq<Bytes>
      requires Cursor()
      reads this
    {
      CurRest() + BodiesOf(entries[at + 1..], p)
    }

    /** An unfinished difference stopped at a record that was not taken. */
    ghost predicate Halted()
      requires Cursor()
      reads this, out
    {
      countAdd < |ixfrData.add| ==> CurRest() != [] && Blocked(room, |out.bytes|, CurRest()[0])
    }

    /** The packet ends with a record that was not taken, so that all records are
        too many for one packet. */
    ghost predicate Stopped(total: seq<Bytes>)
      requires Cursor()
      reads this, out
    {
      !isDone ==>
        && Remaining() != [] && Blocked(room, |out.bytes|, Remaining()[0])
        && !Ample(room, |header| + |Flatten(total)|)
    }

    lemma HaltedStops(total: seq<Bytes>)
      requires Cursor() && Pending() && Halted() && Carrying() && packet + Remaining() == total
      ensures Stopped(total) && (isDone ==> packet == total)
    {
      assert packet + [] == packet;
      if !isDone {
        assert Remaining()[0] == CurRest()[0];
        BlockedIsFull(room, |out.bytes|, |header|, packet, Remaining());
      }
    }

    lemma MoreToSend()
      requires Cursor() && IsSplitter(p, types) && countAdd < |ixfrData.add|
      ensures CurRest() != []
    {
      SectionEnds(ixfrData.add[countAdd..]);
    }

    /** Moves on to the next difference of the chain; its SOA record was the
        last record of the difference before. */
    method MoveTo(next: IxfrData)
      requires Cursor() && AllOk(entries, p) && at + 1 < |entries| && next == entries[at + 1]
      requires countAdd == |ixfrData.add| && CurRest() == [] && countNewsoa > 0
      modifies this`ixfrData, this`at, this`countOldsoa, this`countDel, this`countAdd
      ensures Cursor() && at == old(at) + 1 && FromHere() == old(FromHere())
    {
      AllOkAt(entries, p, at + 1);
      assert entries[at + 1..][1..] == entries[at + 2..];
      ixfrData, at := next, at + 1;
      countOldsoa, countDel, countAdd := |next.oldsoa|, 0, 0;
      assert next.del[0..] == next.del && next.add[0..] == next.add;
      assert CurRest() == [] + ([] + BodyOf(next, p)) == BodyOf(next, p);
    }

    /** The next difference of the chain is copied. */
    method CopyNext(next: IxfrData, ghost total: seq<Bytes>) returns (added: nat)
      requires Cursor() && Packing() && IsSplitter(p, types) && AllOk(entries, p) && at + 1 < |entries| && next == entries[at + 1]
      requires countAdd == |ixfrData.add| && CurRest() == [] && countNewsoa > 0 && packet + FromHere() == total
      modifies this`ixfrData, this`at, this`countNewsoa, this`countOldsoa, this`countDel, this`countAdd,
        this`posOfNewsoa, this`packet, out`bytes, out`table
      ensures Carrying() && old(out.bytes) <= out.bytes && (countAdd >= |ixfrData.add| ==> Packing())
      ensures Cursor() && posOfNewsoa == old(posOfNewsoa) && countNewsoa > 0 && at == old(at) + 1
      ensures old(packet) <= packet && packet + FromHere() == total && |packet| == |old(packet)| + added
      ensures countAdd >= |ixfrData.add| ==> CurRest() == []
      ensures Halted()
    {
      MoveTo(next);
      ghost var rest, bodies, before := CurRest(), BodiesOf(entries[at + 1..], p), packet;
      assert before + (rest + bodies) == total;
      added := CopyRrs();
      Regroup(packet, CurRest(), before, rest, bodies);
      assert packet + (CurRest() + bodies) == total;
    }

    /** One round of the loop of `query_ixfr`: a finished difference is
        followed by the next one, or the transfer is done. */
    method Follow(ghost total: seq<Bytes>) returns (added: nat)
      requires Anchored() && Cursor() && Packing() && IsSplitter(p, types) && !isDone && countNewsoa > 0
      requires countAdd == |ixfrData.add| && CurRest() == [] && packet + FromHere() == total
      modifies this`ixfrData, this`at, this`countNewsoa, this`countOldsoa, this`countDel, this`countAdd,
        this`posOfNewsoa, this`packet, this`isDone, out`bytes, out`table
      ensures Carrying() && old(out.bytes) <= out.bytes && (countAdd >= |ixfrData.add| ==> Packing())
      ensures Cursor() && posOfNewsoa == old(posOfNewsoa) && countNewsoa > 0
      ensures old(packet) <= packet && packet + FromHere() == total && |packet| == |old(packet)| + added
      ensures isDone ==> packet == total
      ensures !isDone ==> at == old(at) + 1
      ensures countAdd >= |ixfrData.add| ==> CurRest() == []
      ensures Halted()
    {
      assert At(at);
      var next := NextData(data, newestSerial, ixfrData);
      added := 0;
      if next.Some? {
        added := CopyNext(next.value, total);
      } else {
        assert entries[at + 1..] == [];
        assert packet + ([] + []) == packet;
        isDone := true;
      }
    }

    /** The loop of `query_ixfr` over finished differences. */
    method FollowAll(ghost total: seq<Bytes>) returns (added: nat)
      requires Anchored() && Cursor() && Carrying() && IsSplitter(p, types) && !isDone && countNewsoa > 0
      requires packet + FromHere() == total && Halted()
      requires countAdd >= |ixfrData.add| ==> CurRest() == [] && Packing()
      modifies this`ixfrData, this`at, this`countNewsoa, this`countOldsoa, this`countDel, this`countAdd,
        this`posOfNewsoa, this`packet, this`isDone, out`bytes, out`table
      ensures Carrying() && old(out.bytes) <= out.bytes
      ensures Cursor() && Pending() && posOfNewsoa == old(posOfNewsoa) && countNewsoa > 0
      ensures old(packet) <= packet && packet + Remaining() == total && |packet| == |old(packet)| + added
      ensures Halted()
    {
      added := 0;
      while !isDone && countAdd >= |ixfrData.add|
        invariant Carrying() && old(out.bytes) <= out.bytes
        invariant Cursor() && countNewsoa > 0 && posOfNewsoa == old(posOfNewsoa)
        invariant old(packet) <= packet && packet + FromHere() == total && |packet| == |old(packet)| + added
        invariant isDone ==> packet == total
        invariant Halted()
        invariant countAdd >= |ixfrData.add| ==> CurRest() == [] && Packing()
        decreases !isDone, |entries| - at
      {
        var more := Follow(total);
        added := added + more;
      }
      assert packet + [] == packet;
    }

    /** `query_ixfr`: fills one packet.  Over TCP the packet takes the next
        records off the stream.  Over UDP there is only one packet: the whole
        stream, or truncated to at most the newest SOA record.  The packet
        holds these records, whole and in order, and its count is right. */
    method NextPacket(frame: Frame) returns (ancount: nat)
      requires Anchored() && Cursor() && IsSplitter(p, types) && !isDone && !tc && Pending()
      requires GoodFrame(frame) && GoodRoom(room)
      requires !tcp ==> countNewsoa == 0 && posOfNewsoa == 0
      modifies this
      ensures fresh(out) && header == frame.header && Carrying() && ancount == |packet|
      ensures Cursor() && Pending()
      ensures tcp ==> !tc && packet + Remaining() == old(Remaining())
      ensures old(Remaining()) != []
      ensures tcp && FitsAlone(room, frame.header, old(Remaining())[0]) ==> packet != []
      ensures !tcp ==> isDone
      ensures !tcp && !tc ==> packet == old(Remaining())
      ensures !tcp && tc ==> packet == (if posOfNewsoa == 0 then [] else [endData.newsoa])
      ensures !tcp && tc && FitsAlone(room, frame.header, endData.newsoa) ==> packet == [endData.newsoa]
      ensures tcp ==> Stopped(old(Remaining()))
      ensures tc ==> !Ample(room, |frame.header| + |Flatten(old(Remaining()))|)
    {
      ancount := Fill(frame);
      if !tcp && !isDone {
        ancount := Truncate(ancount);
      }
    }

    method Fill(frame: Frame) returns (ancount: nat)
      requires Anchored() && Cursor() && IsSplitter(p, types) && !isDone && Pending()
      requires GoodFrame(frame) && GoodRoom(room)
      modifies this
      ensures fresh(out) && header == frame.header && Carrying() && ancount == |packet| && tc == old(tc)
      ensures Cursor() && Pending() && packet + Remaining() == old(Remaining()) && old(Remaining()) != []
      ensures Stopped(old(Remaining())) && (isDone ==> packet == old(Remaining()))
      ensures FitsAlone(room, frame.header, old(Remaining())[0]) ==> packet != []
      ensures old(countNewsoa) == 0 && old(posOfNewsoa) == 0 ==>
                if posOfNewsoa == 0 then packet == [] else SoaFirst(out.bytes, posOfNewsoa)
    {
      ghost var total := Remaining();
      MoreToSend();
      OpenPacket(frame);
      ancount := FillPacket(total);
    }

    /** An empty packet. */
    method OpenPacket(frame: Frame)
      requires GoodFrame(frame) && GoodRoom(room) && IsSplitter(p, types)
      modifies this`out, this`header, this`packet
      ensures fresh(out) && header == frame.header == out.bytes && packet == [] && Packing()
    {
      out := new Packet(frame.header, room.capacity);
      header, packet := frame.header, [];
      if frame.qname != [] {
        out.InsertWithLabels(frame.qname, QHEADERSZ);
      }
      assert Open(out.bytes, header, packet, out.table);
    }

    /** The answer did not fit over UDP: keep the newest SOA record only. */
    method Truncate(added: nat) returns (ancount: nat)
      requires Cursor() && Carrying() && (if posOfNewsoa == 0 then packet == [] else SoaFirst(out.bytes, posOfNewsoa)) && added == |packet|
      modifies this`tc, this`packet, this`isDone, out`bytes
      ensures Cursor() && Carrying() && tc && isDone && ancount == |packet|
      ensures packet == if posOfNewsoa == 0 then [] else [endData.newsoa]
    {
      tc, ancount := true, added;
      if posOfNewsoa != 0 {
        out.bytes := out.bytes[..posOfNewsoa];
        packet, ancount := [endData.newsoa], 1;
      }
      isDone := true;
    }

    /** The first round of copying. */
    method FillFirst(ghost total: seq<Bytes>) returns (added: nat)
      requires Cursor() && IsSplitter(p, types) && total == FromHere() && CurRest() != []
      requires Packing() && packet == [] && out.bytes == header
      modifies this`countNewsoa, this`countOldsoa, this`countDel, this`countAdd, this`posOfNewsoa, this`packet, out`bytes, out`table
      ensures Carrying() && added == |packet|
      ensures Cursor() && packet + FromHere() == total
      ensures countAdd >= |ixfrData.add| ==> CurRest() == [] && Packing() && countNewsoa > 0
      ensures Halted()
      ensures FitsAlone(room, header, old(CurRest())[0]) ==> packet != []
      ensures countNewsoa == 0 ==> packet == [] && posOfNewsoa == old(posOfNewsoa)
      ensures old(countNewsoa) == 0 && countNewsoa > 0 ==> posOfNewsoa > 0 && SoaFirst(out.bytes, posOfNewsoa)
    {
      ghost var rest, bodies := CurRest(), BodiesOf(entries[at + 1..], p);
      added := CopyRrs();
      Regroup(packet, CurRest(), [], rest, bodies);
      assert [] + total == total;
      if packet == [] {
        assert [] + rest == rest && [] + CurRest() == CurRest();
        HoldsNothing(out.bytes);
      }
    }

    lemma HoldsNothing(pkt: Bytes)
      requires IsSplitter(p, types) && p.holds(pkt, header, [])
      ensures |pkt| == |header|
    {
      assert Open(pkt, header, [], map[]);
    }

    /** Copies as much as fits. */
    method FillPacket(ghost total: seq<Bytes>) returns (ancount: nat)
      requires Anchored() && Cursor() && IsSplitter(p, types) && !isDone && Pending() && total == FromHere() && CurRest() != []
      requires Packing() && packet == [] && out.bytes == header
      modifies this`ixfrData, this`at, this`countNewsoa, this`countOldsoa, this`countDel, this`countAdd,
        this`posOfNewsoa, this`packet, this`isDone, out`bytes, out`table
      ensures Carrying() && ancount == |packet|
      ensures Cursor() && Pending() && packet + Remaining() == total && Stopped(total) && (isDone ==> packet == total)
      ensures FitsAlone(room, header, old(CurRest())[0]) ==> packet != []
      ensures old(countNewsoa) == 0 && old(posOfNewsoa) == 0 ==>
                if posOfNewsoa == 0 then packet == [] else SoaFirst(out.bytes, posOfNewsoa)
    {
      ancount := FillFirst(total);
      if countNewsoa > 0 {
        var more := FillMore(total, old(countNewsoa) == 0);
        ancount := ancount + more;
      } else {
        StillHere();
      }
      HaltedStops(total);
    }

    /** The rounds after that. */
    method FillMore(ghost total: seq<Bytes>, ghost soa: bool) returns (added: nat)
      requires Anchored() && Cursor() && Carrying() && IsSplitter(p, types) && !isDone && countNewsoa > 0
      requires packet + FromHere() == total && (soa ==> SoaFirst(out.bytes, posOfNewsoa)) && Halted()
      requires countAdd >= |ixfrData.add| ==> CurRest() == [] && Packing()
      modifies this`ixfrData, this`at, this`countNewsoa, this`countOldsoa, this`countDel, this`countAdd,
        this`posOfNewsoa, this`packet, this`isDone, out`bytes, out`table
      ensures Carrying() && |packet| == |old(packet)| + added
      ensures Cursor() && Pending() && packet + Remaining() == total && old(packet) <= packet && Halted()
      ensures posOfNewsoa == old(posOfNewsoa) && (soa ==> SoaFirst(out.bytes, posOfNewsoa))
    {
      ghost var some, pos := out.bytes, posOfNewsoa;
      added := FollowAll(total);
      if soa {
        SoaStays(some, out.bytes, pos);
      }
    }

    lemma StillHere()
      requires Cursor() && !isDone
      ensures Remaining() == FromHere()
    {
    }
  }
}
