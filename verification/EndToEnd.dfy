/** From stored differences to an updated secondary: the collated response is
    served in packets, read from their bytes, checked and applied. */
module EndToEnd {
  import opened Names
  import opened Records
  import opened Apply
  import opened Transfer
  import opened TransferResults
  import opened Applier
  import opened Wire
  import opened Sequences
  import opened IxfrChain
  import opened PacketName
  import opened RdataFields
  import opened PacketRr
  import opened Rdata
  import opened IxfrServe
  import opened XfrCheck
  import opened XfrCheckResults
  import opened Arrival

  // ----- stored form of a difference

  function EncodeRr(r: Rr, ghost form: Form): (w: Bytes)
    requires IsForm(form) && form.ok(r)
    ensures w == form.wire(r)
  {
    assert Regard(r);
    TypedGoodRr(r, form.types);
    Encode(r)
  }

  ghost predicate AllTyped(s: seq<Rr>, form: Form) {
    s == [] || (form.ok(s[0]) && AllTyped(s[1..], form))
  }

  function EncodeAll(s: seq<Rr>, ghost form: Form): (ws: seq<Bytes>)
    requires IsForm(form) && AllTyped(s, form)
    ensures |ws| == |s|
  {
    if s == [] then [] else [EncodeRr(s[0], form)] + EncodeAll(s[1..], form)
  }

  lemma EncodedIsGood(r: Rr, form: Form)
    requires IsForm(form) && form.ok(r)
    ensures IsWire(form.wire(r)) && GoodRr(form.wire(r), form.types)
  {
    assert Regard(r);
    TypedGoodRr(r, form.types);
  }

  lemma {:induction false} EncodedAreGood(s: seq<Rr>, form: Form)
    requires IsForm(form) && AllTyped(s, form)
    ensures AllWires(EncodeAll(s, form)) && AllGood(EncodeAll(s, form), form.types)
  {
    if s != [] {
      EncodedIsGood(s[0], form);
      EncodedAreGood(s[1..], form);
      assert EncodeAll(s, form)[1..] == EncodeAll(s[1..], form);
    }
  }

  lemma {:induction false} EncodedAreStored(s: seq<Rr>, form: Form)
    requires IsForm(form) && AllTyped(s, form)
    ensures StoredAll(s, EncodeAll(s, form), form)
  {
    if s != [] {
      EncodedAreStored(s[1..], form);
      assert EncodeAll(s, form)[1..] == EncodeAll(s[1..], form);
    }
  }

  lemma {:induction false} TypedConcat(a: seq<Rr>, b: seq<Rr>, form: Form)
    requires IsForm(form)
    ensures AllTyped(a + b, form) <==> AllTyped(a, form) && AllTyped(b, form)
    ensures AllTyped(a + b, form) ==> EncodeAll(a + b, form) == EncodeAll(a, form) + EncodeAll(b, form)
  {
    if a == [] {
      assert a + b == b;
    } else {
      assert (a + b)[1..] == a[1..] + b;
      TypedConcat(a[1..], b, form);
    }
  }

  ghost predicate DeltaTyped(d: Delta, form: Form) {
    && form.ok(d.oldsoa) && form.ok(d.newsoa)
    && AllTyped(d.del + [d.newsoa], form) && AllTyped(d.add + [d.newsoa], form)
    && SoaShaped(d.oldsoa.rdata) && SoaShaped(d.newsoa.rdata)
  }

  ghost predicate AllDeltas(ds: seq<Delta>, form: Form) {
    ds == [] || (DeltaTyped(ds[0], form) && AllDeltas(ds[1..], form))
  }

  /** The stored form: `ixfr_store_finish_data` has put the new SOA record
      after both sections. */
  function StoreEntry(d: Delta, ghost form: Form): IxfrData
    requires IsForm(form) && DeltaTyped(d, form)
  {
    SerialFits(d.oldsoa.rdata);
    SerialFits(d.newsoa.rdata);
    IxfrData(Records.Serial(d.oldsoa.rdata), Records.Serial(d.newsoa.rdata),
             EncodeRr(d.newsoa, form), EncodeRr(d.oldsoa, form),
             Join(EncodeAll(d.del + [d.newsoa], form)), Join(EncodeAll(d.add + [d.newsoa], form)))
  }

  function StoreAll(ds: seq<Delta>, ghost form: Form): (es: seq<IxfrData>)
    requires IsForm(form) && AllDeltas(ds, form)
    ensures |es| == |ds|
  {
    if ds == [] then [] else [StoreEntry(ds[0], form)] + StoreAll(ds[1..], form)
  }

  lemma EntryIsOk(d: Delta, p: Splitter, form: Form)
    requires DeltaTyped(d, form) && IsForm(form) && IsSplitter(p, form.types)
    ensures EntryOk(StoreEntry(d, form), p)
    ensures AllTyped(Body(d), form) && BodyOf(StoreEntry(d, form), p) == EncodeAll(Body(d), form)
  {
    var dels, adds := d.del + [d.newsoa], d.add + [d.newsoa];
    SectionIsOk(dels, p, form);
    SectionIsOk(adds, p, form);
    TypedConcat(dels, adds, form);
    SoaIsOk(d.oldsoa, p, form);
    SoaIsOk(d.newsoa, p, form);
  }

  lemma SoaIsOk(r: Rr, p: Splitter, form: Form)
    requires IsForm(form) && form.ok(r) && IsSplitter(p, form.types)
    ensures form.wire(r) != [] && p.good(form.wire(r))
  {
    EncodedIsGood(r, form);
    assert Look(form.wire(r));
  }

  lemma SectionIsOk(s: seq<Rr>, p: Splitter, form: Form)
    requires AllTyped(s, form) && s != [] && IsForm(form) && IsSplitter(p, form.types)
    ensures var section := Join(EncodeAll(s, form));
            section != [] && p.wired(section) && p.split(section) == EncodeAll(s, form)
  {
    var section := Join(EncodeAll(s, form));
    EncodedAreGood(s, form);
    SplitJoin(EncodeAll(s, form));
    assert Look(section);
    assert EncodeAll(s, form) != [] && Split([]) == [];
  }

  lemma {:induction false} BodiesEncode(ds: seq<Delta>, p: Splitter, form: Form)
    requires AllDeltas(ds, form) && IsForm(form) && IsSplitter(p, form.types)
    ensures AllOk(StoreAll(ds, form), p)
    ensures AllTyped(Bodies(ds), form) && BodiesOf(StoreAll(ds, form), p) == EncodeAll(Bodies(ds), form)
  {
    if ds != [] {
      EntryIsOk(ds[0], p, form);
      BodiesEncode(ds[1..], p, form);
      TypedConcat(Body(ds[0]), Bodies(ds[1..]), form);
      assert StoreAll(ds, form)[1..] == StoreAll(ds[1..], form);
    }
  }

  lemma {:induction false} StoreFrom(ds: seq<Delta>, i: nat, form: Form)
    requires IsForm(form) && AllDeltas(ds, form) && i <= |ds|
    ensures AllDeltas(ds[i..], form) && StoreAll(ds, form)[i..] == StoreAll(ds[i..], form)
    ensures i < |ds| ==> DeltaTyped(ds[i], form) && StoreAll(ds, form)[i] == StoreEntry(ds[i], form)
  {
    if i == 0 {
      assert ds[0..] == ds && StoreAll(ds, form)[0..] == StoreAll(ds, form);
    } else {
      StoreFrom(ds[1..], i - 1, form);
      assert ds[1..][i - 1..] == ds[i..];
      assert StoreAll(ds, form)[1..][i - 1..] == StoreAll(ds, form)[i..];
    }
  }

  /** What is served from version `i` is the wire form of the response. */
  lemma ServedIsResponse(ds: seq<Delta>, i: nat, p: Splitter, form: Form)
    requires IsForm(form) && IsSplitter(p, form.types) && AllDeltas(ds, form) && i < |ds|
    ensures AllTyped(Response(ds[i..]), form)
    ensures var es := StoreAll(ds, form);
            [es[|es| - 1].newsoa, es[i].oldsoa] + BodiesOf(es[i..], p) == EncodeAll(Response(ds[i..]), form)
  {
    var newest, oldest, bodies := ds[|ds| - 1].newsoa, ds[i].oldsoa, Bodies(ds[i..]);
    EndsStored(ds, i, form);
    TwoEncode(newest, oldest, form);
    StoreFrom(ds, i, form);
    BodiesEncode(ds[i..], p, form);
    TypedConcat([newest, oldest], bodies, form);
    ResponseFrom(ds, i);
  }

  lemma EndsStored(ds: seq<Delta>, i: nat, form: Form)
    requires IsForm(form) && AllDeltas(ds, form) && i < |ds|
    ensures var newest, oldest := ds[|ds| - 1].newsoa, ds[i].oldsoa;
            && form.ok(newest) && form.ok(oldest)
            && StoreAll(ds, form)[|ds| - 1].newsoa == EncodeRr(newest, form) && StoreAll(ds, form)[i].oldsoa == EncodeRr(oldest, form)
  {
    StoreFrom(ds, i, form);
    StoreFrom(ds, |ds| - 1, form);
  }

  lemma ResponseFrom(ds: seq<Delta>, i: nat)
    requires i < |ds|
    ensures Response(ds[i..]) == [ds[|ds| - 1].newsoa, ds[i].oldsoa] + Bodies(ds[i..])
  {
    assert ds[i..][|ds| - i - 1] == ds[|ds| - 1];
  }

  lemma TwoEncode(a: Rr, b: Rr, form: Form)
    requires IsForm(form) && form.ok(a) && form.ok(b)
    ensures AllTyped([a, b], form) && EncodeAll([a, b], form) == [EncodeRr(a, form), EncodeRr(b, form)]
  {
    OneEncode(b, form);
    assert [a, b][1..] == [b];
  }

  lemma OneEncode(r: Rr, form: Form)
    requires IsForm(form) && form.ok(r)
    ensures AllTyped([r], form) && EncodeAll([r], form) == [EncodeRr(r, form)]
  {
    var none: seq<Rr> := [];
    assert [r][1..] == none && EncodeAll(none, form) == [];
  }

  // ----- packets

  /** An answer as it is sent: where its answer section starts, and its count. */
  datatype Message = Message(header: Bytes, bytes: Bytes, ancount: nat)

  /** The message holds these records behind its header. */
  ghost predicate Carried(m: Message, rrs: seq<Bytes>, p: Splitter) {
    p.holds(m.bytes, m.header, rrs) && |m.bytes| <= MAX_PACKET_SIZE && m.ancount == |rrs|
  }

  ghost predicate AllCarried(ms: seq<Message>, packets: seq<seq<Bytes>>, p: Splitter) {
    |ms| == |packets| && forall j :: 0 <= j < |ms| ==> Carried(ms[j], packets[j], p) && packets[j] != []
  }

  /** The records of the zone behind each packet. */
  ghost predicate AllStored(parts: seq<seq<Rr>>, packets: seq<seq<Bytes>>, form: Form) {
    |parts| == |packets| && forall j :: 0 <= j < |parts| ==> StoredAll(parts[j], packets[j], form)
  }

  lemma {:induction false} StoredSplit(rs: seq<Rr>, a: seq<Bytes>, b: seq<Bytes>, form: Form)
    requires StoredAll(rs, a + b, form)
    ensures StoredAll(rs[..|a|], a, form) && StoredAll(rs[|a|..], b, form)
    decreases |a|
  {
    if a == [] {
      assert a + b == b && rs[0..] == rs && rs[..0] == [];
    } else {
      assert (a + b)[1..] == a[1..] + b && (a + b)[0] == a[0];
      StoredSplit(rs[1..], a[1..], b, form);
      assert rs[1..][..|a| - 1] == rs[..|a|][1..] && rs[1..][|a| - 1..] == rs[|a|..];
    }
  }

  /** The stream of records, cut as its wire form is cut. */
  lemma {:induction false} CutLike(rs: seq<Rr>, packets: seq<seq<Bytes>>, form: Form) returns (parts: seq<seq<Rr>>)
    requires StoredAll(rs, Flatten(packets), form)
    ensures AllStored(parts, packets, form) && Flatten(parts) == rs
    decreases |packets|
  {
    if packets == [] {
      parts := [];
    } else {
      var n := |packets[0]|;
      StoredSplit(rs, packets[0], Flatten(packets[1..]), form);
      var rest := CutLike(rs[n..], packets[1..], form);
      parts := [rs[..n]] + rest;
      assert parts[1..] == rest && rs[..n] + rs[n..] == rs;
    }
  }

  lemma CarriedRead(m: Message, rrs: seq<Bytes>, rs: seq<Rr>, p: Splitter, form: Form, read: Reader)
    requires IsForm(form) && IsSplitter(p, form.types) && Carried(m, rrs, p) && StoredAll(rs, rrs, form)
    requires IsReader(m.bytes, form.types, read)
    ensures ReadAll(read, |m.header|, m.ancount) == Some(rs) && |rs| == |rrs| <= MAX_ANCOUNT
  {
    assert Open(m.bytes, m.header, rrs, map[]);
    HoldsRead(m.bytes, |m.header|, |m.bytes|, rrs, rs, form, read);
    HoldsCount(m.bytes, |m.header|, |m.bytes|, rrs, form.types);
  }

  /** The secondary reads a message: the records of the zone that were sent. */
  method ReadMessage(m: Message, types: Types, ghost rrs: seq<Bytes>, ghost rs: seq<Rr>, ghost p: Splitter, ghost form: Form)
    returns (part: seq<Rr>)
    requires IsForm(form) && form.types == types && IsSplitter(p, types) && Carried(m, rrs, p) && StoredAll(rs, rrs, form)
    ensures part == rs && |part| == |rrs| <= MAX_ANCOUNT
  {
    ghost var read := PacketReader(m.bytes, types);
    CarriedRead(m, rrs, rs, p, form, read);
    var r := ReadAnswers(m.bytes, |m.header|, m.ancount, types, read);
    part := r.value;
  }

  /** All messages of a transfer. */
  method ReadMessages(ms: seq<Message>, types: Types, ghost packets: seq<seq<Bytes>>, ghost sent: seq<seq<Rr>>, ghost p: Splitter, ghost form: Form)
    returns (parts: seq<seq<Rr>>)
    requires IsForm(form) && form.types == types && IsSplitter(p, types)
    requires AllCarried(ms, packets, p) && AllStored(sent, packets, form)
    ensures parts == sent
    ensures forall j :: 0 <= j < |parts| ==> 0 < |parts[j]| <= MAX_ANCOUNT
  {
    parts := [];
    var i := 0;
    while i < |ms|
      invariant 0 <= i <= |ms| && parts == sent[..i]
      invariant forall j :: 0 <= j < i ==> 0 < |parts[j]| <= MAX_ANCOUNT
    {
      var part := ReadMessage(ms[i], types, packets[i], sent[i], p, form);
      parts := parts + [part];
      i := i + 1;
    }
  }

  // ----- the server

  datatype Answer = CurrentSoa | FallBackToAxfr | Incremental

  /** The start of `query_ixfr`: a requester that is not behind gets the
      current SOA record; history is used exactly when it starts at the
      requested serial and ends at the current one. */
  method Begin(zone: ZoneIxfr?, qserial: IxfrChain.Serial, currentSerial: IxfrChain.Serial, tcp: bool,
               types: Types, room: Room, ghost p: Splitter)
    returns (a: Answer, q: IxfrQuery?, ghost i: nat)
    requires zone != null ==> zone.Valid() && AllOk(zone.Entries(), p)
    ensures a == CurrentSoa <==> !(0 < Ahead(qserial, currentSerial) < 0x8000_0000)
    ensures a == Incremental <==>
            && 0 < Ahead(qserial, currentSerial) < 0x8000_0000
            && zone != null && qserial in zone.data && zone.path != [] && zone.EndSerial() == currentSerial
    ensures a == Incremental ==>
            && zone != null && q != null && fresh(q) && q.tcp == tcp && q.p == p && q.types == types && q.room == room
            && i < |zone.path| && zone.path[i] == qserial
            && i < |zone.Entries()| && q.Anchored() && q.Cursor() && q.Pending() && !q.isDone && !q.tc
            && q.countNewsoa == 0 && q.posOfNewsoa == 0
            && var es := zone.Entries();
            && q.endData == es[|es| - 1]
            && q.Remaining() == [es[|es| - 1].newsoa, es[i].oldsoa] + BodiesOf(es[i..], p)
  {
    q, i := null, 0;
    CompareIs(qserial, currentSerial);
    if CompareSerial(qserial, currentSerial) >= 0 {
      return CurrentSoa, null, 0;
    }
    if zone == null || qserial !in zone.data {
      return FallBackToAxfr, null, 0;
    }
    ChainLinked(zone.data, zone.path);
    assert qserial in Elements(zone.path);
    i :| 0 <= i < |zone.path| && zone.path[i] == qserial;
    var start := zone.data[qserial];
    var connected, endSerial := zone.Connect(start, i);
    if !connected || endSerial != currentSerial {
      return FallBackToAxfr, null, 0;
    }
    CollectAt(zone.data, zone.path);
    q := new IxfrQuery(zone, tcp, start, types, room, i, p);
    a := Incremental;
  }

  /** Records of at most `limit` bytes. */
  ghost predicate AllShort(ws: seq<Bytes>, limit: nat) {
    forall k :: 0 <= k < |ws| ==> |ws[k]| <= limit
  }

  /** Every packet has room for a record of `limit` bytes behind its header. */
  ghost predicate RoomFor(frames: nat -> Frame, room: Room, limit: nat) {
    GoodRoom(room) &&
    forall n :: GoodFrame(frames(n)) && |frames(n).header| + limit <= room.capacity && |frames(n).header| + limit <= room.first
  }

  /** One call of `query_ixfr` over TCP takes a packet off the stream. */
  method ServeOne(q: IxfrQuery, frame: Frame, ghost sofar: seq<Bytes>) returns (m: Message)
    requires q.tcp && q.Anchored() && q.Cursor() && IsSplitter(q.p, q.types) && q.Pending() && !q.isDone && !q.tc
    requires GoodFrame(frame) && GoodRoom(q.room)
    requires q.Remaining() != [] ==> FitsAlone(q.room, frame.header, q.Remaining()[0])
    modifies q
    ensures q.Cursor() && q.Pending() && !q.tc && q.packet != [] && Carried(m, q.packet, q.p)
    ensures |q.Remaining()| < old(|q.Remaining()|) && q.packet + q.Remaining() == old(q.Remaining())
    ensures (sofar + q.packet) + q.Remaining() == sofar + old(q.Remaining())
  {
    var ancount := q.NextPacket(frame);
    assert sofar + (q.packet + q.Remaining()) == (sofar + q.packet) + q.Remaining();
    m := Message(frame.header, q.out.bytes, ancount);
  }

  lemma ShortSuffix(a: seq<Bytes>, b: seq<Bytes>, limit: nat)
    requires AllShort(a + b, limit)
    ensures AllShort(b, limit)
  {
    assert forall k :: 0 <= k < |b| ==> b[k] == (a + b)[|a| + k];
  }

  /** The packets so far and what is still to be sent make up the stream. */
  ghost predicate Serving(q: IxfrQuery, ms: seq<Message>, packets: seq<seq<Bytes>>, total: seq<Bytes>, limit: nat)
    reads q
  {
    && q.Cursor() && q.Pending() && !q.tc && AllShort(q.Remaining(), limit)
    && Flatten(packets) + q.Remaining() == total && AllCarried(ms, packets, q.p) && (ms == [] ==> !q.isDone)
  }

  /** One more packet. */
  method ServeNext(q: IxfrQuery, frame: Frame, ms: seq<Message>, ghost packets: seq<seq<Bytes>>, ghost total: seq<Bytes>, ghost limit: nat)
    returns (ms': seq<Message>, ghost packets': seq<seq<Bytes>>)
    requires q.tcp && q.Anchored() && IsSplitter(q.p, q.types) && Serving(q, ms, packets, total, limit) && !q.isDone
    requires GoodFrame(frame) && GoodRoom(q.room)
    requires |frame.header| + limit <= q.room.capacity && |frame.header| + limit <= q.room.first
    modifies q
    ensures Serving(q, ms', packets', total, limit) && |q.Remaining()| < old(|q.Remaining()|) && |ms'| == |ms| + 1
  {
    var m := ServeOne(q, frame, Flatten(packets));
    ShortSuffix(q.packet, q.Remaining(), limit);
    FlattenSnoc(packets, q.packet);
    ms', packets' := ms + [m], packets + [q.packet];
  }

  /** Calls `query_ixfr` until the transfer is done: the packets together are
      the whole stream, and none is empty. */
  method ServeAll(q: IxfrQuery, frames: nat -> Frame, ghost limit: nat) returns (ms: seq<Message>, ghost packets: seq<seq<Bytes>>)
    requires q.tcp && q.Anchored() && q.Cursor() && IsSplitter(q.p, q.types) && q.Pending() && !q.isDone && !q.tc
    requires RoomFor(frames, q.room, limit) && AllShort(q.Remaining(), limit)
    modifies q
    ensures Flatten(packets) == old(q.Remaining()) && q.isDone
    ensures ms != [] && AllCarried(ms, packets, q.p)
  {
    ms, packets := [], [];
    ghost var total := q.Remaining();
    assert [] + total == total;
    while !q.isDone
      invariant Serving(q, ms, packets, total, limit)
      decreases !q.isDone, |q.Remaining()|
    {
      assert GoodFrame(frames(|ms|));
      ms, packets := ServeNext(q, frames(|ms|), ms, packets, total, limit);
    }
    assert Flatten(packets) + [] == Flatten(packets);
  }

  /** From its entry at `i` on, which starts at the requested serial, the store
      holds this stream, and it ends at the current serial. */
  ghost predicate Streams(zone: ZoneIxfr, qserial: IxfrChain.Serial, currentSerial: IxfrChain.Serial, i: nat, p: Splitter, types: Types,
                          stream: seq<Bytes>)
    reads zone
  {
    && zone.Valid() && IsSplitter(p, types) && AllOk(zone.Entries(), p)
    && i < |zone.path| && zone.path[i] == qserial && qserial in zone.data && zone.EndSerial() == currentSerial
    && (forall k :: 0 <= k < |zone.path| && zone.path[k] == zone.path[i] ==> k == i)
    && i < |zone.Entries()|
    && var es := zone.Entries();
       stream == [es[|es| - 1].newsoa, es[i].oldsoa] + BodiesOf(es[i..], p)
  }

  /** Over TCP, from the entry for the requested serial to the end. */
  method ServeVersion(zone: ZoneIxfr, qserial: IxfrChain.Serial, currentSerial: IxfrChain.Serial, frames: nat -> Frame,
                      types: Types, room: Room, ghost limit: nat, ghost i: nat, ghost p: Splitter, ghost stream: seq<Bytes>)
    returns (ms: seq<Message>, ghost packets: seq<seq<Bytes>>)
    requires Streams(zone, qserial, currentSerial, i, p, types, stream)
    requires 0 < Ahead(qserial, currentSerial) < 0x8000_0000
    requires RoomFor(frames, room, limit) && AllShort(stream, limit)
    ensures Flatten(packets) == stream && ms != [] && AllCarried(ms, packets, p)
  {
    var a, q, k := Begin(zone, qserial, currentSerial, true, types, room, p);
    ms, packets := ServeAll(q, frames, limit);
  }

  /** The store holds the differences of the versions `vs`. */
  ghost predicate Tracks(zone: ZoneIxfr, apex: Name, vs: seq<set<Rr>>, soas: seq<Rr>, ds: seq<Delta>, form: Form)
    reads zone
  {
    IsForm(form) && History(apex, vs, soas, ds) && AllDeltas(ds, form) && zone.Valid() && zone.Entries() == StoreAll(ds, form)
  }

  /** The secondary holds version `c`, and its daemon is about to ask for what
      is newer. */
  ghost predicate Holds(secondary: ZoneInMemory, xfrd: XfrdZone, c: set<Rr>, soa: Rr, serial: nat)
    reads secondary, xfrd
  {
    && Apply.Valid(secondary.rrsets) && Contents(secondary.rrsets) == c
    && secondary.State() == Start(secondary.rrsets)
    && SoaShaped(soa.rdata) && serial == Records.Serial(soa.rdata)
    && xfrd.Fresh() && xfrd.apex == secondary.apex && xfrd.disk == Some(serial)
  }

  /** The server holds the history as stored differences, the secondary holds
      version `i` and its daemon is about to ask for what is newer, and a packet
      has room for each record of the response. */
  ghost predicate Ready(zone: ZoneIxfr, secondary: ZoneInMemory, xfrd: XfrdZone, frames: nat -> Frame, types: Types, room: Room,
                        limit: nat, form: Form, vs: seq<set<Rr>>, soas: seq<Rr>, ds: seq<Delta>, i: nat,
                        qserial: IxfrChain.Serial, currentSerial: IxfrChain.Serial)
    reads zone, secondary, xfrd
  {
    && Tracks(zone, secondary.apex, vs, soas, ds, form) && form.types == types && i < |ds|
    && Holds(secondary, xfrd, vs[i], soas[i], qserial)
    && SoaShaped(soas[|ds|].rdata) && currentSerial == Records.Serial(soas[|ds|].rdata)
    && 0 < Ahead(qserial, currentSerial) < 0x8000_0000
    && RoomFor(frames, room, limit) && AllTyped(Response(ds[i..]), form) && AllShort(EncodeAll(Response(ds[i..]), form), limit)
  }

  /** What an exchange does to a secondary at version `i` in state `before`: the
      transfer is complete exactly when its packets pass the check, and then the
      secondary holds version `m`, the first later one with the newest serial;
      otherwise it is left as it was.  With steady serials it is complete, in
      every cut, and leads to the newest version. */
  ghost predicate Exchanged(secondary: ZoneInMemory, before: Xfr, vs: seq<set<Rr>>, soas: seq<Rr>, ds: seq<Delta>, i: nat,
                            parts: seq<seq<Rr>>, m: nat, complete: bool, ret: int)
    reads secondary
  {
    && |vs| == |soas| == |ds| + 1 && i < |ds| && FirstNewest(soas, i, m) && Flatten(parts) == Response(ds[i..])
    && (complete <==> Passes(parts, LengthTo(ds[i..], m - i), SerialOf(soas[|ds|])))
    && (complete ==> ret == 1 && !secondary.softfail && Contents(secondary.rrsets) == vs[m])
    && (!complete ==> secondary.State() == before)
    && (Steady(Serials(soas[i..])) ==> complete && m == |ds|)
  }

  /** One whole exchange over TCP: the server streams the stored differences into
      packets, the secondary asks, checks the transfer packet by packet and
      applies it when it is complete. */
  method Exchange(zone: ZoneIxfr, secondary: ZoneInMemory, xfrd: XfrdZone, frames: nat -> Frame, types: Types, room: Room,
                  ghost limit: nat, ghost form: Form,
                  ghost vs: seq<set<Rr>>, ghost soas: seq<Rr>, ghost ds: seq<Delta>, ghost i: nat,
                  qserial: IxfrChain.Serial, currentSerial: IxfrChain.Serial)
    returns (complete: bool, ret: int, ms: seq<Message>, ghost parts: seq<seq<Rr>>, ghost m: nat)
    requires Ready(zone, secondary, xfrd, frames, types, room, limit, form, vs, soas, ds, i, qserial, currentSerial)
    modifies secondary, xfrd
    ensures |parts| == |ms|
    ensures Exchanged(secondary, old(secondary.State()), vs, soas, ds, i, parts, m, complete, ret)
    ensures xfrd.disk == Some(if complete then currentSerial else qserial)
  {
    ghost var packets, p;
    ms, packets, p := Serve(zone, frames, types, room, limit, form, vs, soas, ds, i, qserial, currentSerial, secondary.apex);
    AsksFor(secondary, xfrd, vs, soas, ds, i);
    ghost var k, z := xfrd.Knows(), secondary.rrsets;
    complete, ret, parts := Receive(secondary, xfrd, ms, types, packets, p, form, Response(ds[i..]));
    m := ResponseArrives(z, secondary.apex, vs, soas, ds, i, k, parts);
  }

  lemma SerialsCompare(a: Rr, b: Rr)
    requires 0 < Ahead(SerialOf(a), SerialOf(b)) < 0x8000_0000
    ensures SerialOf(a) != SerialOf(b) && CompareSerial(SerialOf(b), SerialOf(a)) >= 0
  {
    CompareIs(SerialOf(b), SerialOf(a));
    CompareIs(SerialOf(a), SerialOf(b));
  }

  lemma AsksFor(secondary: ZoneInMemory, xfrd: XfrdZone, vs: seq<set<Rr>>, soas: seq<Rr>, ds: seq<Delta>, i: nat)
    requires History(secondary.apex, vs, soas, ds) && i < |ds|
    requires Apply.Valid(secondary.rrsets) && Contents(secondary.rrsets) == vs[i]
    requires xfrd.apex == secondary.apex && xfrd.disk == Some(SerialOf(soas[i]))
    requires 0 < Ahead(SerialOf(soas[i]), SerialOf(soas[|ds|])) < 0x8000_0000
    ensures Asks(xfrd.Knows(), secondary.apex, soas[i..]) && !secondary.BadSerial(SerialOf(soas[i]))
  {
    assert IsZone(vs[i], secondary.apex, soas[i]);
    SoaInMemory(secondary, vs[i], soas[i]);
    SerialsCompare(soas[i], soas[|ds|]);
    assert soas[i..][0] == soas[i] && soas[i..][|ds| - i] == soas[|ds|];
  }

  /** The SOA record of the zone is the one that the serial test looks at: a
      file for any other serial is not applied. */
  lemma SoaInMemory(secondary: ZoneInMemory, c: set<Rr>, soa: Rr)
    requires Apply.Valid(secondary.rrsets) && Contents(secondary.rrsets) == c && IsZone(c, secondary.apex, soa)
    ensures forall s: nat :: secondary.BadSerial(s) <==> s != 0 && s != SerialOf(soa)
  {
    assert soa in Contents(secondary.rrsets);
    var key := (secondary.apex, TYPE_SOA);
    if key in secondary.rrsets {
      var r := secondary.rrsets[key][0];
      assert ValidRrset(key, secondary.rrsets[key]);
      InContents(secondary.rrsets, r);
    }
  }

  /** The server's side: the messages carry the response for version `i`. */
  method Serve(zone: ZoneIxfr, frames: nat -> Frame, types: Types, room: Room, ghost limit: nat, ghost form: Form,
               ghost vs: seq<set<Rr>>, ghost soas: seq<Rr>, ghost ds: seq<Delta>, ghost i: nat,
               qserial: IxfrChain.Serial, currentSerial: IxfrChain.Serial, ghost apex: Name)
    returns (ms: seq<Message>, ghost packets: seq<seq<Bytes>>, ghost p: Splitter)
    requires IsForm(form) && form.types == types && History(apex, vs, soas, ds) && AllDeltas(ds, form) && i < |ds|
    requires zone.Valid() && zone.Entries() == StoreAll(ds, form)
    requires SoaShaped(soas[i].rdata) && qserial == Records.Serial(soas[i].rdata)
    requires SoaShaped(soas[|ds|].rdata) && currentSerial == Records.Serial(soas[|ds|].rdata)
    requires 0 < Ahead(qserial, currentSerial) < 0x8000_0000
    requires RoomFor(frames, room, limit) && AllTyped(Response(ds[i..]), form)
    requires AllShort(EncodeAll(Response(ds[i..]), form), limit)
    ensures IsSplitter(p, types) && AllCarried(ms, packets, p) && Flatten(packets) == EncodeAll(Response(ds[i..]), form)
  {
    p := WireSplitter(types);
    ResponseStreams(zone, vs, soas, ds, i, qserial, currentSerial, apex, p, form);
    ms, packets := ServeVersion(zone, qserial, currentSerial, frames, types, room, limit, i, p, EncodeAll(Response(ds[i..]), form));
  }

  lemma ResponseStreams(zone: ZoneIxfr, vs: seq<set<Rr>>, soas: seq<Rr>, ds: seq<Delta>, i: nat,
                        qserial: IxfrChain.Serial, currentSerial: IxfrChain.Serial, apex: Name, p: Splitter, form: Form)
    requires IsForm(form) && IsSplitter(p, form.types) && History(apex, vs, soas, ds) && AllDeltas(ds, form) && i < |ds|
    requires zone.Valid() && zone.Entries() == StoreAll(ds, form)
    requires SoaShaped(soas[i].rdata) && qserial == Records.Serial(soas[i].rdata)
    requires SoaShaped(soas[|ds|].rdata) && currentSerial == Records.Serial(soas[|ds|].rdata)
    ensures AllTyped(Response(ds[i..]), form)
    ensures Streams(zone, qserial, currentSerial, i, p, form.types, EncodeAll(Response(ds[i..]), form))
  {
    VersionSoas(apex, vs, soas, ds, i);
    StoredSerials(zone, ds, i, soas[i], soas[|ds|], form);
    BodiesEncode(ds, p, form);
    ServedIsResponse(ds, i, p, form);
  }

  /** The secondary's side: the messages are read and checked, and those of a
      complete transfer are applied. */
  method Receive(secondary: ZoneInMemory, xfrd: XfrdZone, ms: seq<Message>, types: Types, ghost packets: seq<seq<Bytes>>, ghost p: Splitter,
                 ghost form: Form, ghost rs: seq<Rr>) returns (complete: bool, ret: int, ghost parts: seq<seq<Rr>>)
    requires IsForm(form) && form.types == types && IsSplitter(p, types) && AllCarried(ms, packets, p)
    requires AllTyped(rs, form) && Flatten(packets) == EncodeAll(rs, form)
    requires secondary.State() == Start(secondary.rrsets)
    requires xfrd.Fresh() && xfrd.disk.Some? && !secondary.BadSerial(xfrd.disk.value)
    modifies secondary, xfrd
    ensures |parts| == |ms| && Flatten(parts) == rs && forall j :: 0 <= j < |parts| ==> 0 < |parts[j]| <= MAX_ANCOUNT
    ensures var n := TakePackets(Nothing(), parts, old(xfrd.Knows()));
            && complete == n.Some?
            && if !complete then secondary.State() == old(secondary.State()) && xfrd.disk == old(xfrd.disk)
               else
                 && xfrd.disk == Some(SerialOf(parts[0][0]))
                 && var o := RunParts(old(secondary.State()), parts[..n.value], Goal(secondary.apex, SerialOf(parts[0][0])));
                    secondary.State() == o.x && ret == if o.Failed? || (o.x.softfail && !o.x.isAxfr) then -1 else 1
  {
    EncodedAreStored(rs, form);
    ghost var sent := CutLike(rs, packets, form);
    var read := ReadMessages(ms, types, packets, sent, p, form);
    parts := read;
    ret := 0;
    complete := xfrd.Receive(read);
    if complete {
      ret := secondary.ApplyForZone(xfrd.file, xfrd.msgOldSerial, xfrd.msgNewSerial);
    }
  }

  /** The chain holds the serials of the versions. */
  lemma StoredSerials(zone: ZoneIxfr, ds: seq<Delta>, i: nat, a: Rr, b: Rr, form: Form)
    requires IsForm(form) && AllDeltas(ds, form) && i < |ds| && zone.Valid() && zone.Entries() == StoreAll(ds, form)
    requires ds[i].oldsoa == a && SoaShaped(a.rdata) && ds[|ds| - 1].newsoa == b && SoaShaped(b.rdata)
    ensures |zone.path| == |ds| && zone.path[i] == Records.Serial(a.rdata) && zone.path[i] in zone.data
    ensures zone.EndSerial() == Records.Serial(b.rdata)
    ensures forall k :: 0 <= k < |zone.path| && zone.path[k] == zone.path[i] ==> k == i
  {
    SerialsIn(zone.data, zone.path, zone.Entries(), ds, i, a, b, form);
  }

  lemma VersionSoas(apex: Name, vs: seq<set<Rr>>, soas: seq<Rr>, ds: seq<Delta>, i: nat)
    requires History(apex, vs, soas, ds) && i < |ds|
    ensures ds[i].oldsoa == soas[i] && SoaShaped(soas[i].rdata)
    ensures ds[|ds| - 1].newsoa == soas[|ds|] && SoaShaped(soas[|ds|].rdata)
  {
    assert IsZone(vs[i], apex, soas[i]) && IsZone(vs[|ds|], apex, soas[|ds|]);
  }

  lemma SerialsIn(data: map<IxfrChain.Serial, IxfrData>, path: seq<IxfrChain.Serial>, es: seq<IxfrData>,
                  ds: seq<Delta>, i: nat, a: Rr, b: Rr, form: Form)
    requires Chain(data, path) && es == Collect(data, path) && IsForm(form) && AllDeltas(ds, form) && es == StoreAll(ds, form) && i < |ds|
    requires ds[i].oldsoa == a && SoaShaped(a.rdata) && ds[|ds| - 1].newsoa == b && SoaShaped(b.rdata)
    ensures |path| == |ds| && path[i] in data && path[i] == Records.Serial(a.rdata)
    ensures path[|ds| - 1] in data && data[path[|ds| - 1]].newserial == Records.Serial(b.rdata)
    ensures forall k :: 0 <= k < |path| && path[k] == path[i] ==> k == i
  {
    EntryAt(data, path, es, i);
    EntryAt(data, path, es, |ds| - 1);
    StoredOld(ds, i, a, form);
    StoredNew(ds, |ds| - 1, b, form);
  }

  lemma EntryAt(data: map<IxfrChain.Serial, IxfrData>, path: seq<IxfrChain.Serial>, es: seq<IxfrData>, i: nat)
    requires Chain(data, path) && es == Collect(data, path) && i < |es|
    ensures |es| == |path| && path[i] in data && es[i] == data[path[i]] && es[i].oldserial == path[i]
    ensures forall k :: 0 <= k < |path| && path[k] == path[i] ==> k == i
  {
    CollectAt(data, path);
    ChainLinked(data, path);
  }

  lemma StoredOld(ds: seq<Delta>, i: nat, soa: Rr, form: Form)
    requires IsForm(form) && AllDeltas(ds, form) && i < |ds| && soa == ds[i].oldsoa && SoaShaped(soa.rdata)
    ensures StoreAll(ds, form)[i].oldserial == Records.Serial(soa.rdata)
  {
    StoreFrom(ds, i, form);
  }

  lemma StoredNew(ds: seq<Delta>, i: nat, soa: Rr, form: Form)
    requires IsForm(form) && AllDeltas(ds, form) && i < |ds| && soa == ds[i].newsoa && SoaShaped(soa.rdata)
    ensures StoreAll(ds, form)[i].newserial == Records.Serial(soa.rdata)
  {
    StoreFrom(ds, i, form);
  }
}
