/** What the transfer daemon accepts: the packets of a reply are checked one by
    one as they arrive, and are handed on to be applied only when the packet
    with the closing SOA record has come. */
module XfrCheck {
  import opened Names
  import opened Sequences
  import opened Records
  import opened Transfer
  import IxfrChain

  /** What is known of the zone: its apex, the serial on disk, and whether the
      zone has expired. */
  datatype Known = Known(apex: Name, disk: Option<nat>, expired: bool)

  /** What is kept from record to record.  The first four fields stay from
      packet to packet. */
  datatype Watch = Watch(rrCount: nat, newSerial: nat, oldSerial: nat, isIxfr: nat, tmpSerial: nat, done: bool)

  datatype Verdict = Bad | NewLease | More | Complete

  predicate GoodSoa(r: Rr) {
    IsSoa(r) && r.klass == CLASS_IN && SoaShaped(r.rdata)
  }

  /** The SOA record of the zone, as the first record has to be. */
  predicate OwnSoa(r: Rr, apex: Name) {
    r.owner == apex && r.typ == TYPE_SOA && r.klass == CLASS_IN && SoaShaped(r.rdata)
  }

  /** A SOA record behind the first: it shows an incremental transfer, is one
      more of the newest serial, or is one in the middle. */
  function SeeSoa(x: Watch, s: nat, disk: Option<nat>): Option<Watch> {
    if x.rrCount == 1 && s != x.newSerial then
      if disk == Some(s) then Some(x.(isIxfr := 1, oldSerial := s, tmpSerial := s)) else None
    else if s == x.newSerial then
      Some(if x.isIxfr == 1 then x.(isIxfr := 2) else x.(done := true))
    else if x.isIxfr != 0 then
      if s > x.newSerial || s < x.tmpSerial then None else Some(x.(tmpSerial := s))
    else Some(x)
  }

  /** One record of the loop in `xfrd_xfr_check_rrs`. */
  function See(x: Watch, r: Rr, disk: Option<nat>): Option<Watch> {
    if x.done || (IsSoa(r) && !GoodSoa(r)) then None
    else
      match if IsSoa(r) then SeeSoa(x, Serial(r.rdata), disk) else Some(x)
      case None => None
      case Some(y) => Some(y.(rrCount := x.rrCount + 1))
  }

  function SeeAll(x: Watch, rs: seq<Rr>, disk: Option<nat>): Option<Watch>
    decreases |rs|
  {
    if rs == [] then Some(x)
    else
      match See(x, rs[0], disk)
      case None => None
      case Some(y) => SeeAll(y, rs[1..], disk)
  }

  /** The first record of all, which names the serial that is offered. */
  function SeeFirst(r: Rr, k: Known): (Verdict, Watch) {
    if r.owner != k.apex || !GoodSoa(r) then (Bad, Nothing())
    else
      var s := Serial(r.rdata);
      if k.disk.Some? && !k.expired && IxfrChain.CompareSerial(s, k.disk.value) < 0 then (Bad, Nothing())
      else if k.disk == Some(s) then (NewLease, Nothing())
      else (More, Watch(1, s, if k.disk.Some? then k.disk.value else 0, 0, 0, false))
  }

  function Nothing(): Watch {
    Watch(0, 0, 0, 0, 0, false)
  }

  function SeeRest(x: Watch, rs: seq<Rr>, disk: Option<nat>): (Verdict, Watch) {
    match SeeAll(x.(tmpSerial := 0, done := false), rs, disk)
    case None => (Bad, x)
    case Some(y) => (if y.done then Complete else More, y)
  }

  /** `xfrd_parse_received_xfr_packet` over TCP, from the record count on. */
  function CheckPacket(x: Watch, part: seq<Rr>, k: Known): (Verdict, Watch) {
    if |part| > MAX_ANCOUNT || (x.rrCount == 0 && part == []) then (Bad, x)
    else if x.rrCount == 0 then
      var first := SeeFirst(part[0], k);
      if first.0 == More then SeeRest(first.1, part[1..], k.disk) else (first.0, x)
    else SeeRest(x, part, k.disk)
  }

  /** The number of packets that make up the transfer, if it is completed. */
  function TakePackets(x: Watch, parts: seq<seq<Rr>>, k: Known): (n: Option<nat>)
    ensures n.Some? ==> 0 < n.value <= |parts|
    decreases |parts|
  {
    if parts == [] then None
    else
      var (v, y) := CheckPacket(x, parts[0], k);
      match v
      case Complete => Some(1)
      case More => (match TakePackets(y, parts[1..], k) case None => None case Some(n) => Some(n + 1))
      case _ => None
  }

  /** The serials of a transfer do not change in its course. */
  lemma {:induction false} SerialsStay(x: Watch, rs: seq<Rr>, disk: Option<nat>)
    ensures var o := SeeAll(x, rs, disk);
            o.Some? ==> && o.value.newSerial == x.newSerial && o.value.rrCount == x.rrCount + |rs|
                        && (disk == Some(x.oldSerial) ==> o.value.oldSerial == x.oldSerial)
    decreases |rs|
  {
    if rs != [] && See(x, rs[0], disk).Some? {
      SerialsStay(See(x, rs[0], disk).value, rs[1..], disk);
    }
  }

  /** The offer: the serial of the first record, on top of the one on disk. */
  ghost predicate Offered(x: Watch, first: Rr, disk: Option<nat>) {
    && x.rrCount > 0 && GoodSoa(first) && x.newSerial == Serial(first.rdata)
    && (disk.Some? ==> x.oldSerial == disk.value)
  }

  lemma OfferStays(x: Watch, part: seq<Rr>, first: Rr, k: Known)
    requires x.rrCount == 0 && part != [] ==> first == part[0]
    requires x.rrCount > 0 ==> Offered(x, first, k.disk)
    ensures var o := CheckPacket(x, part, k);
            o.0 == More || o.0 == Complete ==> Offered(o.1, first, k.disk)
  {
    if x.rrCount > 0 {
      SerialsStay(x.(tmpSerial := 0, done := false), part, k.disk);
    } else if part != [] && SeeFirst(part[0], k).0 == More {
      SerialsStay(SeeFirst(part[0], k).1, part[1..], k.disk);
    }
  }

  /** What a packet says by its first record, when the transfer starts: the serial
      on disk renews the lease, and what is no SOA record of the zone, or is
      older while the zone has not expired, is refused.  A packet without
      records, or with too many, is refused too. */
  ghost predicate Greeted(v: Verdict, part: seq<Rr>, k: Known) {
    if part == [] || |part| > MAX_ANCOUNT then v == Bad
    else
      var s := SerialOf(part[0]);
      && (v == NewLease <==> OwnSoa(part[0], k.apex) && k.disk == Some(s))
      && (!OwnSoa(part[0], k.apex) ==> v == Bad)
      && (k.disk.Some? && !k.expired && IxfrChain.CompareSerial(s, k.disk.value) < 0 ==> v == Bad)
  }

  lemma FirstDecides(x: Watch, part: seq<Rr>, k: Known)
    requires x.rrCount == 0
    ensures Greeted(CheckPacket(x, part, k).0, part, k)
  {
  }

  // ----- the transfer daemon's side of a zone

  class XfrdZone {
    const apex: Name
    var disk: Option<nat>
    var expired: bool
    var msgRrCount: nat
    var msgNewSerial: nat
    var msgOldSerial: nat
    var msgIsIxfr: nat
    var file: seq<seq<Rr>>  // the packets in the transfer file

    constructor (apex: Name, disk: Option<nat>, expired: bool)
      ensures this.apex == apex && this.disk == disk && this.expired == expired
      ensures Fresh()
    {
      this.apex, this.disk, this.expired := apex, disk, expired;
      msgRrCount, msgNewSerial, msgOldSerial, msgIsIxfr, file := 0, 0, 0, 0, [];
    }

    ghost function Knows(): Known
      reads this
    {
      Known(apex, disk, expired)
    }

    ghost function State(tmpSerial: nat, done: bool): Watch
      reads this
    {
      Watch(msgRrCount, msgNewSerial, msgOldSerial, msgIsIxfr, tmpSerial, done)
    }

    /** `xfrd_prepare_zone_xfr` has set up a new transfer. */
    ghost predicate Fresh()
      reads this
    {
      State(0, false) == Nothing() && file == []
    }

    /** The SOA cases of the loop. */
    method CheckSoa(s: nat, tmp: nat) returns (ok: bool, tmp': nat, done: bool)
      modifies this`msgOldSerial, this`msgIsIxfr
      ensures var o := SeeSoa(old(State(tmp, false)), s, disk);
              ok == o.Some? && (ok ==> State(tmp', done) == o.value)
    {
      ok, tmp', done := true, tmp, false;
      if msgRrCount == 1 && s != msgNewSerial {
        msgIsIxfr := 1;
        if disk.None? || s != disk.value {
          return false, tmp, false;
        }
        msgOldSerial := s;
        tmp' := s;
      } else if s == msgNewSerial {
        if msgIsIxfr == 1 {
          msgIsIxfr := 2;
        } else {
          done := true;
        }
      } else if msgIsIxfr != 0 {
        if s > msgNewSerial || s < tmp {
          return false, tmp, false;
        }
        tmp' := s;
      }
    }

    /** `xfrd_xfr_check_rrs`: the temporary serial starts again with every packet. */
    method CheckRrs(rs: seq<Rr>) returns (ok: bool, done: bool)
      modifies this`msgRrCount, this`msgOldSerial, this`msgIsIxfr
      ensures var o := SeeAll(old(State(0, false)), rs, disk);
              ok == o.Some? && (ok ==> done == o.value.done && State(o.value.tmpSerial, done) == o.value)
    {
      ghost var outcome := SeeAll(State(0, false), rs, disk);
      var tmp, i := 0, 0;
      ok, done := true, false;
      assert rs[0..] == rs;
      while i < |rs|
        invariant 0 <= i <= |rs| && ok
        invariant outcome == SeeAll(State(tmp, done), rs[i..], disk)
      {
        assert rs[i..][1..] == rs[i + 1..];
        if done || (IsSoa(rs[i]) && !GoodSoa(rs[i])) {
          return false, done;
        }
        if IsSoa(rs[i]) {
          ok, tmp, done := CheckSoa(Serial(rs[i].rdata), tmp);
          if !ok {
            return;
          }
        }
        msgRrCount := msgRrCount + 1;
        i := i + 1;
      }
    }

    /** The first record of a transfer. */
    method CheckFirst(r: Rr) returns (v: Verdict)
      modifies this`msgRrCount, this`msgNewSerial, this`msgOldSerial, this`msgIsIxfr
      ensures var o := SeeFirst(r, Knows());
              v == o.0 && if v == More then State(0, false) == o.1 else State(0, false) == old(State(0, false))
    {
      if r.owner != apex || !GoodSoa(r) {
        return Bad;
      }
      var s := Serial(r.rdata);
      if disk.Some? && !expired && IxfrChain.CompareSerial(s, disk.value) < 0 {
        return Bad;
      }
      if disk == Some(s) {
        return NewLease;
      }
      msgNewSerial, msgRrCount, msgIsIxfr := s, 1, 0;
      msgOldSerial := if disk.Some? then disk.value else 0;
      v := More;
    }

    /** `xfrd_parse_received_xfr_packet`. */
    method ParsePacket(part: seq<Rr>) returns (v: Verdict)
      modifies this`msgRrCount, this`msgNewSerial, this`msgOldSerial, this`msgIsIxfr
      ensures var o := CheckPacket(old(State(0, false)), part, Knows());
              v == o.0 && (v == More || v == Complete ==> State(o.1.tmpSerial, o.1.done) == o.1)
    {
      if |part| > MAX_ANCOUNT || (msgRrCount == 0 && part == []) {
        return Bad;
      }
      var todo := part;
      if msgRrCount == 0 {
        v := CheckFirst(part[0]);
        if v != More {
          return;
        }
        todo := part[1..];
      }
      var ok, done := CheckRrs(todo);
      v := if !ok then Bad else if done then Complete else More;
    }

    /** `xfrd_handle_received_xfr_packet`: the packet is added to the file, or
        the file is removed.  With the last packet the serial on disk is the
        new one. */
    method HandlePacket(part: seq<Rr>) returns (v: Verdict)
      modifies this
      ensures var o := CheckPacket(old(State(0, false)), part, old(Knows()));
              && v == o.0 && (v == More || v == Complete ==> State(o.1.tmpSerial, o.1.done) == o.1)
              && file == (if v == More || v == Complete then old(file) + [part] else [])
      ensures old(msgRrCount) == 0 ==> Greeted(v, part, old(Knows()))
      ensures expired == old(expired) && disk == if v == Complete then Some(msgNewSerial) else old(disk)
    {
      if msgRrCount == 0 {
        FirstDecides(State(0, false), part, Knows());
      }
      v := ParsePacket(part);
      if v != More && v != Complete {
        file := [];
        return;
      }
      file := file + [part];
      if v == Complete {
        disk := Some(msgNewSerial);
      }
    }

    /** The packets of a reply, until the transfer is complete or given up. */
    method Receive(parts: seq<seq<Rr>>) returns (complete: bool)
      requires Fresh()
      modifies this
      ensures var n := TakePackets(Nothing(), parts, old(Knows()));
              complete == n.Some? && (complete ==> file == parts[..n.value] && disk == Some(msgNewSerial))
      ensures complete ==> parts[0] != [] && Offered(State(0, false), parts[0][0], old(disk))
      ensures !complete ==> disk == old(disk)
    {
      ghost var k, total := Knows(), TakePackets(Nothing(), parts, Knows());
      var i := 0;
      assert parts[0..] == parts;
      while i < |parts|
        invariant 0 <= i <= |parts| && file == parts[..i] && Knows() == k
        invariant InReply(State(0, false), parts, i, k, total)
      {
        InReplyStep(State(0, false), parts, i, k, total);
        var v := HandlePacket(parts[i]);
        i := i + 1;
        if v == Complete {
          return true;
        }
        if v != More {
          return false;
        }
      }
      complete := false;
    }
  }

  /** After `i` packets, with the rest to be taken. */
  ghost predicate InReply(x: Watch, parts: seq<seq<Rr>>, i: nat, k: Known, total: Option<nat>) {
    && i <= |parts|
    && (if i == 0 then x == Nothing() else parts[0] != [] && Offered(x, parts[0][0], k.disk))
    && total == match TakePackets(x, parts[i..], k) case None => None case Some(n) => Some(n + i)
  }

  lemma InReplyStep(x: Watch, parts: seq<seq<Rr>>, i: nat, k: Known, total: Option<nat>)
    requires InReply(x, parts, i, k, total) && i < |parts|
    ensures var (v, y) := CheckPacket(x, parts[i], k);
            && (v == Complete ==> parts[0] != [] && Offered(y, parts[0][0], k.disk) && total == Some(i + 1))
            && (v == More ==> InReply(y.(tmpSerial := 0, done := false), parts, i + 1, k, total))
            && (v != Complete && v != More ==> total == None)
  {
    assert parts[i..][0] == parts[i] && parts[i..][1..] == parts[i + 1..];
    if parts[0] != [] {
      OfferStays(x, parts[i], parts[0][0], k);
      var (v, y) := CheckPacket(x, parts[i], k);
      if v == More && i + 1 < |parts| {
        SameFrom(y, parts[i + 1..], k);
      }
    }
  }

  /** What does not stay from packet to packet does not matter. */
  lemma SameFrom(x: Watch, parts: seq<seq<Rr>>, k: Known)
    requires x.rrCount > 0
    ensures TakePackets(x, parts, k) == TakePackets(x.(tmpSerial := 0, done := false), parts, k)
  {
  }
}
