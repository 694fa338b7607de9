/** Sending a whole zone in packets, and walking it record by record: `query_axfr`
    and `zone_rr_iter_next`. */
module Axfr {
  import opened Names
  import opened Records
  import opened ZoneTree
  import opened Sequences

  /** A zone in the table of all domains: its number, where its apex is, and
      which RRset there is its SOA. */
  datatype Place = Place(ds: seq<Domain>, z: nat, apex: nat, soaIx: nat)

  predicate IsPlace(p: Place) {
    && p.apex < |p.ds| && p.soaIx < |p.ds[p.apex].rrsets|
    && p.ds[p.apex].rrsets[p.soaIx].zone == p.z && |p.ds[p.apex].rrsets[p.soaIx].rrs| == 1
  }

  function Soa(p: Place): Rr
    requires IsPlace(p)
  {
    p.ds[p.apex].rrsets[p.soaIx].rrs[0]
  }

  predicate Below(p: Place, dom: nat)
    requires p.apex < |p.ds| && dom < |p.ds|
  {
    IsSubdomain(p.ds[dom].name, p.ds[p.apex].name)
  }

  /** Whether the RRset is to be sent: of this zone, and not its SOA. */
  predicate Sent(p: Place, dom: nat, k: nat)
    requires dom < |p.ds| && k < |p.ds[dom].rrsets|
  {
    p.ds[dom].rrsets[k].zone == p.z && !(dom == p.apex && k == p.soaIx)
  }

  // ----- what is to be sent

  function RrsetOut(p: Place, dom: nat, k: nat): seq<Rr>
    requires dom < |p.ds| && k < |p.ds[dom].rrsets|
  {
    if Sent(p, dom, k) then p.ds[dom].rrsets[k].rrs else []
  }

  /** The first `k` RRsets of a domain. */
  function DomainOut(p: Place, dom: nat, k: nat): seq<Rr>
    requires dom < |p.ds| && k <= |p.ds[dom].rrsets|
  {
    if k == 0 then [] else DomainOut(p, dom, k - 1) + RrsetOut(p, dom, k - 1)
  }

  /** The domains from the apex up to `dom`. */
  function ZoneOut(p: Place, dom: nat): seq<Rr>
    requires dom <= |p.ds|
  {
    if dom <= p.apex then [] else ZoneOut(p, dom - 1) + DomainOut(p, dom - 1, |p.ds[dom - 1].rrsets|)
  }

  /** Where the subdomains of the apex end. */
  function End(p: Place, dom: nat): (e: nat)
    requires p.apex < |p.ds| && dom <= |p.ds|
    ensures dom <= e <= |p.ds| && forall i :: dom <= i < e ==> Below(p, i)
    ensures e < |p.ds| ==> !Below(p, e)
    decreases |p.ds| - dom
  {
    if dom == |p.ds| || !Below(p, dom) then dom else End(p, dom + 1)
  }

  /** The transfer: SOA, the rest of the zone, SOA (section 2.2 of RFC 5936). */
  function Stream(p: Place): seq<Rr>
    requires IsPlace(p)
  {
    [Soa(p)] + ZoneOut(p, End(p, p.apex)) + [Soa(p)]
  }

  // ----- positions in the stream

  function RrOff(p: Place, dom: nat, k: nat): nat
    requires dom < |p.ds| && k <= |p.ds[dom].rrsets|
  {
    if k == 0 then 0 else RrOff(p, dom, k - 1) + |RrsetOut(p, dom, k - 1)|
  }

  function DomOff(p: Place, dom: nat): nat
    requires dom <= |p.ds|
  {
    if dom <= p.apex then 0 else DomOff(p, dom - 1) + RrOff(p, dom - 1, |p.ds[dom - 1].rrsets|)
  }

  lemma {:induction false} DomainLength(p: Place, dom: nat, k: nat)
    requires dom < |p.ds| && k <= |p.ds[dom].rrsets|
    ensures |DomainOut(p, dom, k)| == RrOff(p, dom, k)
  {
    if k > 0 {
      DomainLength(p, dom, k - 1);
    }
  }

  lemma {:induction false} ZoneLength(p: Place, dom: nat)
    requires dom <= |p.ds|
    ensures |ZoneOut(p, dom)| == DomOff(p, dom)
  {
    if dom > p.apex {
      ZoneLength(p, dom - 1);
      DomainLength(p, dom - 1, |p.ds[dom - 1].rrsets|);
    }
  }

  lemma {:induction false} DomainPrefix(p: Place, dom: nat, k: nat, l: nat)
    requires dom < |p.ds| && k <= l <= |p.ds[dom].rrsets|
    ensures DomainOut(p, dom, k) <= DomainOut(p, dom, l)
    decreases l
  {
    if k < l {
      DomainPrefix(p, dom, k, l - 1);
    }
  }

  lemma {:induction false} ZonePrefix(p: Place, dom: nat, e: nat)
    requires p.apex <= dom <= e <= |p.ds|
    ensures ZoneOut(p, dom) <= ZoneOut(p, e)
    decreases e
  {
    if dom < e {
      ZonePrefix(p, dom, e - 1);
    }
  }

  ghost predicate Framed(p: Place, end: nat, stream: seq<Rr>) {
    IsPlace(p) && end == End(p, p.apex) && stream == Stream(p)
  }

  /** Where the stream has an RRset's records. */
  lemma RrsetAt(p: Place, end: nat, stream: seq<Rr>, dom: nat, k: nat)
    requires Framed(p, end, stream) && p.apex <= dom < end && k < |p.ds[dom].rrsets|
    ensures var base, rrs := 1 + DomOff(p, dom) + RrOff(p, dom, k), RrsetOut(p, dom, k);
            base + |rrs| < |stream| && stream[base..base + |rrs|] == rrs
  {
    var n := |p.ds[dom].rrsets|;
    DomainInZone(p, dom, end);
    RrsetInDomain(p, dom, k);
    ZoneLength(p, dom);
    DomainLength(p, dom, k);
    Nested(Soa(p), ZoneOut(p, dom), DomainOut(p, dom, k), RrsetOut(p, dom, k), DomainOut(p, dom, n), ZoneOut(p, end));
  }

  lemma DomainInZone(p: Place, dom: nat, end: nat)
    requires p.apex <= dom < end <= |p.ds|
    ensures ZoneOut(p, dom) + DomainOut(p, dom, |p.ds[dom].rrsets|) <= ZoneOut(p, end)
  {
    ZonePrefix(p, dom + 1, end);
  }

  lemma RrsetInDomain(p: Place, dom: nat, k: nat)
    requires dom < |p.ds| && k < |p.ds[dom].rrsets|
    ensures DomainOut(p, dom, k) + RrsetOut(p, dom, k) <= DomainOut(p, dom, |p.ds[dom].rrsets|)
  {
    DomainPrefix(p, dom, k + 1, |p.ds[dom].rrsets|);
  }

  lemma Nested(soa: Rr, a: seq<Rr>, b: seq<Rr>, c: seq<Rr>, d: seq<Rr>, all: seq<Rr>)
    requires b + c <= d && a + d <= all
    ensures var base := 1 + |a| + |b|;
            base + |c| < |[soa] + all + [soa]| && ([soa] + all + [soa])[base..base + |c|] == c
  {
    var s, base := [soa] + all + [soa], 1 + |a| + |b|;
    assert all[..|a| + |d|] == a + d && d[..|b| + |c|] == b + c;
    forall i | 0 <= i < |c|
      ensures s[base + i] == c[i]
    {
      assert s[base + i] == all[|a| + |b| + i] == (a + d)[|a| + |b| + i] == d[|b| + i] == (b + c)[|b| + i];
    }
  }

  lemma StreamEnds(p: Place, end: nat, stream: seq<Rr>)
    requires Framed(p, end, stream)
    ensures |stream| == DomOff(p, end) + 2 && p.apex < end
    ensures stream[0] == Soa(p) && stream[|stream| - 1] == Soa(p)
  {
    ZoneLength(p, end);
  }

  // ----- the stream as a plan

  /** The records in order, where the zone ends, and where in the stream the
      RRsets of a domain start. */
  datatype Plan = Plan(stream: seq<Rr>, end: nat, base: (nat, nat) -> nat)

  predicate Visit(dom: nat, k: nat) {
    true
  }

  predicate Take(dom: nat, k: nat) {
    true
  }

  /** The plan has the RRset where it says. */
  ghost predicate HasRrset(p: Place, plan: Plan, dom: nat, k: nat)
    requires dom < |p.ds| && k < |p.ds[dom].rrsets|
  {
    var base, rrs := plan.base(dom, k), RrsetOut(p, dom, k);
    base + |rrs| < |plan.stream| && plan.stream[base..base + |rrs|] == rrs
  }

  ghost predicate IsPlan(p: Place, plan: Plan) {
    && IsPlace(p) && p.apex < plan.end <= |p.ds| && |plan.stream| >= 2
    && plan.stream[0] == Soa(p) && plan.stream[|plan.stream| - 1] == Soa(p)
    && plan.base(p.apex, 0) == 1 && plan.base(plan.end, 0) == |plan.stream| - 1
    && (forall dom: nat, k: nat {:trigger Take(dom, k)} ::
          Take(dom, k) && p.apex <= dom < plan.end && k < |p.ds[dom].rrsets| ==> HasRrset(p, plan, dom, k))
    && (forall dom: nat, k: nat {:trigger Visit(dom, k)} ::
          Visit(dom, k) && p.apex <= dom < plan.end && k < |p.ds[dom].rrsets| ==>
            plan.base(dom, k + 1) == plan.base(dom, k) + |RrsetOut(p, dom, k)|)
    && (forall dom: nat {:trigger Visit(dom, 0)} ::
          Visit(dom, 0) && p.apex <= dom < plan.end ==>
            plan.base(dom + 1, 0) == plan.base(dom, |p.ds[dom].rrsets|) < |plan.stream|)
    && (forall dom: nat {:trigger Visit(dom, 0)} ::
          Visit(dom, 0) && p.apex <= dom <= plan.end && dom < |p.ds| ==> (Below(p, dom) <==> dom < plan.end))
  }

  /** The plan of the zone's own stream. */
  lemma PlanFor(p: Place) returns (plan: Plan)
    requires IsPlace(p)
    ensures IsPlan(p, plan) && plan.stream == Stream(p)
  {
    var end, stream := End(p, p.apex), Stream(p);
    plan := Plan(stream, end, (dom, k) => BaseOf(p, dom, k));
    StreamEnds(p, end, stream);
    forall dom: nat, k: nat {:trigger Take(dom, k)} | Take(dom, k) && p.apex <= dom < plan.end && k < |p.ds[dom].rrsets|
      ensures HasRrset(p, plan, dom, k)
    {
      RrsetAt(p, end, stream, dom, k);
    }
    forall dom: nat {:trigger Visit(dom, 0)} | Visit(dom, 0) && p.apex <= dom < plan.end
      ensures plan.base(dom + 1, 0) == plan.base(dom, |p.ds[dom].rrsets|) < |plan.stream|
    {
      NextDomain(p, end, stream, dom);
    }
  }

  lemma NextDomain(p: Place, end: nat, stream: seq<Rr>, dom: nat)
    requires Framed(p, end, stream) && p.apex <= dom < end
    ensures BaseOf(p, dom + 1, 0) == BaseOf(p, dom, |p.ds[dom].rrsets|) < |stream|
  {
    ZonePrefix(p, dom + 1, end);
    ZoneLength(p, dom + 1);
    ZoneLength(p, end);
  }

  function BaseOf(p: Place, dom: nat, k: nat): nat {
    if dom < |p.ds| && k <= |p.ds[dom].rrsets| then 1 + DomOff(p, dom) + RrOff(p, dom, k)
    else if dom <= |p.ds| then 1 + DomOff(p, dom)
    else 0
  }

  /** A position in the walk (a domain, the RRset there when one is under way,
      and the record in it) at which `n` records have been sent. */
  ghost predicate At(p: Place, plan: Plan, dom: nat, rrset: Option<nat>, rr: nat, n: nat) {
    && p.apex <= dom <= plan.end <= |p.ds|
    && match rrset
       case None => n == plan.base(dom, 0)
       case Some(k) =>
         && dom < plan.end && k < |p.ds[dom].rrsets| && rr <= |RrsetOut(p, dom, k)|
         && n == plan.base(dom, k) + rr
  }

  /** Skipping the RRsets of other zones in front sends nothing. */
  lemma {:induction false} SkipOthers(p: Place, plan: Plan, dom: nat, k: nat)
    requires IsPlan(p, plan) && p.apex <= dom < plan.end && k <= |p.ds[dom].rrsets|
    requires forall j :: 0 <= j < k ==> p.ds[dom].rrsets[j].zone != p.z
    ensures plan.base(dom, k) == plan.base(dom, 0)
    decreases k
  {
    if k > 0 {
      SkipOthers(p, plan, dom, k - 1);
      assert Visit(dom, k - 1);
    }
  }

  // ----- the transfer

  /** Whether a packet of these records keeps within the usual limit, or within
      the limit of a message. */
  type Room = (seq<Rr>, bool) -> bool

  /** A packet keeps within its limit: that of a message for one record, and the
      usual one for more. */
  predicate Within(room: Room, packet: seq<Rr>) {
    packet == [] || room(packet, |packet| == 1)
  }

  /** It does not take another record: its only record is beyond the usual limit
      already, or with `next` it would be. */
  predicate Tight(room: Room, packet: seq<Rr>, next: Rr) {
    packet != [] && ((|packet| == 1 && !room(packet, false)) || !room(packet + [next], false))
  }

  class AxfrQuery {
    const place: Place
    const room: Room
    var started: bool
    var isDone: bool
    var dom: nat
    var rrset: Option<nat>
    var rr: nat
    var packet: seq<Rr>
    /** The stream, and how much of it has been sent. */
    ghost const plan: Plan
    ghost var sent: nat

    ghost predicate Valid()
      reads this
    {
      && IsPlan(place, plan) && sent <= |plan.stream|
      && (isDone <==> sent == |plan.stream|)
      && (if started then !isDone ==> At(place, plan, dom, rrset, rr, sent) else sent == 0)
    }

    /** Every record fits an otherwise empty packet; the SOA even within the
        usual limit. */
    ghost predicate Fits()
      reads this
    {
      && IsPlan(place, plan) && room([Soa(place)], false)
      && forall i :: 0 <= i < |plan.stream| ==> room([plan.stream[i]], true)
    }

    constructor (place: Place, room: Room)
      requires IsPlace(place)
      ensures Valid() && !started && !isDone && this.place == place && this.room == room && plan.stream == Stream(place)
    {
      this.place, this.room := place, room;
      started, isDone, dom, rrset, rr, packet, sent := false, false, 0, None, 0, [], 0;
      var plan := PlanFor(place);
      this.plan := plan;
    }

    /** `packet_encode_rr`. */
    method Encode(r: Rr, big: bool) returns (added: bool)
      modifies this`packet
      ensures added <==> room(old(packet) + [r], big)
      ensures packet == if added then old(packet) + [r] else old(packet)
    {
      added := room(packet + [r], big);
      if added {
        packet := packet + [r];
      }
    }

    /** The innermost loop: the records of one RRset. */
    method FillRrset(rrs: seq<Rr>) returns (full: bool)
      requires rr <= |rrs| && Within(room, packet) && forall i :: 0 <= i < |rrs| ==> room([rrs[i]], true)
      modifies this`packet, this`rr
      ensures old(rr) <= rr <= |rrs| && packet == old(packet) + rrs[old(rr)..rr] && Within(room, packet)
      ensures full ==> packet != [] && ((|packet| == 1 && !room(packet, false)) || (rr < |rrs| && !room(packet + [rrs[rr]], false)))
      ensures !full ==> rr == |rrs|
    {
      assert packet + rrs[rr..rr] == packet;
      while rr < |rrs|
        invariant old(rr) <= rr <= |rrs| && packet == old(packet) + rrs[old(rr)..rr] && Within(room, packet)
      {
        var first := packet == [];
        assert [] + [rrs[rr]] == [rrs[rr]];
        Longer(old(packet), rrs, old(rr), rr);
        var added := Encode(rrs[rr], first);
        if first && !room(packet, false) && added {
          rr := rr + 1;
          return true;
        }
        if !added {
          return true;
        }
        rr := rr + 1;
      }
      full := false;
    }

    /** One RRset of the zone. */
    method SendRrset(k: nat, ghost from: nat, ghost n: nat) returns (full: bool, ghost n': nat)
      requires Fits() && At(place, plan, dom, Some(k), rr, n) && Sent(place, dom, k)
      requires from <= n < |plan.stream| && packet == plan.stream[from..n] && Within(room, packet)
      modifies this`packet, this`rr
      ensures At(place, plan, dom, Some(k), rr, n')
      ensures from <= n' < |plan.stream| && packet == plan.stream[from..n'] && Within(room, packet)
      ensures full ==> Tight(room, packet, plan.stream[n'])
      ensures !full ==> rr == |RrsetOut(place, dom, k)|
    {
      ghost var rrs, base := RrsetOut(place, dom, k), n - rr;
      assert Take(dom, k);
      SliceFits(plan.stream, rrs, base, room);
      full := FillRrset(place.ds[dom].rrsets[k].rrs);
      n' := base + rr;
      SliceGrows(plan.stream, rrs, base, from, old(rr), rr);
      if rr < |rrs| {
        assert plan.stream[base..base + |rrs|][rr] == plan.stream[n'];
      }
    }

    /** The RRsets of one domain from `first` on. */
    method FillDomain(first: nat, ghost from: nat, ghost n: nat) returns (full: bool, ghost n': nat)
      requires Fits() && rrset == Some(first) && At(place, plan, dom, rrset, rr, n)
      requires from <= n < |plan.stream| && packet == plan.stream[from..n] && Within(room, packet)
      modifies this`packet, this`rr, this`rrset
      ensures from <= n' < |plan.stream| && packet == plan.stream[from..n'] && Within(room, packet)
      ensures full ==> Tight(room, packet, plan.stream[n']) && At(place, plan, dom, rrset, rr, n')
      ensures !full ==> rrset == None && At(place, plan, dom + 1, None, 0, n')
    {
      var k, count := first, |place.ds[dom].rrsets|;
      n' := n;
      while true
        invariant k < count && rrset == Some(k) && At(place, plan, dom, rrset, rr, n')
        invariant from <= n' < |plan.stream| && packet == plan.stream[from..n'] && Within(room, packet)
        decreases count - k
      {
        assert Visit(dom, k) && Visit(dom, 0);
        if Sent(place, dom, k) {
          full, n' := SendRrset(k, from, n');
          if full {
            return;
          }
        }
        k := k + 1;
        rr := 0;
        if k == count {
          rrset := None;
          return false, n';
        }
        rrset := Some(k);
      }
    }

    /** One domain, new or under way. */
    method EnterDomain(ghost from: nat, ghost n: nat) returns (full: bool, ghost n': nat)
      requires Fits() && dom < plan.end && At(place, plan, dom, rrset, rr, n)
      requires from <= n < |plan.stream| && packet == plan.stream[from..n] && Within(room, packet)
      modifies this`packet, this`rr, this`rrset
      ensures from <= n' < |plan.stream| && packet == plan.stream[from..n'] && Within(room, packet)
      ensures full ==> Tight(room, packet, plan.stream[n']) && At(place, plan, dom, rrset, rr, n')
      ensures !full ==> rrset == None && At(place, plan, dom + 1, None, 0, n')
    {
      if rrset.None? {
        var k := FindAnyRrset(place.ds[dom].rrsets, place.z);
        SkipOthers(place, plan, dom, if k.Some? then k.value else |place.ds[dom].rrsets|);
        rrset, rr := k, 0;
        assert Visit(dom, 0);
        if k.None? {
          return false, n;
        }
      }
      full, n' := FillDomain(rrset.value, from, n);
    }

    /** The domains of the zone. */
    method FillZone(ghost from: nat, ghost n: nat) returns (full: bool, ghost n': nat)
      requires Fits() && At(place, plan, dom, rrset, rr, n)
      requires from <= n < |plan.stream| && packet == plan.stream[from..n] && Within(room, packet)
      modifies this`packet, this`rr, this`rrset, this`dom
      ensures At(place, plan, dom, rrset, rr, n')
      ensures from <= n' < |plan.stream| && packet == plan.stream[from..n'] && Within(room, packet)
      ensures full ==> Tight(room, packet, plan.stream[n'])
      ensures !full ==> n' == |plan.stream| - 1
    {
      n' := n;
      var below := StillBelow(dom);
      while below
        invariant At(place, plan, dom, rrset, rr, n') && (below <==> dom < plan.end)
        invariant from <= n' < |plan.stream| && packet == plan.stream[from..n'] && Within(room, packet)
        decreases |place.ds| - dom
      {
        full, n' := EnterDomain(from, n');
        if full {
          return;
        }
        dom := dom + 1;
        below := StillBelow(dom);
      }
      full := false;
    }

    /** The guard of its loop. */
    method StillBelow(d: nat) returns (yes: bool)
      requires IsPlan(place, plan) && place.apex <= d <= plan.end
      ensures yes <==> d < plan.end
    {
      if d >= |place.ds| {
        return false;
      }
      assert Visit(d, 0);
      yes := TestSubdomain(place.ds[d].name, place.ds[place.apex].name);
    }

    /** The start of a packet: the first one begins with the SOA. */
    method Begin() returns (ghost n: nat)
      requires Valid() && Fits() && !isDone
      modifies this`packet, this`started, this`dom, this`rrset, this`rr
      ensures started && At(place, plan, dom, rrset, rr, n)
      ensures sent <= n < |plan.stream| && packet == plan.stream[sent..n] && Within(room, packet)
    {
      packet := [];
      n := sent;
      if !started {
        packet := [Soa(place)];
        started, dom, rrset, rr := true, place.apex, None, 0;
        n := 1;
      }
    }

    /** The terminating SOA. */
    method Terminate(ghost from: nat, ghost n: nat)
      requires from <= n == |plan.stream| - 1 && packet == plan.stream[from..n] && Within(room, packet)
      requires IsPlace(place) && plan.stream[n] == Soa(place) && room([Soa(place)], false) && room([Soa(place)], true)
      modifies this`packet, this`isDone
      ensures packet != [] && Within(room, packet) && (old(isDone) ==> isDone)
      ensures isDone && !old(isDone) ==> packet == plan.stream[from..]
      ensures !isDone ==> packet == old(packet) && Tight(room, packet, plan.stream[n])
    {
      AddLast(plan.stream, from, packet);
      var added := Encode(Soa(place), false);
      if added {
        isDone := true;
      }
    }

    /** `query_axfr` for one packet: the next part of the stream, within the limit
        and with no room for more. */
    method NextPacket()
      requires Valid() && Fits() && !isDone
      modifies this
      ensures Valid() && started && sent > old(sent) && packet == plan.stream[old(sent)..sent]
      ensures Within(room, packet) && (!isDone ==> sent < |plan.stream| && Tight(room, packet, plan.stream[sent]))
    {
      ghost var n := Begin();
      var full;
      full, n := FillZone(sent, n);
      if !full {
        Terminate(sent, n);
      }
      sent := if isDone then n + 1 else n;
    }
  }

  // ----- steps

  lemma AddLast(s: seq<Rr>, from: nat, packet: seq<Rr>)
    requires from < |s| && packet == s[from..|s| - 1]
    ensures packet + [s[|s| - 1]] == s[from..] && (packet == [] ==> packet + [s[|s| - 1]] == [s[|s| - 1]])
  {
  }

  lemma Longer(packet: seq<Rr>, rrs: seq<Rr>, a: nat, b: nat)
    requires a <= b < |rrs|
    ensures packet + rrs[a..b] + [rrs[b]] == packet + rrs[a..b + 1]
  {
    assert rrs[a..b] + [rrs[b]] == rrs[a..b + 1];
  }

  lemma SliceFits(s: seq<Rr>, rrs: seq<Rr>, base: nat, room: Room)
    requires base + |rrs| <= |s| && s[base..base + |rrs|] == rrs
    requires forall i :: 0 <= i < |s| ==> room([s[i]], true)
    ensures forall i :: 0 <= i < |rrs| ==> room([rrs[i]], true)
  {
    forall i | 0 <= i < |rrs|
      ensures room([rrs[i]], true)
    {
      assert s[base..base + |rrs|][i] == s[base + i];
    }
  }

  lemma SliceGrows(s: seq<Rr>, rrs: seq<Rr>, base: nat, from: nat, a: nat, b: nat)
    requires base + |rrs| <= |s| && s[base..base + |rrs|] == rrs && a <= b <= |rrs| && from <= base + a
    ensures s[from..base + a] + rrs[a..b] == s[from..base + b]
  {
    forall i | a <= i < b
      ensures rrs[i] == s[base + i]
    {
      assert s[base..base + |rrs|][i] == s[base + i];
    }
    assert rrs[a..b] == s[base + a..base + b];
  }

  /** `domain_find_any_rrset`. */
  method FindAnyRrset(rrsets: seq<Rrset>, z: nat) returns (k: Option<nat>)
    ensures k.Some? ==> k.value < |rrsets| && rrsets[k.value].zone == z
    ensures forall j :: 0 <= j < (if k.Some? then k.value else |rrsets|) ==> rrsets[j].zone != z
  {
    var i := 0;
    while i < |rrsets|
      invariant 0 <= i <= |rrsets| && forall j :: 0 <= j < i ==> rrsets[j].zone != z
    {
      if rrsets[i].zone == z {
        return Some(i);
      }
      i := i + 1;
    }
    k := None;
  }
}
