/** What a whole transfer sends, and the record iterator of namedb.c. */
module AxfrResults {
  import opened Names
  import opened Records
  import opened ZoneTree
  import opened Sequences
  import opened Axfr

  // ----- a whole transfer

  /** The packets all hold something and stay within the limit, and the first
      record of each would not have fitted into the packet before it. */
  ghost predicate Packed(room: Room, packets: seq<seq<Rr>>) {
    && (forall i :: 0 <= i < |packets| ==> packets[i] != [] && Within(room, packets[i]))
    && (forall i {:trigger packets[i]} :: 0 < i < |packets| ==> Tight(room, packets[i - 1], packets[i][0]))
  }

  /** One packet more. */
  lemma Appended(stream: seq<Rr>, room: Room, packets: seq<seq<Rr>>, packet: seq<Rr>, i: nat, j: nat)
    requires i < j <= |stream| && Flatten(packets) == stream[..i] && packet == stream[i..j]
    requires Packed(room, packets) && Within(room, packet) && (packets != [] ==> Tight(room, packets[|packets| - 1], stream[i]))
    ensures Flatten(packets + [packet]) == stream[..j] && Packed(room, packets + [packet])
  {
    FlattenSnoc(packets, packet);
    assert stream[..i] + stream[i..j] == stream[..j];
  }

  /** All packets of a transfer: however they fill up, together they are the
      stream, and none is empty. */
  method TransferZone(p: Place, room: Room) returns (packets: seq<seq<Rr>>)
    requires IsPlace(p) && room([Soa(p)], false)
    requires forall i :: 0 <= i < |Stream(p)| ==> room([Stream(p)[i]], true)
    ensures Flatten(packets) == Stream(p) && Packed(room, packets)
  {
    var query := new AxfrQuery(p, room);
    packets := [];
    while !query.isDone
      invariant query.Valid() && query.Fits() && fresh(query)
      invariant query.plan.stream == Stream(p) && Flatten(packets) == Stream(p)[..query.sent]
      invariant query.room == room && Packed(room, packets)
      invariant packets != [] && !query.isDone ==> Tight(room, packets[|packets| - 1], Stream(p)[query.sent])
      decreases |Stream(p)| - query.sent
    {
      ghost var before := query.sent;
      query.NextPacket();
      Appended(Stream(p), room, packets, query.packet, before, query.sent);
      packets := packets + [query.packet];
    }
    assert Stream(p)[..|Stream(p)|] == Stream(p);
  }

  // ----- the iterator

  /** No domain from the end of the block on is below the apex again. */
  lemma PastEnd(p: Place, plan: Plan, d: nat)
    requires IsPlan(p, plan) && Sorted(p.ds) && plan.end <= d < |p.ds|
    ensures !Below(p, d)
  {
    assert Visit(plan.end, 0);
    if Below(p, d) {
      var a, e := p.ds[p.apex].name, p.ds[plan.end].name;
      assert Less(a, e) && LessEq(e, p.ds[d].name);
      Contiguous(a, e, p.ds[d].name);
      assert false;
    }
  }

  class ZoneRrIter {
    const place: Place
    var domain: Option<nat>
    var rrset: Option<nat>
    var index: int
    ghost const plan: Plan
    /** How many records have been returned. */
    ghost var count: nat

    /** At a record of the zone, or behind the last one. */
    ghost predicate Standing(n: nat)
      reads this
    {
      match rrset
      case None => domain.None? && n == |plan.stream| - 1
      case Some(k) =>
        match domain
        case None => k == place.soaIx && 0 <= index <= 1 && n == index
        case Some(d) =>
          && place.apex <= d < plan.end <= |place.ds| && k < |place.ds[d].rrsets| && Sent(place, d, k)
          && 0 <= index <= |RrsetOut(place, d, k)| && n == plan.base(d, k) + index
    }

    ghost predicate Valid()
      reads this
    {
      && IsPlan(place, plan) && Sorted(place.ds)
      && if index == -1 then count == |plan.stream| - 1
         else if rrset.None? then domain.None? && index == 0 && count == 0
         else Standing(count) && count <= |plan.stream| - 1
    }

    /** `zone_rr_iter_init`. */
    constructor (place: Place)
      requires IsPlace(place) && Sorted(place.ds)
      ensures Valid() && count == 0 && this.place == place && plan.stream == Stream(place)
    {
      this.place := place;
      domain, rrset, index, count := None, None, 0, 0;
      var plan := PlanFor(place);
      this.plan := plan;
    }

    function RrsetList(d: Option<nat>): seq<Rrset>
      requires place.apex < |place.ds| && (d.Some? ==> d.value < |place.ds|)
    {
      place.ds[if d.Some? then d.value else place.apex].rrsets
    }

    /** How far the walk still has to go. */
    ghost function Rank(): nat
      reads this
    {
      match domain
      case None => if rrset.Some? then |place.ds| + 1 else 0
      case Some(d) => if d < |place.ds| then |place.ds| - d else 0
    }

    ghost function RrsetRank(): nat
      reads this
    {
      match (domain, rrset)
      case (Some(d), Some(k)) =>
        if d < |place.ds| && k < |place.ds[d].rrsets| then |place.ds[d].rrsets| - k else 0
      case _ => 0
    }

    /** On the way to the next RRset to return, with `n` records behind. */
    ghost predicate Walking(n: nat)
      reads this
    {
      match domain
      case None => rrset.None? && n == |plan.stream| - 1
      case Some(d) =>
        && place.apex <= d < |place.ds|
        && match rrset
           case Some(k) => d < plan.end && k < |place.ds[d].rrsets| && n == plan.base(d, k)
           case None => if d < plan.end then n == plan.base(d + 1, 0) else n == |plan.stream| - 1
    }

    /** The inner loop: to the next RRset of the zone that is not its SOA. */
    method SkipAhead(ghost n: nat)
      requires IsPlan(place, plan) && Sorted(place.ds) && Walking(n) && index == 0
      modifies this`domain, this`rrset
      ensures Standing(n)
      ensures Rank() < old(Rank()) || (Rank() == old(Rank()) && RrsetRank() <= old(RrsetRank()))
    {
      while (rrset.None? && domain.Some?) || (rrset.Some? && !Sent(place, domain.value, rrset.value))
        invariant Walking(n) && index == 0
        invariant Rank() < old(Rank()) || (Rank() == old(Rank()) && RrsetRank() <= old(RrsetRank()))
        decreases Rank(), RrsetRank()
      {
        var d := domain.value;
        assert Visit(d, 0);
        if rrset.Some? {
          var k := rrset.value;
          assert Visit(d, k);
          rrset := if k + 1 < |place.ds[d].rrsets| then Some(k + 1) else None;
        } else {
          NextDomain(d, n);
        }
      }
    }

    /** `domain_next`, and into the domain when it is below the apex. */
    method NextDomain(d: nat, ghost n: nat)
      requires IsPlan(place, plan) && Sorted(place.ds) && Walking(n) && domain == Some(d) && rrset == None
      modifies this`domain, this`rrset
      ensures Walking(n) && Rank() < old(Rank())
    {
      if d + 1 >= |place.ds| {
        domain := None;
        return;
      }
      domain := Some(d + 1);
      assert Visit(d + 1, 0);
      if d + 1 > plan.end {
        PastEnd(place, plan, d + 1);
      }
      var below := TestSubdomain(place.ds[d + 1].name, place.ds[place.apex].name);
      if below && |place.ds[d + 1].rrsets| > 0 {
        rrset := Some(0);
      }
    }

    /** `zone_rr_iter_next`: the stream of a transfer without its last record. */
    method Next() returns (r: Option<Rr>)
      requires Valid()
      modifies this
      ensures Valid()
      ensures old(count) < |plan.stream| - 1 ==> r == Some(plan.stream[old(count)]) && count == old(count) + 1
      ensures old(count) == |plan.stream| - 1 ==> r == None && count == old(count)
    {
      if index == -1 {
        return None;
      } else if rrset.None? {
        rrset := Some(place.soaIx);
      }
      while rrset.Some?
        invariant IsPlan(place, plan) && Sorted(place.ds)
        invariant Standing(count) && count == old(count) && count <= |plan.stream| - 1
        decreases Rank(), RrsetRank()
      {
        var k := rrset.value;
        var rrs := RrsetList(domain)[k].rrs;
        RecordAt(k);
        if index < |rrs| {
          r := Some(rrs[index]);
          index := index + 1;
          count := count + 1;
          return;
        }
        Advance(k);
      }
      index := -1;
      return None;
    }

    /** The record the iterator stands at is the next one of the stream. */
    lemma RecordAt(k: nat)
      requires IsPlan(place, plan) && Standing(count) && rrset == Some(k)
      ensures var rrs := RrsetList(domain)[k].rrs;
              0 <= index <= |rrs| && (index < |rrs| ==> count < |plan.stream| - 1 && rrs[index] == plan.stream[count])
    {
      if domain.Some? {
        var d := domain.value;
        assert Take(d, k);
        var base, rrs := plan.base(d, k), RrsetOut(place, d, k);
        if index < |rrs| {
          assert plan.stream[base..base + |rrs|][index] == plan.stream[base + index];
        }
      }
    }

    /** Past the records of one RRset. */
    method Advance(k: nat)
      requires IsPlan(place, plan) && Sorted(place.ds) && Standing(count) && rrset == Some(k)
      requires index == |RrsetList(domain)[k].rrs|
      modifies this`domain, this`rrset, this`index
      ensures Standing(count)
      ensures Rank() < old(Rank()) || (Rank() == old(Rank()) && RrsetRank() < old(RrsetRank()))
    {
      index := 0;
      if domain.None? {
        domain, rrset := Some(place.apex), Some(0);
      } else {
        var d := domain.value;
        assert Visit(d, k) && Visit(d, 0);
        rrset := if k + 1 < |place.ds[d].rrsets| then Some(k + 1) else None;
      }
      SkipAhead(count);
    }
  }

  // ----- the stream is the zone, each record once

  /** Of one zone, no two RRsets at a name have one type. */
  lemma {:induction false} TypesDiffer(rrsets: seq<Rrset>, z: nat, i: nat, j: nat)
    requires i < j < |rrsets| && rrsets[i].zone == z && rrsets[j].zone == z
    requires forall a, b :: 0 <= a < b < |OfZone(rrsets, z)| ==> OfZone(rrsets, z)[a].typ != OfZone(rrsets, z)[b].typ
    ensures rrsets[i].typ != rrsets[j].typ
    decreases i
  {
    var first, rest := if rrsets[0].zone == z then [rrsets[0]] else [], OfZone(rrsets[1..], z);
    assert OfZone(rrsets, z) == first + rest;
    if i == 0 {
      OfZoneMember(rrsets[1..], z, rrsets[j]);
      assert rrsets[j] == rrsets[1..][j - 1];
      var b :| 0 <= b < |rest| && rest[b] == rrsets[j];
      assert OfZone(rrsets, z)[0] == rrsets[0] && OfZone(rrsets, z)[b + 1] == rrsets[j];
    } else {
      forall a, b | 0 <= a < b < |rest|
        ensures rest[a].typ != rest[b].typ
      {
        assert OfZone(rrsets, z)[|first| + a] == rest[a] && OfZone(rrsets, z)[|first| + b] == rest[b];
      }
      TypesDiffer(rrsets[1..], z, i - 1, j - 1);
    }
  }

  lemma RrsetIsGood(p: Place, dom: nat, k: nat)
    requires GoodZone(p.ds, p.z) && dom < |p.ds| && k < |p.ds[dom].rrsets| && p.ds[dom].rrsets[k].zone == p.z
    ensures GoodRrset(p.ds[dom].name, p.ds[dom].rrsets[k])
  {
    assert GoodDomain(p.ds[dom], p.z);
    OfZoneMember(p.ds[dom].rrsets, p.z, p.ds[dom].rrsets[k]);
  }

  /** The records sent from the first `k` RRsets of a domain. */
  lemma {:induction false} InDomainOut(p: Place, dom: nat, k: nat, r: Rr)
    requires dom < |p.ds| && k <= |p.ds[dom].rrsets|
    ensures r in DomainOut(p, dom, k) <==> exists j :: 0 <= j < k && Sent(p, dom, j) && r in p.ds[dom].rrsets[j].rrs
  {
    if k > 0 {
      InDomainOut(p, dom, k - 1, r);
    }
  }

  lemma {:induction false} DomainOutDistinct(p: Place, dom: nat, k: nat)
    requires GoodZone(p.ds, p.z) && dom < |p.ds| && k <= |p.ds[dom].rrsets|
    ensures Distinct(DomainOut(p, dom, k))
  {
    if k > 0 {
      DomainOutDistinct(p, dom, k - 1);
      var before, rrs := DomainOut(p, dom, k - 1), RrsetOut(p, dom, k - 1);
      if Sent(p, dom, k - 1) {
        RrsetIsGood(p, dom, k - 1);
        forall r | r in before
          ensures r !in rrs
        {
          InDomainOut(p, dom, k - 1, r);
          var j :| 0 <= j < k - 1 && Sent(p, dom, j) && r in p.ds[dom].rrsets[j].rrs;
          TwoTypes(p, dom, j, k - 1, r);
        }
        DistinctConcat(before, rrs);
      } else {
        assert before + [] == before;
      }
    }
  }

  lemma TwoTypes(p: Place, dom: nat, j: nat, k: nat, r: Rr)
    requires GoodZone(p.ds, p.z) && dom < |p.ds| && j < k < |p.ds[dom].rrsets|
    requires p.ds[dom].rrsets[j].zone == p.z && p.ds[dom].rrsets[k].zone == p.z && r in p.ds[dom].rrsets[j].rrs
    ensures r !in p.ds[dom].rrsets[k].rrs
  {
    RrsetIsGood(p, dom, j);
    RrsetIsGood(p, dom, k);
    assert GoodDomain(p.ds[dom], p.z);
    TypesDiffer(p.ds[dom].rrsets, p.z, j, k);
  }

  /** The record is in the RRset `j` of the domain `d`, which is sent. */
  ghost predicate SentFrom(p: Place, d: nat, j: nat, r: Rr) {
    d < |p.ds| && j < |p.ds[d].rrsets| && Sent(p, d, j) && r in p.ds[d].rrsets[j].rrs
  }

  /** The records sent from the domains before `dom`. */
  lemma {:induction false} InZoneOut(p: Place, dom: nat, r: Rr)
    requires dom <= |p.ds|
    ensures r in ZoneOut(p, dom) <==> exists d, j :: p.apex <= d < dom && SentFrom(p, d, j, r)
  {
    if dom > p.apex {
      InZoneOut(p, dom - 1, r);
      InOneDomain(p, dom - 1, r);
    }
  }

  lemma InOneDomain(p: Place, dom: nat, r: Rr)
    requires dom < |p.ds|
    ensures r in DomainOut(p, dom, |p.ds[dom].rrsets|) <==> exists j :: SentFrom(p, dom, j, r)
  {
    InDomainOut(p, dom, |p.ds[dom].rrsets|, r);
    if r in DomainOut(p, dom, |p.ds[dom].rrsets|) {
      var j :| 0 <= j < |p.ds[dom].rrsets| && Sent(p, dom, j) && r in p.ds[dom].rrsets[j].rrs;
      assert SentFrom(p, dom, j, r);
    }
  }

  lemma OwnerIs(p: Place, d: nat, j: nat, r: Rr)
    requires GoodZone(p.ds, p.z) && d < |p.ds| && j < |p.ds[d].rrsets| && p.ds[d].rrsets[j].zone == p.z
    requires r in p.ds[d].rrsets[j].rrs
    ensures r.owner == p.ds[d].name
  {
    RrsetIsGood(p, d, j);
  }

  /** No record is sent from two domains. */
  lemma OneDomain(p: Place, d: nat, j: nat, e: nat, i: nat, r: Rr)
    requires GoodZone(p.ds, p.z) && d < e < |p.ds| && SentFrom(p, d, j, r)
    ensures !SentFrom(p, e, i, r)
  {
    OwnerIs(p, d, j, r);
    if SentFrom(p, e, i, r) {
      OwnerIs(p, e, i, r);
      Total(p.ds[d].name, p.ds[e].name);
    }
  }

  lemma OtherDomain(p: Place, dom: nat, r: Rr)
    requires GoodZone(p.ds, p.z) && dom < |p.ds| && r in ZoneOut(p, dom)
    ensures r !in DomainOut(p, dom, |p.ds[dom].rrsets|)
  {
    InZoneOut(p, dom, r);
    var d, j :| p.apex <= d < dom && SentFrom(p, d, j, r);
    InDomainOut(p, dom, |p.ds[dom].rrsets|, r);
    forall i | 0 <= i < |p.ds[dom].rrsets| && Sent(p, dom, i)
      ensures r !in p.ds[dom].rrsets[i].rrs
    {
      OneDomain(p, d, j, dom, i, r);
    }
  }

  lemma {:induction false} ZoneOutDistinct(p: Place, dom: nat)
    requires GoodZone(p.ds, p.z) && dom <= |p.ds|
    ensures Distinct(ZoneOut(p, dom))
  {
    if dom > p.apex {
      ZoneOutDistinct(p, dom - 1);
      DomainOutDistinct(p, dom - 1, |p.ds[dom - 1].rrsets|);
      var before, here := ZoneOut(p, dom - 1), DomainOut(p, dom - 1, |p.ds[dom - 1].rrsets|);
      forall r | r in before
        ensures r !in here
      {
        OtherDomain(p, dom - 1, r);
      }
      DistinctConcat(before, here);
    }
  }

  /** The record is of this zone, at a name at or below its apex. */
  ghost predicate IsOfZone(p: Place, r: Rr)
    requires p.apex < |p.ds|
  {
    exists d, j :: HeldAt(p, d, j, r)
  }

  ghost predicate HeldAt(p: Place, d: nat, j: nat, r: Rr)
    requires p.apex < |p.ds|
  {
    && d < |p.ds| && Below(p, d) && j < |p.ds[d].rrsets|
    && p.ds[d].rrsets[j].zone == p.z && r in p.ds[d].rrsets[j].rrs
  }

  /** A transfer sends the SOA first and last, and between them every record at
      or below the apex that belongs to the zone and is not its SOA, once each;
      records of other zones are not sent. */
  lemma StreamIsZone(p: Place, r: Rr)
    requires IsPlace(p) && GoodZone(p.ds, p.z)
    ensures Distinct(Stream(p)[..|Stream(p)| - 1]) && Stream(p)[|Stream(p)| - 1] == Stream(p)[0] == Soa(p)
    ensures r in Stream(p) <==> IsOfZone(p, r)
  {
    var e := End(p, p.apex);
    var body := ZoneOut(p, e);
    assert Stream(p)[..|Stream(p)| - 1] == [Soa(p)] + body;
    ZoneOutDistinct(p, e);
    SoaNotInBody(p, e);
    DistinctConcat([Soa(p)], body);
    assert r in Stream(p) <==> r == Soa(p) || r in body;
    BodyIsOfZone(p, r);
    ZoneIsInBody(p, r);
  }

  lemma SoaNotFrom(p: Place, d: nat, j: nat)
    requires IsPlace(p) && GoodZone(p.ds, p.z) && p.apex <= d < |p.ds|
    ensures !SentFrom(p, d, j, Soa(p))
  {
    var soa := Soa(p);
    OwnerIs(p, p.apex, p.soaIx, soa);
    if SentFrom(p, d, j, soa) {
      OwnerIs(p, d, j, soa);
      Total(p.ds[p.apex].name, p.ds[d].name);
      TwoTypes(p, d, if j < p.soaIx then j else p.soaIx, if j < p.soaIx then p.soaIx else j, soa);
    }
  }

  lemma SoaNotInBody(p: Place, e: nat)
    requires IsPlace(p) && GoodZone(p.ds, p.z) && e <= |p.ds|
    ensures Soa(p) !in ZoneOut(p, e)
  {
    InZoneOut(p, e, Soa(p));
    forall d, j | p.apex <= d < e
      ensures !SentFrom(p, d, j, Soa(p))
    {
      SoaNotFrom(p, d, j);
    }
  }

  lemma BodyIsOfZone(p: Place, r: Rr)
    requires IsPlace(p)
    ensures IsOfZone(p, Soa(p))
    ensures r in ZoneOut(p, End(p, p.apex)) ==> IsOfZone(p, r)
  {
    assert HeldAt(p, p.apex, p.soaIx, Soa(p));
    var e := End(p, p.apex);
    InZoneOut(p, e, r);
    if r in ZoneOut(p, e) {
      var d, j :| p.apex <= d < e && SentFrom(p, d, j, r);
      assert HeldAt(p, d, j, r);
    }
  }

  lemma ZoneIsInBody(p: Place, r: Rr)
    requires IsPlace(p) && Sorted(p.ds)
    ensures IsOfZone(p, r) ==> r == Soa(p) || r in ZoneOut(p, End(p, p.apex))
  {
    if IsOfZone(p, r) {
      var d, j :| HeldAt(p, d, j, r);
      HeldIsInBody(p, d, j, r);
    }
  }

  lemma HeldIsInBody(p: Place, d: nat, j: nat, r: Rr)
    requires IsPlace(p) && Sorted(p.ds) && HeldAt(p, d, j, r)
    ensures r == Soa(p) || r in ZoneOut(p, End(p, p.apex))
  {
    InTheBlock(p, d);
    if Sent(p, d, j) {
      IsInZoneOut(p, End(p, p.apex), d, j, r);
    }
  }

  lemma IsInZoneOut(p: Place, e: nat, d: nat, j: nat, r: Rr)
    requires p.apex <= d < e <= |p.ds| && SentFrom(p, d, j, r)
    ensures r in ZoneOut(p, e)
  {
    InZoneOut(p, e, r);
  }

  /** All subdomains of the apex are in one block behind it. */
  lemma InTheBlock(p: Place, d: nat)
    requires IsPlace(p) && Sorted(p.ds) && d < |p.ds| && Below(p, d)
    ensures p.apex <= d < End(p, p.apex)
  {
    BelowIsAfter(p.ds[d].name, p.ds[p.apex].name);
    if d < p.apex {
      Total(p.ds[d].name, p.ds[p.apex].name);
      assert false;
    }
    if d >= End(p, p.apex) {
      var e := End(p, p.apex);
      assert LessEq(p.ds[p.apex].name, p.ds[e].name) && LessEq(p.ds[e].name, p.ds[d].name);
      Contiguous(p.ds[p.apex].name, p.ds[e].name, p.ds[d].name);
      assert false;
    }
  }
}
