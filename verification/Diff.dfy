/** What the merge of ixfrcreate.c stores, as functions of the spooled old
    zone and the new zone, and the proof that it is the exact difference. */
module Diff {
  import opened Names
  import opened Sequences
  import opened Records
  import opened ZoneTree
  import opened TransferResults

  /** The store ignores SOA records in the record sections. */
  function Storable(s: seq<Rr>): seq<Rr> {
    if s == [] then [] else (if IsSoa(s[0]) then [] else [s[0]]) + Storable(s[1..])
  }

  /** `rrset_find_rdata` compares TTL and rdata. */
  predicate SameData(a: Rr, b: Rr) {
    a.ttl == b.ttl && a.rdata == b.rdata
  }

  predicate HasData(s: seq<Rr>, r: Rr) {
    exists i :: 0 <= i < |s| && SameData(s[i], r)
  }

  /** The records of `a` whose data is not in `b`. */
  function OnlyIn(a: seq<Rr>, b: seq<Rr>): seq<Rr> {
    if a == [] then [] else (if HasData(b, a[0]) then [] else [a[0]]) + OnlyIn(a[1..], b)
  }

  /** Deletions at a name that is in both zones. */
  function DomainDel(o: seq<Rrset>, d: Domain, z: nat): seq<Rr> {
    if o == [] then []
    else
      var i := FindRrset(d.rrsets, z, o[0].typ);
      Storable(if i == -1 then o[0].rrs else OnlyIn(o[0].rrs, d.rrsets[i].rrs)) + DomainDel(o[1..], d, z)
  }

  /** Additions in the RRsets that are in both zones. */
  function CommonAdd(o: seq<Rrset>, d: Domain, z: nat): seq<Rr> {
    if o == [] then []
    else
      var i := FindRrset(d.rrsets, z, o[0].typ);
      (if i == -1 then [] else Storable(OnlyIn(d.rrsets[i].rrs, o[0].rrs))) + CommonAdd(o[1..], d, z)
  }

  /** The types that are in both zones. */
  function Marked(o: seq<Rrset>, d: Domain, z: nat): seq<nat> {
    if o == [] then []
    else (if FindRrset(d.rrsets, z, o[0].typ) == -1 then [] else [o[0].typ]) + Marked(o[1..], d, z)
  }

  /** The RRsets of zone `z` whose type is not in `marks`. */
  function NewTypes(rrsets: seq<Rrset>, z: nat, marks: seq<nat>): seq<Rr> {
    if rrsets == [] then []
    else
      (if rrsets[0].zone != z || rrsets[0].typ in marks then [] else Storable(rrsets[0].rrs))
      + NewTypes(rrsets[1..], z, marks)
  }

  function DomainAdd(o: seq<Rrset>, d: Domain, z: nat): seq<Rr> {
    CommonAdd(o, d, z) + NewTypes(d.rrsets, z, Marked(o, d, z))
  }

  /** All records of a spooled name. */
  function DelAll(o: seq<Rrset>): seq<Rr> {
    if o == [] then [] else Storable(o[0].rrs) + DelAll(o[1..])
  }

  // ----- SOA records on the spool

  function SoasOf(s: seq<Rr>): seq<Rr> {
    if s == [] then [] else (if IsSoa(s[0]) then [s[0]] else []) + SoasOf(s[1..])
  }

  function RrsetSoas(o: seq<Rrset>): seq<Rr> {
    if o == [] then [] else SoasOf(o[0].rrs) + RrsetSoas(o[1..])
  }

  function SpoolSoas(ds: seq<Domain>): seq<Rr> {
    if ds == [] then [] else RrsetSoas(ds[0].rrsets) + SpoolSoas(ds[1..])
  }

  // ----- the merge, apart from what is done at a name

  /** What is stored for a name in the old zone only, in both, in the new only. */
  datatype Parts = Parts(
    delOld: Domain -> seq<Rr>,
    soas: Domain -> seq<Rr>,
    delBoth: (Domain, Domain) -> seq<Rr>,
    addBoth: (Domain, Domain) -> seq<Rr>,
    addNew: Domain -> seq<Rr>)

  ghost function MergeDel(o: seq<Domain>, n: seq<Domain>, p: Parts, z: nat): seq<Rr>
    decreases |o| + |n|
  {
    if n == [] then
      if o == [] then [] else p.delOld(o[0]) + MergeDel(o[1..], [], p, z)
    else if OfZone(n[0].rrsets, z) == [] then MergeDel(o, n[1..], p, z)
    else if o != [] && Less(o[0].name, n[0].name) then p.delOld(o[0]) + MergeDel(o[1..], n, p, z)
    else if o != [] && o[0].name == n[0].name then p.delBoth(o[0], n[0]) + MergeDel(o[1..], n[1..], p, z)
    else MergeDel(o, n[1..], p, z)
  }

  ghost function MergeAdd(o: seq<Domain>, n: seq<Domain>, p: Parts, z: nat): seq<Rr>
    decreases |o| + |n|
  {
    if n == [] then []
    else if OfZone(n[0].rrsets, z) == [] then MergeAdd(o, n[1..], p, z)
    else if o != [] && Less(o[0].name, n[0].name) then MergeAdd(o[1..], n, p, z)
    else if o != [] && o[0].name == n[0].name then p.addBoth(o[0], n[0]) + MergeAdd(o[1..], n[1..], p, z)
    else p.addNew(n[0]) + MergeAdd(o, n[1..], p, z)
  }

  ghost function MergeSoas(o: seq<Domain>, p: Parts): seq<Rr> {
    if o == [] then [] else p.soas(o[0]) + MergeSoas(o[1..], p)
  }

  /** The parts of the difference between zones. */
  ghost function DiffParts(z: nat): Parts {
    Parts((o: Domain) => DelAll(o.rrsets),
          (o: Domain) => RrsetSoas(o.rrsets),
          (o: Domain, n: Domain) => DomainDel(o.rrsets, n, z),
          (o: Domain, n: Domain) => DomainAdd(o.rrsets, n, z),
          (n: Domain) => NewTypes(n.rrsets, z, []))
  }

  /** Names the domains whose parts a proof is about to use. */
  ghost predicate Consider(o: Domain, n: Domain) {
    true
  }

  ghost predicate AreDiffParts(p: Parts, z: nat) {
    forall o, n {:trigger Consider(o, n)} :: Consider(o, n) ==>
      && p.delOld(o) == DelAll(o.rrsets)
      && p.soas(o) == RrsetSoas(o.rrsets)
      && p.delBoth(o, n) == DomainDel(o.rrsets, n, z)
      && p.addBoth(o, n) == DomainAdd(o.rrsets, n, z)
      && p.addNew(n) == NewTypes(n.rrsets, z, [])
  }

  /** The deletions of the walk over an old and a new zone. */
  ghost function WalkDel(old': seq<Domain>, new': seq<Domain>, z: nat): seq<Rr> {
    MergeDel(old', new', DiffParts(z), z)
  }

  /** Its additions. */
  ghost function WalkAdd(old': seq<Domain>, new': seq<Domain>, z: nat): seq<Rr> {
    MergeAdd(old', new', DiffParts(z), z)
  }

  /** A spooled zone: only RRsets of the zone, and only names that have any. */
  ghost predicate Spooled(ds: seq<Domain>, z: nat) {
    forall i :: 0 <= i < |ds| ==> ds[i].rrsets != [] && OfZone(ds[i].rrsets, z) == ds[i].rrsets
  }

  // ----- membership

  lemma {:induction false} InStorable(s: seq<Rr>, r: Rr)
    ensures r in Storable(s) <==> r in s && !IsSoa(r)
  {
    if s != [] {
      InStorable(s[1..], r);
      assert s == [s[0]] + s[1..];
    }
  }

  lemma {:induction false} InOnlyIn(a: seq<Rr>, b: seq<Rr>, r: Rr)
    ensures r in OnlyIn(a, b) <==> r in a && !HasData(b, r)
  {
    if a != [] {
      InOnlyIn(a[1..], b, r);
      assert a == [a[0]] + a[1..];
    }
  }

  lemma HasDataIsMember(name: Name, typ: nat, s: seq<Rr>, r: Rr)
    requires forall k :: 0 <= k < |s| ==> InRrset(name, typ, s[k])
    requires InRrset(name, typ, r)
    ensures HasData(s, r) <==> r in s
  {
    if i :| 0 <= i < |s| && SameData(s[i], r) {
      assert s[i] == r;
    }
  }

  /** Membership goes through the one RRset of the record's type. */
  lemma InRrsets(name: Name, rrsets: seq<Rrset>, s: Rrset, r: Rr)
    requires GoodRrsets(name, rrsets) && s in rrsets && r.typ == s.typ
    ensures r in RrsetRecords(rrsets) <==> r in s.rrs
  {
    if r in RrsetRecords(rrsets) {
      var t :| t in rrsets && r in t.rrs;
      assert GoodRrset(name, t);
      var i :| 0 <= i < |rrsets| && rrsets[i] == s;
      var j :| 0 <= j < |rrsets| && rrsets[j] == t;
      assert i == j;
    }
  }

  lemma InDomain(d: Domain, z: nat, r: Rr)
    requires GoodDomain(d, z)
    ensures var i := FindRrset(d.rrsets, z, r.typ);
            r in DomainRecords(d, z) <==> i != -1 && r in d.rrsets[i].rrs
  {
    var i := FindRrset(d.rrsets, z, r.typ);
    if i != -1 {
      OfZoneMember(d.rrsets, z, d.rrsets[i]);
      InRrsets(d.name, OfZone(d.rrsets, z), d.rrsets[i], r);
    } else if r in DomainRecords(d, z) {
      var s :| s in OfZone(d.rrsets, z) && r in s.rrs;
      assert GoodRrset(d.name, s);
      OfZoneMember(d.rrsets, z, s);
      assert false;
    }
  }

  /** Inside one RRset the kept records are the difference. */
  lemma RrsetDifference(name: Name, typ: nat, a: seq<Rr>, b: seq<Rr>, r: Rr)
    requires forall k :: 0 <= k < |a| ==> InRrset(name, typ, a[k])
    requires forall k :: 0 <= k < |b| ==> InRrset(name, typ, b[k])
    ensures r in Storable(OnlyIn(a, b)) <==> r in a && r !in b && !IsSoa(r)
  {
    InStorable(OnlyIn(a, b), r);
    InOnlyIn(a, b, r);
    if r in a {
      HasDataIsMember(name, typ, b, r);
    }
  }

  ghost predicate TypeIn(o: seq<Rrset>, typ: nat) {
    exists s :: s in o && s.typ == typ
  }

  lemma GoodTail(name: Name, o: seq<Rrset>)
    requires GoodRrsets(name, o) && o != []
    ensures GoodRrsets(name, o[1..]) && !TypeIn(o[1..], o[0].typ) && GoodRrset(name, o[0])
  {
    assert forall s :: s in o[1..] ==> exists j :: 1 <= j < |o| && o[j] == s;
  }

  lemma RecordsSplit(name: Name, o: seq<Rrset>, r: Rr)
    requires GoodRrsets(name, o) && o != []
    ensures r in RrsetRecords(o) <==> r in o[0].rrs || r in RrsetRecords(o[1..])
    ensures r in o[0].rrs ==> r.typ == o[0].typ && r.owner == name
    ensures r in RrsetRecords(o[1..]) ==> r.typ != o[0].typ
  {
    assert o == [o[0]] + o[1..];
    GoodTail(name, o);
    if r in RrsetRecords(o[1..]) {
      var s :| s in o[1..] && r in s.rrs;
      assert GoodRrset(name, s);
    }
  }

  lemma {:induction false} InDelAll(name: Name, o: seq<Rrset>, r: Rr)
    requires GoodRrsets(name, o)
    ensures r in DelAll(o) <==> r in RrsetRecords(o) && !IsSoa(r)
  {
    if o != [] {
      GoodTail(name, o);
      InDelAll(name, o[1..], r);
      InStorable(o[0].rrs, r);
      RecordsSplit(name, o, r);
    }
  }

  /** At a common name the deletions are old minus new. */
  lemma {:induction false} InDomainDel(o: seq<Rrset>, d: Domain, z: nat, r: Rr)
    requires GoodRrsets(d.name, o) && GoodDomain(d, z)
    ensures r in DomainDel(o, d, z) <==> r in RrsetRecords(o) && r !in DomainRecords(d, z) && !IsSoa(r)
  {
    if o != [] {
      GoodTail(d.name, o);
      InDomainDel(o[1..], d, z, r);
      RecordsSplit(d.name, o, r);
      InStorable(o[0].rrs, r);
      var i := FindRrset(d.rrsets, z, o[0].typ);
      if i != -1 {
        FoundGood(d, z, o[0].typ);
        RrsetDifference(d.name, o[0].typ, o[0].rrs, d.rrsets[i].rrs, r);
      }
      if r in o[0].rrs {
        InDomain(d, z, r);
      }
    }
  }

  lemma FoundGood(d: Domain, z: nat, typ: nat)
    requires GoodDomain(d, z) && FindRrset(d.rrsets, z, typ) != -1
    ensures GoodRrset(d.name, d.rrsets[FindRrset(d.rrsets, z, typ)])
  {
    OfZoneMember(d.rrsets, z, d.rrsets[FindRrset(d.rrsets, z, typ)]);
  }

  lemma {:induction false} InCommonAdd(o: seq<Rrset>, d: Domain, z: nat, r: Rr)
    requires GoodRrsets(d.name, o) && GoodDomain(d, z)
    ensures r in CommonAdd(o, d, z) <==>
            TypeIn(o, r.typ) && r in DomainRecords(d, z) && r !in RrsetRecords(o) && !IsSoa(r)
  {
    if o != [] {
      GoodTail(d.name, o);
      InCommonAdd(o[1..], d, z, r);
      RecordsSplit(d.name, o, r);
      assert TypeIn(o, r.typ) <==> o[0].typ == r.typ || TypeIn(o[1..], r.typ) by {
        assert o == [o[0]] + o[1..];
      }
      InDomain(d, z, r);
      var i := FindRrset(d.rrsets, z, o[0].typ);
      if i != -1 {
        FoundGood(d, z, o[0].typ);
        RrsetDifference(d.name, o[0].typ, d.rrsets[i].rrs, o[0].rrs, r);
      }
    }
  }

  lemma {:induction false} InMarked(o: seq<Rrset>, d: Domain, z: nat, typ: nat)
    ensures typ in Marked(o, d, z) <==> TypeIn(o, typ) && FindRrset(d.rrsets, z, typ) != -1
  {
    if o != [] {
      InMarked(o[1..], d, z, typ);
      assert TypeIn(o, typ) <==> o[0].typ == typ || TypeIn(o[1..], typ) by {
        assert o == [o[0]] + o[1..];
      }
    }
  }

  lemma {:induction false} InNewTypes(name: Name, rrsets: seq<Rrset>, z: nat, marks: seq<nat>, r: Rr)
    requires GoodRrsets(name, OfZone(rrsets, z))
    ensures r in NewTypes(rrsets, z, marks) <==>
            r in RrsetRecords(OfZone(rrsets, z)) && r.typ !in marks && !IsSoa(r)
  {
    if rrsets != [] {
      var ss := OfZone(rrsets, z);
      if rrsets[0].zone == z {
        assert ss[1..] == OfZone(rrsets[1..], z);
        GoodTail(name, ss);
        RecordsSplit(name, ss, r);
        InStorable(rrsets[0].rrs, r);
      } else {
        assert ss == OfZone(rrsets[1..], z);
      }
      InNewTypes(name, rrsets[1..], z, marks, r);
    }
  }

  /** At a common name the additions are new minus old. */
  lemma InDomainAdd(o: seq<Rrset>, d: Domain, z: nat, r: Rr)
    requires GoodRrsets(d.name, o) && GoodDomain(d, z)
    ensures r in DomainAdd(o, d, z) <==> r in DomainRecords(d, z) && r !in RrsetRecords(o) && !IsSoa(r)
  {
    InCommonAdd(o, d, z, r);
    InNewTypes(d.name, d.rrsets, z, Marked(o, d, z), r);
    InMarked(o, d, z, r.typ);
    InDomain(d, z, r);
    if r in RrsetRecords(o) {
      var s :| s in o && r in s.rrs;
      assert GoodRrset(d.name, s);
    }
  }

  // ----- no record is stored twice

  lemma {:induction false} DistinctStorable(s: seq<Rr>)
    requires Distinct(s)
    ensures Distinct(Storable(s))
  {
    if s != [] {
      DistinctStorable(s[1..]);
      InStorable(s[1..], s[0]);
      assert s[0] !in s[1..];
    }
  }

  lemma {:induction false} DistinctOnlyIn(a: seq<Rr>, b: seq<Rr>)
    requires Distinct(a)
    ensures Distinct(OnlyIn(a, b))
  {
    if a != [] {
      DistinctOnlyIn(a[1..], b);
      InOnlyIn(a[1..], b, a[0]);
      assert a[0] !in a[1..];
    }
  }

  lemma {:induction false} DistinctDelAll(name: Name, o: seq<Rrset>)
    requires GoodRrsets(name, o)
    ensures Distinct(DelAll(o))
  {
    if o != [] {
      GoodTail(name, o);
      DistinctDelAll(name, o[1..]);
      DistinctStorable(o[0].rrs);
      forall x | x in Storable(o[0].rrs)
        ensures x !in DelAll(o[1..])
      {
        InStorable(o[0].rrs, x);
        InDelAll(name, o[1..], x);
        RecordsSplit(name, o, x);
      }
      DistinctConcat(Storable(o[0].rrs), DelAll(o[1..]));
    }
  }

  lemma {:induction false} DistinctDomainDel(o: seq<Rrset>, d: Domain, z: nat)
    requires GoodRrsets(d.name, o) && GoodDomain(d, z)
    ensures Distinct(DomainDel(o, d, z))
  {
    if o != [] {
      GoodTail(d.name, o);
      DistinctDomainDel(o[1..], d, z);
      var i := FindRrset(d.rrsets, z, o[0].typ);
      var kept := if i == -1 then o[0].rrs else OnlyIn(o[0].rrs, d.rrsets[i].rrs);
      if i != -1 {
        DistinctOnlyIn(o[0].rrs, d.rrsets[i].rrs);
      }
      DistinctStorable(kept);
      forall x | x in Storable(kept)
        ensures x !in DomainDel(o[1..], d, z)
      {
        InStorable(kept, x);
        if i != -1 {
          InOnlyIn(o[0].rrs, d.rrsets[i].rrs, x);
        }
        RecordsSplit(d.name, o, x);
        InDomainDel(o[1..], d, z, x);
      }
      DistinctConcat(Storable(kept), DomainDel(o[1..], d, z));
    }
  }

  lemma {:induction false} DistinctCommonAdd(o: seq<Rrset>, d: Domain, z: nat)
    requires GoodRrsets(d.name, o) && GoodDomain(d, z)
    ensures Distinct(CommonAdd(o, d, z))
  {
    if o != [] {
      GoodTail(d.name, o);
      DistinctCommonAdd(o[1..], d, z);
      var i := FindRrset(d.rrsets, z, o[0].typ);
      if i != -1 {
        FoundGood(d, z, o[0].typ);
        var kept := OnlyIn(d.rrsets[i].rrs, o[0].rrs);
        DistinctOnlyIn(d.rrsets[i].rrs, o[0].rrs);
        DistinctStorable(kept);
        forall x | x in Storable(kept)
          ensures x !in CommonAdd(o[1..], d, z)
        {
          RrsetDifference(d.name, o[0].typ, d.rrsets[i].rrs, o[0].rrs, x);
          InCommonAdd(o[1..], d, z, x);
        }
        DistinctConcat(Storable(kept), CommonAdd(o[1..], d, z));
      }
    }
  }

  lemma {:induction false} DistinctNewTypes(name: Name, rrsets: seq<Rrset>, z: nat, marks: seq<nat>)
    requires GoodRrsets(name, OfZone(rrsets, z))
    ensures Distinct(NewTypes(rrsets, z, marks))
  {
    if rrsets != [] {
      var ss := OfZone(rrsets, z);
      if rrsets[0].zone == z {
        assert ss[1..] == OfZone(rrsets[1..], z);
        GoodTail(name, ss);
        DistinctNewTypes(name, rrsets[1..], z, marks);
        DistinctStorable(rrsets[0].rrs);
        forall x | x in Storable(rrsets[0].rrs)
          ensures x !in NewTypes(rrsets[1..], z, marks)
        {
          InStorable(rrsets[0].rrs, x);
          RecordsSplit(name, ss, x);
          InNewTypes(name, rrsets[1..], z, marks, x);
        }
        DistinctConcat(Storable(rrsets[0].rrs), NewTypes(rrsets[1..], z, marks));
      } else {
        assert ss == OfZone(rrsets[1..], z);
        DistinctNewTypes(name, rrsets[1..], z, marks);
      }
    }
  }

  lemma DistinctDomainAdd(o: seq<Rrset>, d: Domain, z: nat)
    requires GoodRrsets(d.name, o) && GoodDomain(d, z)
    ensures Distinct(DomainAdd(o, d, z))
  {
    DistinctCommonAdd(o, d, z);
    var marks := Marked(o, d, z);
    DistinctNewTypes(d.name, d.rrsets, z, marks);
    forall x | x in CommonAdd(o, d, z)
      ensures x !in NewTypes(d.rrsets, z, marks)
    {
      InCommonAdd(o, d, z, x);
      InNewTypes(d.name, d.rrsets, z, marks, x);
      InMarked(o, d, z, x.typ);
      InDomain(d, z, x);
    }
    DistinctConcat(CommonAdd(o, d, z), NewTypes(d.rrsets, z, marks));
  }

  // ----- the whole walk

  /** What the walk stores: deletions are old minus new, additions are new
      minus old, TTLs included, without the SOA records. */
  lemma {:induction false} WalkExact(old': seq<Domain>, new': seq<Domain>, z: nat, r: Rr)
    requires GoodZone(old', z) && GoodZone(new', z) && Spooled(old', z)
    ensures r in WalkDel(old', new', z) <==>
            r in ZoneRecords(old', z) && r !in ZoneRecords(new', z) && !IsSoa(r)
    ensures r in WalkAdd(old', new', z) <==>
            r in ZoneRecords(new', z) && r !in ZoneRecords(old', z) && !IsSoa(r)
    decreases |old'| + |new'|
  {
    if old' != [] {
      AfterFirst(old', z);
      DomainOwner(old'[0], z);
    }
    if new' != [] {
      AfterFirst(new', z);
      DomainOwner(new'[0], z);
    }
    if new' == [] {
      if old' != [] {
        WalkExact(old'[1..], [], z, r);
        InDelAll(old'[0].name, old'[0].rrsets, r);
      }
    } else if OfZone(new'[0].rrsets, z) == [] {
      WalkExact(old', new'[1..], z, r);
    } else if old' != [] && Less(old'[0].name, new'[0].name) {
      BeforeAll(new', z, old'[0].name);
      WalkExact(old'[1..], new', z, r);
      InDelAll(old'[0].name, old'[0].rrsets, r);
    } else if old' != [] && old'[0].name == new'[0].name {
      WalkExact(old'[1..], new'[1..], z, r);
      InDomainDel(old'[0].rrsets, new'[0], z, r);
      InDomainAdd(old'[0].rrsets, new'[0], z, r);
    } else {
      if old' != [] {
        Total(old'[0].name, new'[0].name);
      }
      BeforeAll(old', z, new'[0].name);
      WalkExact(old', new'[1..], z, r);
      InNewTypes(new'[0].name, new'[0].rrsets, z, [], r);
    }
  }

  /** Every record is stored once, because every name is visited once. */
  lemma {:induction false} WalkDistinct(old': seq<Domain>, new': seq<Domain>, z: nat)
    requires GoodZone(old', z) && GoodZone(new', z) && Spooled(old', z)
    ensures Distinct(WalkDel(old', new', z)) && Distinct(WalkAdd(old', new', z))
    decreases |old'| + |new'|
  {
    if old' != [] {
      AfterFirst(old', z);
      DomainOwner(old'[0], z);
    }
    if new' != [] {
      AfterFirst(new', z);
      DomainOwner(new'[0], z);
    }
    if new' == [] {
      if old' != [] {
        WalkDistinct(old'[1..], [], z);
        DistinctDelAll(old'[0].name, old'[0].rrsets);
        forall r | r in DelAll(old'[0].rrsets)
          ensures r !in WalkDel(old'[1..], [], z)
        {
          InDelAll(old'[0].name, old'[0].rrsets, r);
          WalkExact(old'[1..], [], z, r);
        }
        DistinctConcat(DelAll(old'[0].rrsets), WalkDel(old'[1..], [], z));
      }
    } else if OfZone(new'[0].rrsets, z) == [] {
      WalkDistinct(old', new'[1..], z);
    } else if old' != [] && Less(old'[0].name, new'[0].name) {
      WalkDistinct(old'[1..], new', z);
      DistinctDelAll(old'[0].name, old'[0].rrsets);
      forall r | r in DelAll(old'[0].rrsets)
        ensures r !in WalkDel(old'[1..], new', z)
      {
        InDelAll(old'[0].name, old'[0].rrsets, r);
        WalkExact(old'[1..], new', z, r);
      }
      DistinctConcat(DelAll(old'[0].rrsets), WalkDel(old'[1..], new', z));
    } else if old' != [] && old'[0].name == new'[0].name {
      WalkDistinct(old'[1..], new'[1..], z);
      DistinctDomainDel(old'[0].rrsets, new'[0], z);
      DistinctDomainAdd(old'[0].rrsets, new'[0], z);
      forall r
        ensures r in DomainDel(old'[0].rrsets, new'[0], z) ==> r !in WalkDel(old'[1..], new'[1..], z)
        ensures r in DomainAdd(old'[0].rrsets, new'[0], z) ==> r !in WalkAdd(old'[1..], new'[1..], z)
      {
        InDomainDel(old'[0].rrsets, new'[0], z, r);
        InDomainAdd(old'[0].rrsets, new'[0], z, r);
        WalkExact(old'[1..], new'[1..], z, r);
      }
      DistinctConcat(DomainDel(old'[0].rrsets, new'[0], z), WalkDel(old'[1..], new'[1..], z));
      DistinctConcat(DomainAdd(old'[0].rrsets, new'[0], z), WalkAdd(old'[1..], new'[1..], z));
    } else {
      WalkDistinct(old', new'[1..], z);
      DistinctNewTypes(new'[0].name, new'[0].rrsets, z, []);
      forall r | r in NewTypes(new'[0].rrsets, z, [])
        ensures r !in WalkAdd(old', new'[1..], z)
      {
        InNewTypes(new'[0].name, new'[0].rrsets, z, [], r);
        WalkExact(old', new'[1..], z, r);
      }
      DistinctConcat(NewTypes(new'[0].rrsets, z, []), WalkAdd(old', new'[1..], z));
    }
  }

  /** So the stored difference is one that a transfer can apply. */
  lemma WalkIsDelta(old': seq<Domain>, new': seq<Domain>, z: nat, oldsoa: Rr, newsoa: Rr)
    requires GoodZone(old', z) && GoodZone(new', z) && Spooled(old', z)
    ensures IsDelta(Delta(oldsoa, newsoa, WalkDel(old', new', z), WalkAdd(old', new', z)),
                    ZoneRecords(old', z), ZoneRecords(new', z))
  {
    WalkDistinct(old', new', z);
    var d := Delta(oldsoa, newsoa, WalkDel(old', new', z), WalkAdd(old', new', z));
    var v, w := ZoneRecords(old', z), ZoneRecords(new', z);
    forall r
      ensures r in Elements(d.del) <==> r in NonSoa(v - w)
      ensures r in Elements(d.add) <==> r in NonSoa(w - v)
    {
      WalkExact(old', new', z, r);
    }
  }
}
