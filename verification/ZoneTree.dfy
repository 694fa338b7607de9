/** The domains of a zone in canonical order, each with its list of RRsets,
    as the zone walks of ixfrcreate.c, axfr.c and namedb.c see them.  A domain
    can hold RRsets of several zones. */
module ZoneTree {
  import opened Names
  import opened Records

  datatype Rrset = Rrset(zone: nat, typ: nat, rrs: seq<Rr>)

  datatype Domain = Domain(name: Name, rrsets: seq<Rrset>)

  /** The RRsets of zone `z`, in list order. */
  function OfZone(rrsets: seq<Rrset>, z: nat): seq<Rrset> {
    if rrsets == [] then []
    else (if rrsets[0].zone == z then [rrsets[0]] else []) + OfZone(rrsets[1..], z)
  }

  ghost predicate Sorted(ds: seq<Domain>) {
    forall i, j :: 0 <= i < j < |ds| ==> Less(ds[i].name, ds[j].name)
  }

  /** RRsets of one zone at one name: distinct types, distinct records. */
  ghost predicate GoodRrsets(name: Name, rrsets: seq<Rrset>) {
    && (forall i, j :: 0 <= i < j < |rrsets| ==> rrsets[i].typ != rrsets[j].typ)
    && forall i :: 0 <= i < |rrsets| ==> GoodRrset(name, rrsets[i])
  }

  ghost predicate GoodRrset(name: Name, s: Rrset) {
    && 0 < |s.rrs| <= MAX_RR_COUNT
    && (forall k :: 0 <= k < |s.rrs| ==> InRrset(name, s.typ, s.rrs[k]))
    && forall k, l :: 0 <= k < l < |s.rrs| ==> s.rrs[k] != s.rrs[l]
  }

  predicate InRrset(name: Name, typ: nat, r: Rr) {
    r.owner == name && r.typ == typ && r.klass == CLASS_IN
  }

  ghost predicate GoodDomain(d: Domain, z: nat) {
    GoodRrsets(d.name, OfZone(d.rrsets, z))
  }

  ghost predicate GoodZone(ds: seq<Domain>, z: nat) {
    Sorted(ds) && forall i :: 0 <= i < |ds| ==> GoodDomain(ds[i], z)
  }

  // ----- records

  ghost function RrsetRecords(rrsets: seq<Rrset>): set<Rr> {
    set s, r | s in rrsets && r in s.rrs :: r
  }

  ghost function DomainRecords(d: Domain, z: nat): set<Rr> {
    RrsetRecords(OfZone(d.rrsets, z))
  }

  /** The records of zone `z`. */
  ghost function ZoneRecords(ds: seq<Domain>, z: nat): set<Rr> {
    if ds == [] then {} else DomainRecords(ds[0], z) + ZoneRecords(ds[1..], z)
  }

  lemma DomainOwner(d: Domain, z: nat)
    requires GoodDomain(d, z)
    ensures forall r :: r in DomainRecords(d, z) ==> r.owner == d.name
  {
    var rrsets := OfZone(d.rrsets, z);
    forall r | r in DomainRecords(d, z)
      ensures r.owner == d.name
    {
      var s :| s in rrsets && r in s.rrs;
      assert GoodRrset(d.name, s);
    }
  }

  lemma {:induction false} ZoneOwners(ds: seq<Domain>, z: nat, r: Rr)
    requires GoodZone(ds, z) && r in ZoneRecords(ds, z)
    ensures exists i :: 0 <= i < |ds| && r.owner == ds[i].name
  {
    if r in DomainRecords(ds[0], z) {
      DomainOwner(ds[0], z);
    } else {
      ZoneOwners(ds[1..], z, r);
      var i :| 0 <= i < |ds[1..]| && r.owner == ds[1..][i].name;
      assert ds[i + 1].name == r.owner;
    }
  }

  /** No record of `ds` sits at a name before all names of `ds`. */
  lemma BeforeAll(ds: seq<Domain>, z: nat, name: Name)
    requires GoodZone(ds, z)
    requires ds != [] ==> Less(name, ds[0].name)
    ensures forall r :: r in ZoneRecords(ds, z) ==> r.owner != name
  {
    forall r | r in ZoneRecords(ds, z)
      ensures r.owner != name
    {
      ZoneOwners(ds, z, r);
      var i :| 0 <= i < |ds| && r.owner == ds[i].name;
      if i > 0 {
        Transitive(name, ds[0].name, ds[i].name);
      }
      Total(name, name);
    }
  }

  /** The names after the first come after it. */
  lemma AfterFirst(ds: seq<Domain>, z: nat)
    requires GoodZone(ds, z) && ds != []
    ensures GoodZone(ds[1..], z)
    ensures forall r :: r in ZoneRecords(ds[1..], z) ==> r.owner != ds[0].name
  {
    BeforeAll(ds[1..], z, ds[0].name);
  }

  // ----- looking up an RRset

  function FindRrset(rrsets: seq<Rrset>, z: nat, typ: nat): (i: int)
    ensures -1 <= i < |rrsets|
    ensures i >= 0 ==> rrsets[i].zone == z && rrsets[i].typ == typ
    ensures forall j :: 0 <= j < (if i >= 0 then i else |rrsets|) ==> !(rrsets[j].zone == z && rrsets[j].typ == typ)
  {
    if rrsets == [] then -1
    else if rrsets[0].zone == z && rrsets[0].typ == typ then 0
    else
      var k := FindRrset(rrsets[1..], z, typ);
      assert forall j :: 1 <= j < |rrsets| ==> rrsets[j] == rrsets[1..][j - 1];
      if k == -1 then -1 else k + 1
  }

  lemma {:induction false} OfZoneMember(rrsets: seq<Rrset>, z: nat, s: Rrset)
    ensures s in OfZone(rrsets, z) <==> s in rrsets && s.zone == z
  {
    if rrsets != [] {
      OfZoneMember(rrsets[1..], z, s);
      assert rrsets == [rrsets[0]] + rrsets[1..];
    }
  }

  /** `domain_find_rrset`. */
  method DomainFindRrset(rrsets: seq<Rrset>, z: nat, typ: nat) returns (i: int)
    ensures i == FindRrset(rrsets, z, typ)
  {
    i := 0;
    while i < |rrsets|
      invariant 0 <= i <= |rrsets|
      invariant forall j :: 0 <= j < i ==> !(rrsets[j].zone == z && rrsets[j].typ == typ)
    {
      if rrsets[i].zone == z && rrsets[i].typ == typ {
        return;
      }
      i := i + 1;
    }
    i := -1;
  }
}
