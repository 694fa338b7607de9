/** Making an incremental difference from the spooled old zone and the new
    zone in memory, after ixfrcreate.c. */
module Create {
  import opened Names
  import opened Sequences
  import opened Records
  import opened ZoneTree
  import opened TransferResults
  import opened Diff

  // ----- spooling the old zone

  function Spool(ds: seq<Domain>, z: nat): seq<Domain> {
    if ds == [] then []
    else
      var own := OfZone(ds[0].rrsets, z);
      (if own == [] then [] else [Domain(ds[0].name, own)]) + Spool(ds[1..], z)
  }

  lemma {:induction false} OfZoneTwice(rrsets: seq<Rrset>, z: nat)
    ensures OfZone(OfZone(rrsets, z), z) == OfZone(rrsets, z)
  {
    if rrsets != [] {
      OfZoneTwice(rrsets[1..], z);
      var own := OfZone(rrsets, z);
      if rrsets[0].zone == z {
        assert own[1..] == OfZone(rrsets[1..], z);
      } else {
        assert own == OfZone(rrsets[1..], z);
      }
    }
  }

  lemma SpoolHead(ds: seq<Domain>, z: nat)
    requires ds != []
    ensures var own := OfZone(ds[0].rrsets, z);
            if own == [] then Spool(ds, z) == Spool(ds[1..], z)
            else Spool(ds, z) != [] && Spool(ds, z)[0] == Domain(ds[0].name, own) && Spool(ds, z)[1..] == Spool(ds[1..], z)
  {
  }

  lemma {:induction false} SpoolNames(ds: seq<Domain>, z: nat, d: Domain)
    requires d in Spool(ds, z)
    ensures exists i :: 0 <= i < |ds| && d.name == ds[i].name
  {
    SpoolHead(ds, z);
    if d in Spool(ds[1..], z) {
      SpoolNames(ds[1..], z, d);
      var i :| 0 <= i < |ds[1..]| && d.name == ds[1..][i].name;
      assert ds[i + 1].name == d.name;
    } else {
      assert ds[0].name == d.name;
    }
  }

  lemma {:induction false} SpoolSorted(ds: seq<Domain>, z: nat)
    requires Sorted(ds)
    ensures Sorted(Spool(ds, z))
  {
    if ds != [] {
      SpoolHead(ds, z);
      SpoolSorted(ds[1..], z);
      var rest := Spool(ds[1..], z);
      forall j | 0 <= j < |rest|
        ensures Less(ds[0].name, rest[j].name)
      {
        SpoolNames(ds[1..], z, rest[j]);
        var i :| 0 <= i < |ds[1..]| && rest[j].name == ds[1..][i].name;
        assert ds[i + 1].name == rest[j].name;
      }
    }
  }

  lemma {:induction false} SpoolIsSpooled(ds: seq<Domain>, z: nat)
    ensures Spooled(Spool(ds, z), z)
  {
    if ds != [] {
      SpoolHead(ds, z);
      SpoolIsSpooled(ds[1..], z);
      OfZoneTwice(ds[0].rrsets, z);
    }
  }

  lemma {:induction false} SpoolDomainGood(ds: seq<Domain>, z: nat, i: nat)
    requires (forall j :: 0 <= j < |ds| ==> GoodDomain(ds[j], z)) && i < |Spool(ds, z)|
    ensures GoodDomain(Spool(ds, z)[i], z)
    decreases |ds|
  {
    SpoolHead(ds, z);
    OfZoneTwice(ds[0].rrsets, z);
    assert GoodDomain(ds[0], z);
    if OfZone(ds[0].rrsets, z) == [] {
      SpoolDomainGood(ds[1..], z, i);
    } else if i > 0 {
      SpoolDomainGood(ds[1..], z, i - 1);
    }
  }

  lemma {:induction false} SpoolRecords(ds: seq<Domain>, z: nat)
    ensures ZoneRecords(Spool(ds, z), z) == ZoneRecords(ds, z)
  {
    if ds != [] {
      SpoolHead(ds, z);
      SpoolRecords(ds[1..], z);
      OfZoneTwice(ds[0].rrsets, z);
    }
  }

  /** The spool holds the zone's records, in the zone's order. */
  lemma SpoolKeeps(ds: seq<Domain>, z: nat)
    requires GoodZone(ds, z)
    ensures Spooled(Spool(ds, z), z) && GoodZone(Spool(ds, z), z)
    ensures ZoneRecords(Spool(ds, z), z) == ZoneRecords(ds, z)
  {
    SpoolSorted(ds, z);
    SpoolIsSpooled(ds, z);
    SpoolRecords(ds, z);
    forall i | 0 <= i < |Spool(ds, z)|
      ensures GoodDomain(Spool(ds, z)[i], z)
    {
      SpoolDomainGood(ds, z, i);
    }
  }

  /** `spool_domains`. */
  method SpoolDomains(ds: seq<Domain>, z: nat) returns (spool: seq<Domain>)
    ensures spool == Spool(ds, z)
  {
    spool := [];
    var i := 0;
    while i < |ds|
      invariant 0 <= i <= |ds|
      invariant spool + Spool(ds[i..], z) == Spool(ds, z)
    {
      assert ds[i..][1..] == ds[i + 1..];
      var own := OfZone(ds[i].rrsets, z);
      if own != [] {
        spool := spool + [Domain(ds[i].name, own)];
      }
      i := i + 1;
    }
  }

  // ----- one more record

  lemma {:induction false} StorableSnoc(s: seq<Rr>, r: Rr)
    ensures Storable(s + [r]) == Storable(s) + if IsSoa(r) then [] else [r]
    ensures SoasOf(s + [r]) == SoasOf(s) + if IsSoa(r) then [r] else []
  {
    if s != [] {
      assert (s + [r])[1..] == s[1..] + [r];
      StorableSnoc(s[1..], r);
    }
  }

  lemma {:induction false} OnlyInSnoc(a: seq<Rr>, r: Rr, b: seq<Rr>)
    ensures OnlyIn(a + [r], b) == OnlyIn(a, b) + if HasData(b, r) then [] else [r]
  {
    if a != [] {
      assert (a + [r])[1..] == a[1..] + [r];
      OnlyInSnoc(a[1..], r, b);
    }
  }

  lemma Assoc<T>(a: seq<T>, b: seq<T>, c: seq<T>)
    ensures a + (b + c) == a + b + c
  {
  }

  // ----- sorting the marks

  ghost predicate Increasing(s: seq<nat>) {
    forall i, j :: 0 <= i < j < |s| ==> s[i] <= s[j]
  }

  /** `qsort` with `sort_uint16`. */
  method SortMarks(a: seq<nat>) returns (s: seq<nat>)
    ensures Increasing(s) && multiset(s) == multiset(a)
  {
    s := [];
    var i := 0;
    while i < |a|
      invariant 0 <= i <= |a|
      invariant Increasing(s) && multiset(s) == multiset(a[..i])
    {
      s := InsertMark(s, a[i]);
      assert a[..i + 1] == a[..i] + [a[i]];
      i := i + 1;
    }
    assert a[..i] == a;
  }

  method InsertMark(s: seq<nat>, x: nat) returns (t: seq<nat>)
    requires Increasing(s)
    ensures Increasing(t) && multiset(t) == multiset(s) + multiset{x}
  {
    var p := 0;
    while p < |s| && s[p] < x
      invariant 0 <= p <= |s|
      invariant forall k :: 0 <= k < p ==> s[k] < x
    {
      p := p + 1;
    }
    t := s[..p] + [x] + s[p..];
    Inserted(s, p, x);
  }

  lemma Inserted(s: seq<nat>, p: nat, x: nat)
    requires Increasing(s) && p <= |s| && (forall k :: 0 <= k < p ==> s[k] < x) && (p < |s| ==> x <= s[p])
    ensures var t := s[..p] + [x] + s[p..]; Increasing(t) && multiset(t) == multiset(s) + multiset{x}
  {
    TailAbove(s, p, x);
    IncreasingJoin(s[..p], [x]);
    IncreasingJoin(s[..p] + [x], s[p..]);
    SameMarks(s, p, x);
  }

  lemma TailAbove(s: seq<nat>, p: nat, x: nat)
    requires Increasing(s) && p <= |s| && (p < |s| ==> x <= s[p])
    ensures forall v :: v in s[p..] ==> x <= v
  {
    forall v | v in s[p..]
      ensures x <= v
    {
      var j :| p <= j < |s| && s[j] == v;
    }
  }

  lemma SameMarks(s: seq<nat>, p: nat, x: nat)
    requires p <= |s|
    ensures multiset(s[..p] + [x] + s[p..]) == multiset(s) + multiset{x}
  {
    assert s == s[..p] + s[p..];
  }

  lemma IncreasingJoin(a: seq<nat>, b: seq<nat>)
    requires Increasing(a) && Increasing(b) && forall u, v :: u in a && v in b ==> u <= v
    ensures Increasing(a + b)
  {
    var t := a + b;
    forall i, j | 0 <= i < j < |t|
      ensures t[i] <= t[j]
    {
      if i < |a| <= j {
        assert t[i] in a && t[j] in b;
      }
    }
  }

  lemma SortedMarks(s: seq<nat>, a: seq<nat>)
    requires Increasing(s) && multiset(s) == multiset(a) && Distinct(a)
    ensures forall i, j :: 0 <= i < j < |s| ==> s[i] < s[j]
    ensures forall m :: m in s <==> m in a
  {
    forall i, j | 0 <= i < j < |s|
      ensures s[i] < s[j]
    {
      if s[i] == s[j] {
        assert s == s[..i] + [s[i]] + s[i + 1..j] + [s[j]] + s[j + 1..];
        assert multiset(s)[s[i]] >= 2;
        DistinctOnce(a, s[i]);
      }
    }
    forall m
      ensures m in s <==> m in a
    {
      assert m in s <==> m in multiset(s);
      assert m in a <==> m in multiset(a);
    }
  }

  lemma {:induction false} DistinctOnce(a: seq<nat>, m: nat)
    requires Distinct(a)
    ensures multiset(a)[m] <= 1
  {
    if a != [] {
      DistinctOnce(a[1..], m);
      assert a == [a[0]] + a[1..];
      if m == a[0] {
        assert m !in a[1..];
      }
    }
  }

  // ----- SOA records on the spool

  lemma {:induction false} MergeSoasAre(o: seq<Domain>, z: nat)
    ensures MergeSoas(o, DiffParts(z)) == SpoolSoas(o)
  {
    if o != [] {
      MergeSoasAre(o[1..], z);
    }
  }

  // ----- well-formed domains, one by one

  ghost predicate AllOld(ds: seq<Domain>) {
    ds == [] || (GoodRrsets(ds[0].name, ds[0].rrsets) && AllOld(ds[1..]))
  }

  ghost predicate AllNew(ds: seq<Domain>, z: nat) {
    ds == [] || (GoodDomain(ds[0], z) && AllNew(ds[1..], z))
  }

  lemma {:induction false} AllOldAt(ds: seq<Domain>, i: nat)
    requires AllOld(ds) && i < |ds|
    ensures GoodRrsets(ds[i].name, ds[i].rrsets)
  {
    if i > 0 {
      AllOldAt(ds[1..], i - 1);
    }
  }

  lemma {:induction false} AllNewAt(ds: seq<Domain>, z: nat, i: nat)
    requires AllNew(ds, z) && i < |ds|
    ensures GoodDomain(ds[i], z)
  {
    if i > 0 {
      AllNewAt(ds[1..], z, i - 1);
    }
  }

  lemma {:induction false} ZoneAllNew(ds: seq<Domain>, z: nat)
    requires forall i :: 0 <= i < |ds| ==> GoodDomain(ds[i], z)
    ensures AllNew(ds, z)
  {
    if ds != [] {
      ZoneAllNew(ds[1..], z);
    }
  }

  lemma {:induction false} ZoneAllOld(ds: seq<Domain>, z: nat)
    requires forall i :: 0 <= i < |ds| ==> GoodDomain(ds[i], z)
    requires Spooled(ds, z)
    ensures AllOld(ds)
  {
    if ds != [] {
      ZoneAllOld(ds[1..], z);
      assert GoodDomain(ds[0], z);
    }
  }
}
