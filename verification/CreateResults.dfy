/** `ixfr_create_perform`: what creating a difference yields, for whole zones. */
module CreateResults {
  import opened Names
  import opened Sequences
  import opened Records
  import opened ZoneTree
  import opened TransferResults
  import opened Diff
  import opened Create
  import opened Creator
  import IxfrChain

  // ----- the one SOA record of the old zone is found

  lemma {:induction false} InSoasOf(s: seq<Rr>, r: Rr)
    ensures r in SoasOf(s) <==> r in s && IsSoa(r)
  {
    if s != [] {
      InSoasOf(s[1..], r);
      assert s == [s[0]] + s[1..];
    }
  }

  lemma {:induction false} InRrsetSoas(o: seq<Rrset>, r: Rr)
    ensures r in RrsetSoas(o) <==> r in RrsetRecords(o) && IsSoa(r)
  {
    if o != [] {
      InRrsetSoas(o[1..], r);
      InSoasOf(o[0].rrs, r);
      assert o == [o[0]] + o[1..];
    }
  }

  lemma {:induction false} InSpoolSoas(ds: seq<Domain>, z: nat, r: Rr)
    requires Spooled(ds, z)
    ensures r in SpoolSoas(ds) <==> r in ZoneRecords(ds, z) && IsSoa(r)
  {
    if ds != [] {
      InSpoolSoas(ds[1..], z, r);
      InRrsetSoas(ds[0].rrsets, r);
    }
  }

  lemma {:induction false} DistinctSoasOf(s: seq<Rr>)
    requires Distinct(s)
    ensures Distinct(SoasOf(s))
  {
    if s != [] {
      DistinctSoasOf(s[1..]);
      InSoasOf(s[1..], s[0]);
      assert s[0] !in s[1..];
    }
  }

  lemma {:induction false} DistinctRrsetSoas(name: Name, o: seq<Rrset>)
    requires GoodRrsets(name, o)
    ensures Distinct(RrsetSoas(o))
  {
    if o != [] {
      GoodTail(name, o);
      DistinctRrsetSoas(name, o[1..]);
      DistinctSoasOf(o[0].rrs);
      forall r | r in SoasOf(o[0].rrs)
        ensures r !in RrsetSoas(o[1..])
      {
        InSoasOf(o[0].rrs, r);
        InRrsetSoas(o[1..], r);
        RecordsSplit(name, o, r);
      }
      DistinctConcat(SoasOf(o[0].rrs), RrsetSoas(o[1..]));
    }
  }

  lemma {:induction false} DistinctSpoolSoas(ds: seq<Domain>, z: nat)
    requires GoodZone(ds, z) && Spooled(ds, z)
    ensures Distinct(SpoolSoas(ds))
  {
    if ds != [] {
      AfterFirst(ds, z);
      DomainOwner(ds[0], z);
      DistinctSpoolSoas(ds[1..], z);
      DistinctRrsetSoas(ds[0].name, ds[0].rrsets);
      forall r | r in RrsetSoas(ds[0].rrsets)
        ensures r !in SpoolSoas(ds[1..])
      {
        InRrsetSoas(ds[0].rrsets, r);
        InSpoolSoas(ds[1..], z, r);
      }
      DistinctConcat(RrsetSoas(ds[0].rrsets), SpoolSoas(ds[1..]));
    }
  }

  lemma OneSoa(ds: seq<Domain>, z: nat, apex: Name, soa: Rr)
    requires GoodZone(ds, z) && Spooled(ds, z) && IsZone(ZoneRecords(ds, z), apex, soa)
    ensures SpoolSoas(ds) == [soa]
  {
    DistinctSpoolSoas(ds, z);
    InSpoolSoas(ds, z, soa);
    var soas := SpoolSoas(ds);
    forall i | 0 <= i < |soas|
      ensures soas[i] == soa
    {
      InSpoolSoas(ds, z, soas[i]);
    }
    AllEqual(soas, soa);
  }

  function At<T>(s: seq<T>, i: nat, default: T): T {
    if i < |s| then s[i] else default
  }

  lemma AllEqual<T>(s: seq<T>, x: T)
    requires Distinct(s) && x in s
    requires forall i :: 0 <= i < |s| ==> s[i] == x
    ensures s == [x]
  {
    var first, second := At(s, 0, x), At(s, 1, x);
  }

  // ----- serial arithmetic

  /** The serial is not the same and does not move backwards. */
  predicate Forward(oldSerial: nat, newSerial: nat) {
    newSerial != oldSerial && IxfrChain.CompareSerial(newSerial, oldSerial) >= 0
  }

  /** That is a step of at most half the circle of serials. */
  lemma ForwardIs(oldsoa: Rr, newsoa: Rr)
    requires SoaShaped(oldsoa.rdata) && SoaShaped(newsoa.rdata)
    ensures var a, b := Serial(oldsoa.rdata), Serial(newsoa.rdata);
            Forward(a, b) <==> 0 < IxfrChain.Ahead(a, b) <= 0x8000_0000
  {
    SerialFits(oldsoa.rdata);
    SerialFits(newsoa.rdata);
    IxfrChain.CompareIs(Serial(newsoa.rdata), Serial(oldsoa.rdata));
    IxfrChain.CompareIs(Serial(oldsoa.rdata), Serial(newsoa.rdata));
  }

  // ----- the whole creation

  /** The difference that the walk over the two zones stores. */
  ghost function TheDelta(oldZone: seq<Domain>, newZone: seq<Domain>, z: nat, oldsoa: Rr, newsoa: Rr): Delta {
    Delta(oldsoa, newsoa, WalkDel(Spool(oldZone, z), newZone, z), WalkAdd(Spool(oldZone, z), newZone, z))
  }

  /** The limit on its size; 0 is none. */
  ghost predicate TooLarge(d: Delta, overhead: nat, maxSize: nat) {
    maxSize != 0 && FullSize(overhead, d.newsoa, Stored(d.del, d.add, [d.oldsoa])) > maxSize
  }

  /** It is exactly the difference of the zones' records. */
  lemma TheDeltaIsDelta(oldZone: seq<Domain>, newZone: seq<Domain>, z: nat, oldsoa: Rr, newsoa: Rr)
    requires GoodZone(oldZone, z) && GoodZone(newZone, z)
    ensures IsDelta(TheDelta(oldZone, newZone, z, oldsoa, newsoa), ZoneRecords(oldZone, z), ZoneRecords(newZone, z))
  {
    SpoolKeeps(oldZone, z);
    WalkIsDelta(Spool(oldZone, z), newZone, z, oldsoa, newsoa);
  }

  /** `ixfr_create_start`, `ixfr_create_perform` and the size test of
      `ixfr_create_finishup`: what is made is the exact difference of the
      zones' records, and it is refused exactly when it is on disk already,
      the serial does not move forward by up to half the circle, or it is too large with the SOA records
      that end its sections. */
  method PerformCreate(oldZone: seq<Domain>, newZone: seq<Domain>, z: nat,
                       oldsoa: Rr, newsoa: Rr, ghost apex: Name,
                       overhead: nat, maxSize: nat, alreadyDone: bool) returns (r: Option<Delta>)
    requires GoodZone(oldZone, z) && GoodZone(newZone, z)
    requires IsZone(ZoneRecords(oldZone, z), apex, oldsoa) && IsZone(ZoneRecords(newZone, z), apex, newsoa)
    ensures var d := TheDelta(oldZone, newZone, z, oldsoa, newsoa);
            && IsDelta(d, ZoneRecords(oldZone, z), ZoneRecords(newZone, z))
            && (r == Some(d) <==>
                  && 0 < IxfrChain.Ahead(Serial(oldsoa.rdata), Serial(newsoa.rdata)) <= 0x8000_0000
                  && !alreadyDone && !TooLarge(d, overhead, maxSize))
            && (r == Some(d) || r == None)
  {
    TheDeltaIsDelta(oldZone, newZone, z, oldsoa, newsoa);
    ForwardIs(oldsoa, newsoa);
    var spool := SpoolDomains(oldZone, z);
    SpoolKeeps(oldZone, z);
    if !Forward(Serial(oldsoa.rdata), Serial(newsoa.rdata)) || alreadyDone {
      return None;
    }
    ZoneAllOld(spool, z);
    ZoneAllNew(newZone, z);
    OneSoa(spool, z, apex, oldsoa);
    MergeSoasAre(spool, z);
    DataSizeGrows(overhead, newsoa);
    var c := new IxfrCreate(z, spool, SizeOf(overhead, newsoa), maxSize);
    var ok := c.WalkZone(newZone);
    if !ok || c.oldsoa.None? {
      return None;
    }
    if maxSize != 0 && FullSize(overhead, newsoa, Stored(c.del, c.add, [c.oldsoa.value])) > maxSize {
      return None;
    }
    return Some(Delta(c.oldsoa.value, newsoa, c.del, c.add));
  }
}
