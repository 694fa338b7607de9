/** A primary over many updates: each new zone is compared with the one before
    it, the difference is stored, and what is stored stays a history that ends
    at the zone being served. */
module IxfrCycle {
  import opened Names
  import opened Sequences
  import opened Records
  import opened TransferResults
  import opened ZoneTree
  import opened Creator
  import opened CreateResults
  import opened Wire
  import opened RdataFields
  import opened Rdata
  import opened Applier
  import opened IxfrChain
  import opened IxfrServe
  import opened XfrCheck
  import opened XfrCheckResults
  import opened Arrival
  import opened EndToEnd
  import Apply
  import Transfer

  /** The store is a history that ends at this zone. */
  ghost predicate EndsAt(zone: ZoneIxfr, apex: Name, c: set<Rr>, soa: Rr, form: Form)
    reads zone
  {
    exists vs, soas, ds :: Tracks(zone, apex, vs, soas, ds, form) && vs[|ds|] == c && soas[|ds|] == soa
  }

  /** Every record has the layout of its type. */
  ghost predicate Writable(c: set<Rr>, form: Form) {
    forall r :: r in c ==> form.ok(r)
  }

  lemma {:induction false} AllWritable(s: seq<Rr>, form: Form)
    requires forall r :: r in s ==> form.ok(r)
    ensures AllTyped(s, form)
    decreases |s|
  {
    if s != [] {
      AllWritable(s[1..], form);
    }
  }

  lemma DeltaWritable(d: Delta, v: set<Rr>, w: set<Rr>, apex: Name, form: Form)
    requires IsDelta(d, v, w) && Writable(v, form) && Writable(w, form)
    requires IsZone(v, apex, d.oldsoa) && IsZone(w, apex, d.newsoa)
    ensures DeltaTyped(d, form)
  {
    forall r | r in d.del
      ensures form.ok(r)
    {
      assert r in Elements(d.del);
    }
    forall r | r in d.add
      ensures form.ok(r)
    {
      assert r in Elements(d.add);
    }
    AllWritable(d.del + [d.newsoa], form);
    AllWritable(d.add + [d.newsoa], form);
  }

  lemma {:induction false} AllDeltasAppend(ds: seq<Delta>, d: Delta, form: Form)
    requires AllDeltas(ds, form) && DeltaTyped(d, form)
    ensures AllDeltas(ds + [d], form)
    decreases |ds|
  {
    if ds == [] {
      assert ds + [d] == [d] && [d][1..] == [];
    } else {
      AllDeltasAppend(ds[1..], d, form);
      assert (ds + [d])[0] == ds[0] && (ds + [d])[1..] == ds[1..] + [d];
    }
  }

  lemma StoreAllAppend(ds: seq<Delta>, d: Delta, form: Form)
    requires IsForm(form) && AllDeltas(ds, form) && DeltaTyped(d, form) && AllDeltas(ds + [d], form)
    ensures StoreAll(ds + [d], form) == StoreAll(ds, form) + [StoreEntry(d, form)]
  {
    var a, b, e := StoreAll(ds + [d], form), StoreAll(ds, form), StoreEntry(d, form);
    forall i | 0 <= i < |ds|
      ensures a[i] == b[i]
    {
      StoreFrom(ds + [d], i, form);
      StoreFrom(ds, i, form);
    }
    StoreFrom(ds + [d], |ds|, form);
    OneMore(a, b, e);
  }

  lemma OneMore<T>(a: seq<T>, b: seq<T>, e: T)
    requires |a| == |b| + 1 && a[|b|] == e && forall i :: 0 <= i < |b| ==> a[i] == b[i]
    ensures a == b + [e]
  {
  }

  lemma HistoryGrows(apex: Name, vs: seq<set<Rr>>, soas: seq<Rr>, ds: seq<Delta>, d: Delta, w: set<Rr>)
    requires History(apex, vs, soas, ds) && IsZone(w, apex, d.newsoa)
    requires d.oldsoa == soas[|ds|] && IsDelta(d, vs[|ds|], w)
    ensures History(apex, vs + [w], soas + [d.newsoa], ds + [d])
  {
  }

  // ----- the size of the stored form

  lemma {:induction false} NameSizeBack(n: Name)
    requires n != []
    ensures NameSize(n) == NameSize(n[..|n| - 1]) + |n[|n| - 1]| + 1
  {
    if |n| > 1 {
      NameSizeBack(n[1..]);
      assert n[1..][..|n| - 2] == n[..|n| - 1][1..];
    } else {
      assert n[..0] == [] && n[1..] == [];
    }
  }

  lemma {:induction false} NameSizeIs(n: Name)
    ensures |WireName(n)| == NameSize(n)
  {
    if n != [] {
      NameSizeBack(n);
      NameSizeIs(n[..|n| - 1]);
    }
  }

  lemma {:induction false} RdataSizeIs(rdata: seq<Atom>)
    ensures |RdataBytes(rdata)| == RdataSize(rdata)
  {
    if rdata != [] {
      RdataSizeIs(rdata[1..]);
      if rdata[0].NameAtom? {
        NameSizeIs(rdata[0].name);
      }
    }
  }

  lemma WireSizeIs(r: Rr)
    ensures |Encode(r)| == WireSize(r)
  {
    NameSizeIs(r.owner);
    RdataSizeIs(r.rdata);
  }

  lemma {:induction false} TotalSizeIs(s: seq<Rr>, form: Form)
    requires IsForm(form) && AllTyped(s, form)
    ensures |Join(EncodeAll(s, form))| == TotalSize(s)
  {
    if s != [] {
      WireSizeIs(s[0]);
      assert Regard(s[0]);
      TotalSizeIs(s[1..], form);
      assert EncodeAll(s, form)[1..] == EncodeAll(s[1..], form);
    }
  }

  /** The size that creating tests is the size that storing tests. */
  lemma EntrySize(d: Delta, overhead: nat, form: Form)
    requires IsForm(form) && DeltaTyped(d, form)
    ensures overhead + IxfrChain.Bytes(StoreEntry(d, form)) == FullSize(overhead, d.newsoa, Stored(d.del, d.add, [d.oldsoa]))
  {
    WireSizeIs(d.oldsoa);
    WireSizeIs(d.newsoa);
    assert Regard(d.oldsoa) && Regard(d.newsoa);
    TotalSizeIs(d.del + [d.newsoa], form);
    TotalSizeIs(d.add + [d.newsoa], form);
    TotalSizeConcat(d.del, [d.newsoa]);
    TotalSizeConcat(d.add, [d.newsoa]);
    OneSize(d.oldsoa);
    OneSize(d.newsoa);
  }

  lemma OneSize(r: Rr)
    ensures TotalSize([r]) == WireSize(r)
  {
    assert [r][1..] == [];
  }

  // ----- one update

  /** The difference of one update is stored. */
  method Store(zone: ZoneIxfr, d: Delta, limits: Limits, ghost apex: Name, ghost w: set<Rr>,
               ghost vs: seq<set<Rr>>, ghost soas: seq<Rr>, ghost ds: seq<Delta>, ghost form: Form)
    returns (stored: bool, ghost r: nat)
    requires Tracks(zone, apex, vs, soas, ds, form) && DeltaTyped(d, form)
    requires d.oldsoa == soas[|ds|] && IsDelta(d, vs[|ds|], w) && IsZone(w, apex, d.newsoa)
    requires Records.Serial(d.oldsoa.rdata) !in zone.data && !TooLarge(d, zone.overhead, limits.size)
    modifies zone
    ensures stored <==> limits.number > 0
    ensures stored ==> r <= |ds| && Tracks(zone, apex, vs[r..] + [w], soas[r..] + [d.newsoa], ds[r..] + [d], form)
    ensures !stored ==> zone.path == old(zone.path) && Tracks(zone, apex, vs, soas, ds, form)
  {
    var entry := StoreEntry(d, form);
    EntrySize(d, zone.overhead, form);
    LastSerial(zone, apex, vs, soas, ds, form);
    stored, r := zone.StoreFinish(entry, limits);
    if stored {
      PathLength(old(zone.data), old(zone.path));
      EntriesAfter(old(zone.data), old(zone.path), r, entry, zone.data, zone.path);
      TracksMore(zone, apex, vs, soas, ds, form, r, d, w);
    }
  }

  lemma TracksMore(zone: ZoneIxfr, apex: Name, vs: seq<set<Rr>>, soas: seq<Rr>, ds: seq<Delta>, form: Form, r: nat, d: Delta, w: set<Rr>)
    requires IsForm(form) && History(apex, vs, soas, ds) && AllDeltas(ds, form) && DeltaTyped(d, form) && r <= |ds|
    requires d.oldsoa == soas[|ds|] && IsDelta(d, vs[|ds|], w) && IsZone(w, apex, d.newsoa)
    requires zone.Valid() && zone.Entries() == StoreAll(ds, form)[r..] + [StoreEntry(d, form)]
    ensures Tracks(zone, apex, vs[r..] + [w], soas[r..] + [d.newsoa], ds[r..] + [d], form)
  {
    HistoryFrom(apex, vs, soas, ds, r);
    StoreFrom(ds, r, form);
    AllDeltasAppend(ds[r..], d, form);
    StoreAllAppend(ds[r..], d, form);
    HistoryGrows(apex, vs[r..], soas[r..], ds[r..], d, w);
  }

  /** The store after an update from the last version to zone `w`, whose
      difference is `d`: it is stored exactly when the serial moves forward by
      at most half the circle, differences are kept at all and it is not too
      large.  The store is then a history that ends at the new zone, without the
      oldest `r` versions.  A serial that does not move forward empties the
      store, and otherwise it stays as it was. */
  ghost predicate Updated(zone: ZoneIxfr, apex: Name, form: Form, w: set<Rr>, newsoa: Rr, vs: seq<set<Rr>>, soas: seq<Rr>, ds: seq<Delta>,
                          d: Delta, limits: Limits, path: seq<IxfrChain.Serial>, stored: bool, r: nat)
    reads zone
  {
    && |vs| == |soas| == |ds| + 1
    && var forward := 0 < Ahead(SerialOf(soas[|ds|]), SerialOf(newsoa)) <= 0x8000_0000;
    && (stored <==> forward && limits.number > 0 && !TooLarge(d, zone.overhead, limits.size))
    && (stored ==> r <= |ds| && Tracks(zone, apex, vs[r..] + [w], soas[r..] + [newsoa], ds[r..] + [d], form))
    && (!forward ==> zone.path == [])
    && (forward && !stored ==> zone.path == path && Tracks(zone, apex, vs, soas, ds, form))
  }

  /** One update of the primary, when its difference is not on disk already.
      Afterwards the store is again a history that ends at the zone being
      served, as the next update needs, exactly when the difference was stored
      or the store is empty. */
  method Publish(zone: ZoneIxfr, oldZone: seq<Domain>, newZone: seq<Domain>, z: nat, oldsoa: Rr, newsoa: Rr,
                 limits: Limits, ghost form: Form, ghost apex: Name,
                 ghost vs: seq<set<Rr>>, ghost soas: seq<Rr>, ghost ds: seq<Delta>)
    returns (stored: bool, ghost r: nat)
    requires Tracks(zone, apex, vs, soas, ds, form)
    requires GoodZone(oldZone, z) && GoodZone(newZone, z)
    requires vs[|ds|] == ZoneRecords(oldZone, z) && soas[|ds|] == oldsoa
    requires IsZone(ZoneRecords(newZone, z), apex, newsoa)
    requires Writable(ZoneRecords(oldZone, z), form) && Writable(ZoneRecords(newZone, z), form)
    requires Records.Serial(oldsoa.rdata) !in zone.data
    modifies zone
    ensures zone.Valid()
    ensures Updated(zone, apex, form, ZoneRecords(newZone, z), newsoa, vs, soas, ds, TheDelta(oldZone, newZone, z, oldsoa, newsoa),
                    limits, old(zone.path), stored, r)
    ensures EndsAt(zone, apex, ZoneRecords(newZone, z), newsoa, form) <==> stored || zone.path == []
  {
    VersionSoa(zone, apex, vs, soas, ds, form);
    stored, r := StoreUpdate(zone, oldZone, newZone, z, oldsoa, newsoa, limits, form, apex, vs, soas, ds);
    EndsDecided(zone, apex, form, ZoneRecords(newZone, z), newsoa, vs, soas, ds, TheDelta(oldZone, newZone, z, oldsoa, newsoa),
                limits, old(zone.path), stored, r);
  }

  lemma VersionSoa(zone: ZoneIxfr, apex: Name, vs: seq<set<Rr>>, soas: seq<Rr>, ds: seq<Delta>, form: Form)
    requires Tracks(zone, apex, vs, soas, ds, form)
    ensures IsForm(form) && |vs| == |soas| == |ds| + 1 && SoaShaped(soas[|ds|].rdata)
  {
    assert IsZone(vs[|ds|], apex, soas[|ds|]);
  }

  /** Whether the store ends at the new zone. */
  lemma EndsDecided(zone: ZoneIxfr, apex: Name, form: Form, w: set<Rr>, newsoa: Rr,
                    vs: seq<set<Rr>>, soas: seq<Rr>, ds: seq<Delta>, d: Delta, limits: Limits, path: seq<IxfrChain.Serial>, stored: bool, r: nat)
    requires IsForm(form) && zone.Valid() && IsZone(w, apex, newsoa)
    requires Updated(zone, apex, form, w, newsoa, vs, soas, ds, d, limits, path, stored, r)
    ensures EndsAt(zone, apex, w, newsoa, form) <==> stored || zone.path == []
  {
    if stored {
      NowEndsAt(zone, apex, vs[r..] + [w], soas[r..] + [newsoa], ds[r..] + [d], form);
    } else if zone.path == [] {
      EmptyEndsAt(zone, apex, w, newsoa, form);
    } else {
      VersionSoa(zone, apex, vs, soas, ds, form);
      CompareIs(SerialOf(soas[|ds|]), SerialOf(newsoa));
      StillBehind(zone, apex, vs, soas, ds, form, w, newsoa);
    }
  }

  /** The update itself: the difference is made and stored. */
  method StoreUpdate(zone: ZoneIxfr, oldZone: seq<Domain>, newZone: seq<Domain>, z: nat, oldsoa: Rr, newsoa: Rr,
                     limits: Limits, ghost form: Form, ghost apex: Name,
                     ghost vs: seq<set<Rr>>, ghost soas: seq<Rr>, ghost ds: seq<Delta>)
    returns (stored: bool, ghost r: nat)
    requires Tracks(zone, apex, vs, soas, ds, form)
    requires GoodZone(oldZone, z) && GoodZone(newZone, z)
    requires vs[|ds|] == ZoneRecords(oldZone, z) && soas[|ds|] == oldsoa
    requires IsZone(ZoneRecords(newZone, z), apex, newsoa)
    requires Writable(ZoneRecords(oldZone, z), form) && Writable(ZoneRecords(newZone, z), form)
    requires Records.Serial(oldsoa.rdata) !in zone.data
    modifies zone
    ensures zone.Valid()
    ensures Updated(zone, apex, form, ZoneRecords(newZone, z), newsoa, vs, soas, ds, TheDelta(oldZone, newZone, z, oldsoa, newsoa),
                    limits, old(zone.path), stored, r)
  {
    r := 0;
    assert IsZone(vs[|ds|], apex, soas[|ds|]);
    var made := PerformCreate(oldZone, newZone, z, oldsoa, newsoa, apex, zone.overhead, limits.size, false);
    ForwardIs(oldsoa, newsoa);
    stored := false;
    if made.None? {
      if !Forward(Records.Serial(oldsoa.rdata), Records.Serial(newsoa.rdata)) {
        zone.Clear();
      }
    } else {
      DeltaWritable(made.value, vs[|ds|], ZoneRecords(newZone, z), apex, form);
      stored, r := Store(zone, made.value, limits, apex, ZoneRecords(newZone, z), vs, soas, ds, form);
    }
  }

  lemma NowEndsAt(zone: ZoneIxfr, apex: Name, vs: seq<set<Rr>>, soas: seq<Rr>, ds: seq<Delta>, form: Form)
    requires Tracks(zone, apex, vs, soas, ds, form)
    ensures EndsAt(zone, apex, vs[|ds|], soas[|ds|], form)
  {
  }

  lemma EmptyEndsAt(zone: ZoneIxfr, apex: Name, c: set<Rr>, soa: Rr, form: Form)
    requires IsForm(form) && zone.Valid() && zone.path == [] && IsZone(c, apex, soa)
    ensures EndsAt(zone, apex, c, soa, form)
  {
    assert Tracks(zone, apex, [c], [soa], [], form);
    NowEndsAt(zone, apex, [c], [soa], [], form);
  }

  lemma StillBehind(zone: ZoneIxfr, apex: Name, vs: seq<set<Rr>>, soas: seq<Rr>, ds: seq<Delta>, form: Form, c: set<Rr>, soa: Rr)
    requires Tracks(zone, apex, vs, soas, ds, form) && zone.path != []
    requires IsZone(c, apex, soa) && Records.Serial(soas[|ds|].rdata) != Records.Serial(soa.rdata)
    ensures !EndsAt(zone, apex, c, soa, form)
  {
    LastSerial(zone, apex, vs, soas, ds, form);
    if EndsAt(zone, apex, c, soa, form) {
      var vs', soas', ds' :| Tracks(zone, apex, vs', soas', ds', form) && vs'[|ds'|] == c && soas'[|ds'|] == soa;
      LastSerial(zone, apex, vs', soas', ds', form);
      assert false;
    }
  }

  lemma PathLength(data: map<IxfrChain.Serial, IxfrData>, path: seq<IxfrChain.Serial>)
    requires Chain(data, path)
    ensures |Collect(data, path)| == |path|
  {
    CollectAt(data, path);
  }

  lemma LastSerial(zone: ZoneIxfr, apex: Name, vs: seq<set<Rr>>, soas: seq<Rr>, ds: seq<Delta>, form: Form)
    requires Tracks(zone, apex, vs, soas, ds, form)
    ensures |zone.path| == |ds| && SoaShaped(soas[|ds|].rdata)
    ensures zone.path != [] ==> zone.EndSerial() == Records.Serial(soas[|ds|].rdata)
  {
    PathLength(zone.data, zone.path);
    assert IsZone(vs[|ds|], apex, soas[|ds|]);
    if ds != [] {
      VersionSoas(apex, vs, soas, ds, 0);
      StoredSerials(zone, ds, 0, soas[0], soas[|ds|], form);
    }
  }

  // ----- an update and its transfer

  /** Every record of the zone is laid out by its type and has at most so many
      bytes in stored form. */
  ghost predicate Fitting(c: set<Rr>, types: Types, limit: nat) {
    forall r {:trigger Regard(r)} :: r in c ==> WellTyped(r, types) && |Encode(r)| <= limit
  }

  ghost predicate AllFitting(vs: seq<set<Rr>>, types: Types, limit: nat) {
    forall k :: 0 <= k < |vs| ==> Fitting(vs[k], types, limit)
  }

  ghost predicate Fits(r: Rr, form: Form, limit: nat) {
    form.ok(r) && |form.wire(r)| <= limit
  }

  lemma FittingForm(c: set<Rr>, form: Form, limit: nat)
    requires IsForm(form) && Fitting(c, form.types, limit)
    ensures Writable(c, form) && forall r :: r in c ==> Fits(r, form, limit)
  {
    forall r | r in c
      ensures Fits(r, form, limit)
    {
      assert Regard(r);
    }
  }

  /** The records of a difference between two versions are records of these. */
  lemma BodyFits(d: Delta, v: set<Rr>, w: set<Rr>, apex: Name, form: Form, limit: nat, r: Rr)
    requires IsForm(form) && Fitting(v, form.types, limit) && Fitting(w, form.types, limit)
    requires IsDelta(d, v, w) && IsZone(v, apex, d.oldsoa) && IsZone(w, apex, d.newsoa)
    requires r in Body(d) || r == d.oldsoa
    ensures Fits(r, form, limit)
  {
    FittingForm(v, form, limit);
    FittingForm(w, form, limit);
    if r in d.del {
      assert r in Elements(d.del);
    } else if r in d.add {
      assert r in Elements(d.add);
    }
  }

  lemma {:induction false} BodiesFit(apex: Name, vs: seq<set<Rr>>, soas: seq<Rr>, ds: seq<Delta>, form: Form, limit: nat, r: Rr)
    requires IsForm(form) && History(apex, vs, soas, ds) && AllFitting(vs, form.types, limit) && r in Bodies(ds)
    ensures Fits(r, form, limit)
    decreases |ds|
  {
    HistoryHead(apex, vs, soas, ds);
    if r in Body(ds[0]) {
      BodyFits(ds[0], vs[0], vs[1], apex, form, limit, r);
    } else {
      BodiesFit(apex, vs[1..], soas[1..], ds[1..], form, limit, r);
    }
  }

  lemma {:induction false} ShortAll(s: seq<Rr>, form: Form, limit: nat)
    requires IsForm(form) && AllTyped(s, form) && forall r :: r in s ==> Fits(r, form, limit)
    ensures AllShort(EncodeAll(s, form), limit)
  {
    if s != [] {
      ShortAll(s[1..], form, limit);
      var ws := EncodeAll(s, form);
      assert Fits(s[0], form, limit) && ws[0] == EncodeRr(s[0], form);
      assert forall k :: 1 <= k < |ws| ==> ws[k] == EncodeAll(s[1..], form)[k - 1];
    }
  }

  lemma ResponseShort(apex: Name, vs: seq<set<Rr>>, soas: seq<Rr>, ds: seq<Delta>, form: Form, limit: nat)
    requires IsForm(form) && History(apex, vs, soas, ds) && AllFitting(vs, form.types, limit) && ds != []
    ensures AllTyped(Response(ds), form) && AllShort(EncodeAll(Response(ds), form), limit)
  {
    var last := |ds| - 1;
    forall r | r in Response(ds)
      ensures Fits(r, form, limit)
    {
      if r in Bodies(ds) {
        BodiesFit(apex, vs, soas, ds, form, limit, r);
      } else if r == ds[0].oldsoa {
        BodyFits(ds[0], vs[0], vs[1], apex, form, limit, r);
      } else {
        BodyFits(ds[last], vs[last], vs[last + 1], apex, form, limit, r);
      }
    }
    AllWritable(Response(ds), form);
    ShortAll(Response(ds), form, limit);
  }

  /** The chain holds the serials of all versions but the last. */
  ghost predicate PathOf(path: seq<IxfrChain.Serial>, soas: seq<Rr>) {
    |soas| == |path| + 1 && forall k :: 0 <= k < |path| ==> SoaShaped(soas[k].rdata) && path[k] == Records.Serial(soas[k].rdata)
  }

  lemma TracksPath(zone: ZoneIxfr, apex: Name, vs: seq<set<Rr>>, soas: seq<Rr>, ds: seq<Delta>, form: Form)
    requires Tracks(zone, apex, vs, soas, ds, form)
    ensures PathOf(zone.path, soas) && Distinct(zone.path) && forall q :: q in zone.data <==> q in zone.path
  {
    LastSerial(zone, apex, vs, soas, ds, form);
    ChainLinked(zone.data, zone.path);
    forall k | 0 <= k < |zone.path|
      ensures SoaShaped(soas[k].rdata) && zone.path[k] == Records.Serial(soas[k].rdata)
    {
      VersionSoas(apex, vs, soas, ds, k);
      StoredSerials(zone, ds, k, soas[k], soas[|ds|], form);
    }
  }

  /** A chain of the serials of the versions, to which the last can be added. */
  ghost predicate Growing(path: seq<IxfrChain.Serial>, soas: seq<Rr>) {
    && Distinct(path) && PathOf(path, soas)
    && SoaShaped(soas[|path|].rdata) && Records.Serial(soas[|path|].rdata) !in path
  }

  lemma TracksGrowing(zone: ZoneIxfr, apex: Name, vs: seq<set<Rr>>, soas: seq<Rr>, ds: seq<Delta>, form: Form)
    requires Tracks(zone, apex, vs, soas, ds, form) && Records.Serial(soas[|ds|].rdata) !in zone.data
    ensures |vs| == |soas| == |zone.path| + 1 == |ds| + 1 && Growing(zone.path, soas)
  {
    TracksPath(zone, apex, vs, soas, ds, form);
    LastSerial(zone, apex, vs, soas, ds, form);
  }

  /** Of the versions before an update those are still stored after it that
      were not dropped. */
  lemma StillStored(before: seq<IxfrChain.Serial>, after: seq<IxfrChain.Serial>, soas: seq<Rr>, newsoa: Rr, r: nat, i: nat, q: nat)
    requires Growing(before, soas) && r <= |before| && PathOf(after, soas[r..] + [newsoa])
    requires i <= |before| && SoaShaped(soas[i].rdata) && q == Records.Serial(soas[i].rdata)
    ensures q in after <==> r <= i
  {
    var all, serials := soas[r..] + [newsoa], before + [Records.Serial(soas[|before|].rdata)];
    forall j | 0 <= j < |after|
      ensures after[j] == serials[r + j]
    {
      assert all[j] == soas[r + j];
    }
    assert serials[i] == q;
    if r <= i {
      assert after[i - r] == q;
    }
  }

  /** The differences that are stored. */
  ghost predicate Storable(oldZone: seq<Domain>, newZone: seq<Domain>, z: nat, oldsoa: Rr, newsoa: Rr, overhead: nat, limits: Limits) {
    && SoaShaped(oldsoa.rdata) && SoaShaped(newsoa.rdata)
    && 0 < Ahead(Records.Serial(oldsoa.rdata), Records.Serial(newsoa.rdata)) <= 0x8000_0000 && limits.number > 0
    && !TooLarge(TheDelta(oldZone, newZone, z, oldsoa, newsoa), overhead, limits.size)
  }

  /** A history and a version in it. */
  datatype Spot = Spot(vs: seq<set<Rr>>, soas: seq<Rr>, ds: seq<Delta>, i: nat)

  /** The versions from the one a secondary holds to the newest. */
  datatype Road = Road(vs: seq<set<Rr>>, soas: seq<Rr>)

  /** A zone is loaded over the last version of the history that is stored; its
      serial is not in the store, and no record has more than `limit` bytes.
      The road leads from the version of the secondary to the new zone. */
  ghost predicate Loads(zone: ZoneIxfr, oldZone: seq<Domain>, newZone: seq<Domain>, z: nat, oldsoa: Rr, newsoa: Rr,
                        apex: Name, form: Form, limit: nat, h: Spot, road: Road)
    reads zone
  {
    && Tracks(zone, apex, h.vs, h.soas, h.ds, form) && GoodZone(oldZone, z) && GoodZone(newZone, z)
    && h.vs[|h.ds|] == ZoneRecords(oldZone, z) && h.soas[|h.ds|] == oldsoa
    && SoaShaped(oldsoa.rdata) && Records.Serial(oldsoa.rdata) !in zone.data
    && IsZone(ZoneRecords(newZone, z), apex, newsoa) && AllFitting(h.vs + [ZoneRecords(newZone, z)], form.types, limit)
    && h.i <= |h.ds| && road == Road(h.vs[h.i..] + [ZoneRecords(newZone, z)], h.soas[h.i..] + [newsoa])
    && LeadsTo(road, ZoneRecords(newZone, z), newsoa)
  }

  ghost predicate LeadsTo(road: Road, w: set<Rr>, newsoa: Rr) {
    road.vs != [] && road.soas != [] && road.vs[|road.vs| - 1] == w && road.soas[|road.soas| - 1] == newsoa
  }

  /** From zone to zone: the primary loads a new zone and stores its difference,
      and a secondary that holds any version of the history asks.  If its
      version was not dropped, which is so exactly when its serial is in the
      store, and the serials on the road are steady, it then holds exactly the
      records of the new zone.  In any case it holds the version it had, or one
      with the newest serial.  In between are the merge walk, the store, the
      bytes of the packets, and the reading, checking and applying of them. */
  method UpdateReaches(zone: ZoneIxfr, secondary: ZoneInMemory, xfrd: XfrdZone,
                       oldZone: seq<Domain>, newZone: seq<Domain>, z: nat, oldsoa: Rr, newsoa: Rr,
                       limits: Limits, frames: nat -> Frame, types: Types, room: Room, ghost limit: nat, ghost form: Form,
                       ghost h: Spot, ghost road: Road, from: IxfrChain.Serial, to: IxfrChain.Serial)
    returns (stored: bool, ghost r: nat, complete: bool, ret: int, ghost m: nat)
    requires Loads(zone, oldZone, newZone, z, oldsoa, newsoa, secondary.apex, form, limit, h, road)
    requires form.types == types && EndToEnd.RoomFor(frames, room, limit)
    requires |road.vs| == |road.soas| > 1 && Holds(secondary, xfrd, road.vs[0], road.soas[0], from)
    requires SoaShaped(newsoa.rdata) && to == Records.Serial(newsoa.rdata)
    modifies zone, secondary, xfrd
    ensures stored <==> Storable(oldZone, newZone, z, oldsoa, newsoa, zone.overhead, limits)
    ensures stored ==> Dropped(zone, h, r, from)
    ensures !complete ==> secondary.State() == old(secondary.State())
    ensures complete ==> Reached(secondary, road, m, ret)
    ensures stored && from in zone.data && 0 < Ahead(from, to) < 0x8000_0000 && Steady(Serials(road.soas)) ==>
              complete && Apply.Contents(secondary.rrsets) == ZoneRecords(newZone, z)
  {
    ghost var k;
    stored, r, k := UpdateFor(zone, oldZone, newZone, z, oldsoa, newsoa, limits, secondary.apex, form, limit, h, road, from);
    complete, ret, m := Ask(zone, secondary, xfrd, frames, types, room, limit, form, k, road, from, to, stored && from in zone.data);
  }

  /** A secondary asks, and is answered with differences if its version is in
      the store and the newest one is ahead of it. */
  method Ask(zone: ZoneIxfr, secondary: ZoneInMemory, xfrd: XfrdZone, frames: nat -> Frame, types: Types, room: Room, ghost limit: nat,
             ghost form: Form, ghost k: Spot, ghost road: Road, from: IxfrChain.Serial, to: IxfrChain.Serial, known: bool)
    returns (complete: bool, ret: int, ghost m: nat)
    requires form.types == types && EndToEnd.RoomFor(frames, room, limit)
    requires known ==> IsSpot(k, zone, secondary.apex, form, limit, road)
    requires |road.vs| == |road.soas| > 1 && Holds(secondary, xfrd, road.vs[0], road.soas[0], from)
    requires var newsoa := road.soas[|road.soas| - 1]; SoaShaped(newsoa.rdata) && to == Records.Serial(newsoa.rdata)
    modifies secondary, xfrd
    ensures CaughtUp(secondary, old(secondary.State()), road, m, complete, ret, known && 0 < Ahead(from, to) < 0x8000_0000)
  {
    ret, complete, m := 0, false, 0;
    CompareIs(from, to);
    if known && CompareSerial(from, to) < 0 {
      complete, ret, m := CatchUp(zone, secondary, xfrd, frames, types, room, limit, form, k, road, from, to);
    }
  }

  /** The oldest `r` versions are gone, and so the serial of version `h.i` is in
      the store exactly if it is not one of them. */
  ghost predicate Dropped(zone: ZoneIxfr, h: Spot, r: nat, from: IxfrChain.Serial)
    reads zone
  {
    r <= |h.ds| && (from in zone.data <==> r <= h.i)
  }

  /** A version with the newest serial was applied. */
  ghost predicate Reached(secondary: ZoneInMemory, road: Road, m: nat, ret: int)
    reads secondary
  {
    && |road.vs| == |road.soas| && FirstNewest(road.soas, 0, m)
    && ret == 1 && !secondary.softfail && Apply.Contents(secondary.rrsets) == road.vs[m]
  }

  /** The start of the road in a history that is stored. */
  ghost predicate IsSpot(k: Spot, zone: ZoneIxfr, apex: Name, form: Form, limit: nat, road: Road)
    reads zone
  {
    && Tracks(zone, apex, k.vs, k.soas, k.ds, form) && AllFitting(k.vs, form.types, limit) && k.i < |k.ds|
    && k.vs[k.i..] == road.vs && k.soas[k.i..] == road.soas
  }

  /** After the update the oldest `r` versions are gone. */
  lemma DroppedOrNot(zone: ZoneIxfr, apex: Name, form: Form, vs: seq<set<Rr>>, soas: seq<Rr>, all: seq<Rr>, ds: seq<Delta>,
                     before: seq<IxfrChain.Serial>, newsoa: Rr, r: nat, i: nat, from: IxfrChain.Serial)
    requires Growing(before, soas) && r <= |before| && i <= |before| && all == soas[r..] + [newsoa]
    requires Tracks(zone, apex, vs, all, ds, form)
    requires SoaShaped(soas[i].rdata) && from == Records.Serial(soas[i].rdata)
    ensures from in zone.data <==> r <= i
  {
    TracksPath(zone, apex, vs, all, ds, form);
    StillStored(before, zone.path, soas, newsoa, r, i, from);
  }

  /** The versions that are left keep their order. */
  lemma KeptFrom<T>(s: seq<T>, x: T, r: nat, i: nat)
    requires r <= i <= |s|
    ensures (s[r..] + [x])[i - r..] == s[i..] + [x]
  {
  }

  lemma NewSpot(zone: ZoneIxfr, apex: Name, form: Form, limit: nat, h: Spot, r: nat, w: set<Rr>, newsoa: Rr, d: Delta) returns (k: Spot)
    requires |h.vs| == |h.soas| == |h.ds| + 1 && r <= h.i <= |h.ds| && AllFitting(h.vs + [w], form.types, limit)
    requires Tracks(zone, apex, h.vs[r..] + [w], h.soas[r..] + [newsoa], h.ds[r..] + [d], form)
    ensures IsSpot(k, zone, apex, form, limit, Road(h.vs[h.i..] + [w], h.soas[h.i..] + [newsoa]))
  {
    k := Spot(h.vs[r..] + [w], h.soas[r..] + [newsoa], h.ds[r..] + [d], h.i - r);
    FittingFrom(h.vs, w, form.types, limit, r);
    KeptFrom(h.vs, w, r, h.i);
    KeptFrom(h.soas, newsoa, r, h.i);
  }

  /** The update, as one version of the history sees it. */
  method UpdateFor(zone: ZoneIxfr, oldZone: seq<Domain>, newZone: seq<Domain>, z: nat, oldsoa: Rr, newsoa: Rr, limits: Limits,
                   ghost apex: Name, ghost form: Form, ghost limit: nat, ghost h: Spot, ghost road: Road, ghost from: IxfrChain.Serial)
    returns (stored: bool, ghost r: nat, ghost k: Spot)
    requires Loads(zone, oldZone, newZone, z, oldsoa, newsoa, apex, form, limit, h, road)
    requires road.soas != [] && SoaShaped(road.soas[0].rdata) && from == Records.Serial(road.soas[0].rdata)
    modifies zone
    ensures stored <==> Storable(oldZone, newZone, z, oldsoa, newsoa, zone.overhead, limits)
    ensures stored ==> Dropped(zone, h, r, from)
    ensures stored && r <= h.i ==> IsSpot(k, zone, apex, form, limit, road)
  {
    ghost var w := ZoneRecords(newZone, z);
    k := h;
    BothFit(h.vs, w, form, limit);
    TracksGrowing(zone, apex, h.vs, h.soas, h.ds, form);
    ghost var before := zone.path;
    assert road.soas[0] == h.soas[h.i];
    stored, r := StoreUpdate(zone, oldZone, newZone, z, oldsoa, newsoa, limits, form, apex, h.vs, h.soas, h.ds);
    if stored {
      ghost var d := TheDelta(oldZone, newZone, z, oldsoa, newsoa);
      DroppedOrNot(zone, apex, form, h.vs[r..] + [w], h.soas, h.soas[r..] + [newsoa], h.ds[r..] + [d], before, newsoa, r, h.i, from);
      if r <= h.i {
        k := NewSpot(zone, apex, form, limit, h, r, w, newsoa, d);
      }
    }
  }

  lemma BothFit(vs: seq<set<Rr>>, w: set<Rr>, form: Form, limit: nat)
    requires IsForm(form) && vs != [] && AllFitting(vs + [w], form.types, limit)
    ensures Writable(vs[|vs| - 1], form) && Writable(w, form)
  {
    assert (vs + [w])[|vs| - 1] == vs[|vs| - 1] && (vs + [w])[|vs|] == w;
    FittingForm(vs[|vs| - 1], form, limit);
    FittingForm(w, form, limit);
  }

  lemma FittingFrom(vs: seq<set<Rr>>, w: set<Rr>, types: Types, limit: nat, r: nat)
    requires r <= |vs| && AllFitting(vs + [w], types, limit)
    ensures AllFitting(vs[r..] + [w], types, limit)
  {
    assert forall k :: 0 <= k < |vs[r..] + [w]| ==> (vs[r..] + [w])[k] == (vs + [w])[r + k];
  }

  /** A secondary with any stored version asks. */
  method CatchUp(zone: ZoneIxfr, secondary: ZoneInMemory, xfrd: XfrdZone, frames: nat -> Frame, types: Types, room: Room, ghost limit: nat,
                 ghost form: Form, ghost k: Spot, ghost road: Road, from: IxfrChain.Serial, to: IxfrChain.Serial)
    returns (complete: bool, ret: int, ghost m: nat)
    requires form.types == types && EndToEnd.RoomFor(frames, room, limit) && IsSpot(k, zone, secondary.apex, form, limit, road)
    requires |road.vs| == |road.soas| > 1 && Holds(secondary, xfrd, road.vs[0], road.soas[0], from)
    requires var newsoa := road.soas[|road.soas| - 1]; SoaShaped(newsoa.rdata) && to == Records.Serial(newsoa.rdata)
    requires 0 < Ahead(from, to) < 0x8000_0000
    modifies secondary, xfrd
    ensures CaughtUp(secondary, old(secondary.State()), road, m, complete, ret, true)
  {
    SpotReady(zone, secondary, xfrd, frames, types, room, limit, form, k, road, from, to);
    var ms;
    ghost var parts, n;
    complete, ret, ms, parts, n := Exchange(zone, secondary, xfrd, frames, types, room, limit, form, k.vs, k.soas, k.ds, k.i, from, to);
    m := OnRoad(secondary, old(secondary.State()), k, road, parts, n, complete, ret);
  }

  /** The secondary was moved along the road, or is as it was. */
  ghost predicate CaughtUp(secondary: ZoneInMemory, before: Transfer.Xfr, road: Road, m: nat, complete: bool, ret: int, answered: bool)
    reads secondary
  {
    && (!complete ==> secondary.State() == before)
    && (complete ==> Reached(secondary, road, m, ret))
    && (answered && Steady(Serials(road.soas)) ==> complete && m == |road.vs| - 1)
  }

  lemma SpotReady(zone: ZoneIxfr, secondary: ZoneInMemory, xfrd: XfrdZone, frames: nat -> Frame, types: Types, room: Room, limit: nat,
                  form: Form, k: Spot, road: Road, from: IxfrChain.Serial, to: IxfrChain.Serial)
    requires form.types == types && EndToEnd.RoomFor(frames, room, limit) && IsSpot(k, zone, secondary.apex, form, limit, road)
    requires |road.vs| == |road.soas| > 1 && Holds(secondary, xfrd, road.vs[0], road.soas[0], from)
    requires var newsoa := road.soas[|road.soas| - 1]; SoaShaped(newsoa.rdata) && to == Records.Serial(newsoa.rdata)
    requires 0 < Ahead(from, to) < 0x8000_0000
    ensures Ready(zone, secondary, xfrd, frames, types, room, limit, form, k.vs, k.soas, k.ds, k.i, from, to)
  {
    SpotEnds(k, road);
    SpotShort(zone, secondary.apex, form, limit, k, road);
  }

  lemma SpotEnds(k: Spot, road: Road)
    requires k.i < |k.vs| == |k.soas| && k.vs[k.i..] == road.vs && k.soas[k.i..] == road.soas
    ensures k.vs[k.i] == road.vs[0] && k.soas[k.i] == road.soas[0] && k.soas[|k.soas| - 1] == road.soas[|road.soas| - 1]
  {
    SliceEnds(k.vs, k.i);
    SliceEnds(k.soas, k.i);
  }

  lemma SliceEnds<T>(s: seq<T>, i: nat)
    requires i < |s|
    ensures s[i..][0] == s[i] && s[i..][|s[i..]| - 1] == s[|s| - 1]
  {
  }

  lemma SpotShort(zone: ZoneIxfr, apex: Name, form: Form, limit: nat, k: Spot, road: Road)
    requires IsSpot(k, zone, apex, form, limit, road)
    ensures AllTyped(Response(k.ds[k.i..]), form) && AllShort(EncodeAll(Response(k.ds[k.i..]), form), limit)
  {
    HistoryFrom(apex, k.vs, k.soas, k.ds, k.i);
    ResponseShort(apex, k.vs[k.i..], k.soas[k.i..], k.ds[k.i..], form, limit);
  }

  lemma OnRoad(secondary: ZoneInMemory, before: Transfer.Xfr, k: Spot, road: Road, parts: seq<seq<Rr>>, n: nat, complete: bool, ret: int)
    returns (m: nat)
    requires k.i < |k.ds| && |k.vs| == |k.soas| == |k.ds| + 1 && k.vs[k.i..] == road.vs && k.soas[k.i..] == road.soas
    requires Exchanged(secondary, before, k.vs, k.soas, k.ds, k.i, parts, n, complete, ret)
    ensures CaughtUp(secondary, before, road, m, complete, ret, true)
  {
    m := n - k.i;
    assert road.vs[m] == k.vs[n] && FirstNewest(road.soas, 0, m);
  }

  /** The first update of a primary that has stored nothing yet: the road has
      one step only, so if it goes forward by less than half the circle and is
      within the limits, a secondary with the old zone always reaches the new. */
  method FirstUpdate(zone: ZoneIxfr, secondary: ZoneInMemory, xfrd: XfrdZone,
                     oldZone: seq<Domain>, newZone: seq<Domain>, z: nat, oldsoa: Rr, newsoa: Rr,
                     limits: Limits, frames: nat -> Frame, types: Types, room: Room, ghost limit: nat,
                     from: IxfrChain.Serial, to: IxfrChain.Serial)
    returns (stored: bool, complete: bool, ret: int)
    requires zone.Valid() && zone.path == [] && GoodZone(oldZone, z) && GoodZone(newZone, z)
    requires IsZone(ZoneRecords(oldZone, z), secondary.apex, oldsoa) && IsZone(ZoneRecords(newZone, z), secondary.apex, newsoa)
    requires AllFitting([ZoneRecords(oldZone, z), ZoneRecords(newZone, z)], types, limit) && EndToEnd.RoomFor(frames, room, limit)
    requires Holds(secondary, xfrd, ZoneRecords(oldZone, z), oldsoa, from)
    requires SoaShaped(newsoa.rdata) && to == Records.Serial(newsoa.rdata)
    modifies zone, secondary, xfrd
    ensures stored <==> Storable(oldZone, newZone, z, oldsoa, newsoa, zone.overhead, limits)
    ensures 0 < Ahead(from, to) < 0x8000_0000 && limits.number > 0 &&
            !TooLarge(TheDelta(oldZone, newZone, z, oldsoa, newsoa), zone.overhead, limits.size) ==>
              stored && complete && ret == 1 && Apply.Contents(secondary.rrsets) == ZoneRecords(newZone, z)
  {
    ghost var form := FormOf(types);
    ghost var v, w := ZoneRecords(oldZone, z), ZoneRecords(newZone, z);
    ghost var h, road := Spot([v], [oldsoa], [], 0), Road([v] + [w], [oldsoa] + [newsoa]);
    FirstLoads(zone, oldZone, newZone, z, oldsoa, newsoa, secondary.apex, form, limit);
    TwoSteady(oldsoa, newsoa);
    ghost var r, m;
    stored, r, complete, ret, m := UpdateReaches(zone, secondary, xfrd, oldZone, newZone, z, oldsoa, newsoa, limits, frames, types, room,
                                                 limit, form, h, road, from, to);
  }

  lemma TwoSteady(a: Rr, b: Rr)
    ensures Steady(Serials([a] + [b]))
  {
  }

  lemma FirstLoads(zone: ZoneIxfr, oldZone: seq<Domain>, newZone: seq<Domain>, z: nat, oldsoa: Rr, newsoa: Rr,
                   apex: Name, form: Form, limit: nat)
    requires IsForm(form) && zone.Valid() && zone.path == [] && GoodZone(oldZone, z) && GoodZone(newZone, z)
    requires IsZone(ZoneRecords(oldZone, z), apex, oldsoa) && IsZone(ZoneRecords(newZone, z), apex, newsoa)
    requires AllFitting([ZoneRecords(oldZone, z), ZoneRecords(newZone, z)], form.types, limit)
    ensures var v, w := ZoneRecords(oldZone, z), ZoneRecords(newZone, z);
            Loads(zone, oldZone, newZone, z, oldsoa, newsoa, apex, form, limit, Spot([v], [oldsoa], [], 0), Road([v] + [w], [oldsoa] + [newsoa]))
  {
    var v, w := ZoneRecords(oldZone, z), ZoneRecords(newZone, z);
    assert Tracks(zone, apex, [v], [oldsoa], [], form);
    assert [v] + [w] == [v, w] && [v][0..] == [v] && [oldsoa][0..] == [oldsoa];
  }
}
