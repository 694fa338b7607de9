/** The merge walk of ixfrcreate.c over the spool file and the zone in
    memory, with its iterator and its store. */
module Creator {
  import opened Names
  import opened Sequences
  import opened Records
  import opened ZoneTree
  import opened TransferResults
  import opened Diff
  import opened Create

  /** Deletions, additions and old SOA records in the store. */
  datatype Stored = Stored(del: seq<Rr>, add: seq<Rr>, soas: seq<Rr>)

  predicate Extends(a: Stored, b: Stored) {
    a.del <= b.del && a.add <= b.add && a.soas <= b.soas
  }

  /** A size that grows with the store. */
  ghost predicate Growing(size: Stored -> nat) {
    forall a, b {:trigger Extends(a, b)} :: Extends(a, b) ==> size(a) <= size(b)
  }

  /** `ixfr_data_size`: a fixed overhead and the wire sizes. */
  function DataSize(overhead: nat, newsoa: Rr, a: Stored): nat {
    overhead + WireSize(newsoa) + TotalSize(a.soas) + TotalSize(a.del) + TotalSize(a.add)
  }

  /** The size once both sections end with the new SOA record. */
  function FullSize(overhead: nat, newsoa: Rr, a: Stored): nat {
    DataSize(overhead, newsoa, a) + 2 * WireSize(newsoa)
  }

  function SizeOf(overhead: nat, newsoa: Rr): Stored -> nat {
    a => DataSize(overhead, newsoa, a)
  }

  lemma DataSizeGrows(overhead: nat, newsoa: Rr)
    ensures Growing(SizeOf(overhead, newsoa))
  {
    forall a, b | Extends(a, b)
      ensures DataSize(overhead, newsoa, a) <= DataSize(overhead, newsoa, b)
    {
      TotalSizePrefix(a.soas, b.soas);
      TotalSizePrefix(a.del, b.del);
      TotalSizePrefix(a.add, b.add);
    }
  }

  lemma TotalSizePrefix(a: seq<Rr>, b: seq<Rr>)
    requires a <= b
    ensures TotalSize(a) <= TotalSize(b)
  {
    assert b == a + b[|a|..];
    TotalSizeConcat(a, b[|a|..]);
  }

  class IxfrCreate {
    const z: nat
    const spool: seq<Domain>
    const size: Stored -> nat
    const maxSize: nat
    ghost const parts: Parts

    // the spool iterator
    var filePos: nat
    var current: Domain
    var readFirst: bool
    var eof: bool
    var isProcessed: bool

    // the store
    var oldsoa: Option<Rr>
    var del: seq<Rr>
    var add: seq<Rr>
    var cancelled: bool

    constructor (z: nat, spool: seq<Domain>, size: Stored -> nat, maxSize: nat)
      ensures this.z == z && this.spool == spool && this.size == size && this.maxSize == maxSize
      ensures parts == DiffParts(z) && AreDiffParts(parts, z)
      ensures Valid() && Rest() == spool && del == [] && add == [] && oldsoa == None && !cancelled
    {
      this.z, this.spool, this.size, this.maxSize := z, spool, size, maxSize;
      parts := DiffParts(z);
      filePos, current := 0, Domain([], []);
      readFirst, eof, isProcessed := false, false, false;
      oldsoa, del, add, cancelled := None, [], [], false;
    }

    ghost predicate Valid()
      reads this`filePos, this`readFirst, this`eof, this`isProcessed, this`current
    {
      && filePos <= |spool|
      && (!readFirst ==> filePos == 0 && !eof && !isProcessed)
      && (readFirst && !eof ==> filePos > 0 && current == spool[filePos - 1])
    }

    /** The spooled names that are still to be processed. */
    ghost function Rest(): seq<Domain>
      requires Valid()
      reads this`filePos, this`readFirst, this`eof, this`isProcessed, this`current
    {
      if eof then []
      else if !readFirst || isProcessed then spool[filePos..]
      else spool[filePos - 1..]
    }

    ghost function Soas(): seq<Rr>
      reads this`oldsoa
    {
      if oldsoa.Some? then [oldsoa.value] else []
    }

    // ----- the store

    /** `process_store_oldsoa`: a second SOA record is an error. */
    method StoreOldSoa(rr: Rr) returns (ok: bool)
      modifies this`oldsoa
      ensures ok ==> Soas() == old(Soas()) + [rr]
      ensures !ok ==> old(Soas()) != []
    {
      if oldsoa.Some? {
        return false;
      }
      oldsoa := Some(rr);
      return true;
    }

    /** `ixfr_store_delrr_uncompressed`. */
    method StoreDel(rr: Rr)
      modifies this`del
      ensures del == old(del) + if IsSoa(rr) then [] else [rr]
    {
      if !IsSoa(rr) {
        del := del + [rr];
      }
    }

    /** `ixfr_store_addrr_rdatas`. */
    method StoreAdd(rr: Rr)
      modifies this`add
      ensures add == old(add) + if IsSoa(rr) then [] else [rr]
    {
      if !IsSoa(rr) {
        add := add + [rr];
      }
    }

    // ----- one RRset

    /** `process_spool_delrrset`. */
    method SpoolDelRrset(rrs: seq<Rr>) returns (ok: bool)
      modifies this`oldsoa, this`del
      ensures ok ==> del == old(del) + Storable(rrs) && Soas() == old(Soas()) + SoasOf(rrs)
      ensures !ok ==> |old(Soas()) + SoasOf(rrs)| > 1
    {
      var i := 0;
      while i < |rrs|
        invariant 0 <= i <= |rrs|
        invariant del == old(del) + Storable(rrs[..i])
        invariant Soas() == old(Soas()) + SoasOf(rrs[..i])
      {
        StorableSnoc(rrs[..i], rrs[i]);
        assert rrs[..i + 1] == rrs[..i] + [rrs[i]];
        if IsSoa(rrs[i]) {
          ok := StoreOldSoa(rrs[i]);
          if !ok {
            SoasPrefix(rrs, i + 1);
            return;
          }
        }
        StoreDel(rrs[i]);
        i := i + 1;
      }
      assert rrs[..i] == rrs;
      return true;
    }

    static lemma {:induction false} SoasPrefix(rrs: seq<Rr>, n: nat)
      requires n <= |rrs|
      ensures |SoasOf(rrs[..n])| <= |SoasOf(rrs)|
      decreases |rrs| - n
    {
      if n < |rrs| {
        StorableSnoc(rrs[..n], rrs[n]);
        assert rrs[..n + 1] == rrs[..n] + [rrs[n]];
        SoasPrefix(rrs, n + 1);
      } else {
        assert rrs[..n] == rrs;
      }
    }

    static lemma {:induction false} DataIndexIs(rrs: seq<Rr>, rr: Rr, i: nat)
      requires i < |rrs| && SameData(rrs[i], rr)
      requires forall k :: 0 <= k < i ==> !SameData(rrs[k], rr)
      ensures HasData(rrs, rr) && DataIndex(rrs, rr) == i
    {
      if i > 0 {
        DataIndexIs(rrs[1..], rr, i - 1);
      }
    }

    /** `rrset_find_rdata`. */
    static method FindRdata(rrs: seq<Rr>, rr: Rr) returns (found: bool, index: nat)
      ensures found <==> HasData(rrs, rr)
      ensures found ==> index == DataIndex(rrs, rr)
    {
      index := 0;
      while index < |rrs|
        invariant 0 <= index <= |rrs|
        invariant forall k :: 0 <= k < index ==> !SameData(rrs[k], rr)
      {
        if rrs[index].ttl == rr.ttl && rrs[index].rdata == rr.rdata {
          DataIndexIs(rrs, rr, index);
          return true, index;
        }
        index := index + 1;
      }
      return false, 0;
    }

    /** The first index whose data is that of `rr`. */
    static function DataIndex(rrs: seq<Rr>, rr: Rr): (i: nat)
      requires HasData(rrs, rr)
      ensures i < |rrs| && SameData(rrs[i], rr)
    {
      if SameData(rrs[0], rr) then 0
      else
        assert HasData(rrs[1..], rr) by {
          var k :| 0 <= k < |rrs| && SameData(rrs[k], rr);
          assert rrs[1..][k - 1] == rrs[k];
        }
        1 + DataIndex(rrs[1..], rr)
    }

    /** The marks set for the records in `seen`. */
    static function MarkSeq(rrs: seq<Rr>, seen: seq<Rr>): seq<nat> {
      if seen == [] then []
      else
        var r := seen[|seen| - 1];
        MarkSeq(rrs, seen[..|seen| - 1]) + if HasData(rrs, r) then [DataIndex(rrs, r)] else []
    }

    static lemma MarkSeqSnoc(rrs: seq<Rr>, seen: seq<Rr>, i: nat)
      requires i < |seen|
      ensures MarkSeq(rrs, seen[..i + 1]) ==
              if HasData(rrs, seen[i]) then MarkSeq(rrs, seen[..i]) + [DataIndex(rrs, seen[i])]
              else MarkSeq(rrs, seen[..i])
    {
      assert seen[..i + 1][..i] == seen[..i];
    }

    /** The indexes in `rrs` of the records in `seen`, each once. */
    static ghost predicate Marks(marked: seq<nat>, rrs: seq<Rr>, seen: seq<Rr>) {
      Distinct(marked) && forall m: nat :: m in marked <==> m < |rrs| && rrs[m] in seen
    }

    static lemma {:induction false} MarkSeqMarks(name: Name, typ: nat, rrs: seq<Rr>, seen: seq<Rr>)
      requires forall k :: 0 <= k < |rrs| ==> InRrset(name, typ, rrs[k])
      requires forall k :: 0 <= k < |seen| ==> InRrset(name, typ, seen[k])
      requires Distinct(rrs) && Distinct(seen)
      ensures Marks(MarkSeq(rrs, seen), rrs, seen)
    {
      if seen != [] {
        var r, before := seen[|seen| - 1], seen[..|seen| - 1];
        assert seen == before + [r];
        MarkSeqMarks(name, typ, rrs, before);
        HasDataIsMember(name, typ, rrs, r);
      }
    }

    /** The body of the first loop of `process_diff_rrset`: a record that is
        only on the spool is a deletion. */
    method MarkRecord(rr: Rr, rrs: seq<Rr>) returns (ok: bool, found: bool, index: nat)
      modifies this`oldsoa, this`del
      ensures ok ==> del == old(del) + Storable(OnlyIn([rr], rrs)) && Soas() == old(Soas()) + SoasOf([rr])
      ensures ok ==> (found <==> HasData(rrs, rr)) && (found ==> index == DataIndex(rrs, rr))
      ensures !ok ==> |old(Soas()) + SoasOf([rr])| > 1
    {
      found, index := false, 0;
      StorableSnoc([], rr);
      OnlyInSnoc([], rr, rrs);
      assert [] + [rr] == [rr];
      if IsSoa(rr) {
        ok := StoreOldSoa(rr);
        if !ok {
          return;
        }
      }
      found, index := FindRdata(rrs, rr);
      if !found {
        StoreDel(rr);
      }
      return true, found, index;
    }

    static lemma RecordByRecord(a: seq<Rr>, i: nat, b: seq<Rr>)
      requires i < |a|
      ensures Storable(OnlyIn(a[..i + 1], b)) == Storable(OnlyIn(a[..i], b)) + Storable(OnlyIn([a[i]], b))
      ensures SoasOf(a[..i + 1]) == SoasOf(a[..i]) + SoasOf([a[i]])
      ensures Storable(OnlyIn([a[i]], b)) == if HasData(b, a[i]) || IsSoa(a[i]) then [] else [a[i]]
    {
      assert a[..i + 1] == a[..i] + [a[i]];
      StorableSnoc(a[..i], a[i]);
      OnlyInSnoc(a[..i], a[i], b);
      StorableSnoc(OnlyIn(a[..i], b), a[i]);
      StorableSnoc([], a[i]);
      OnlyInSnoc([], a[i], b);
      assert [] + [a[i]] == [a[i]];
      if HasData(b, a[i]) {
        assert OnlyIn(a[..i + 1], b) == OnlyIn(a[..i], b);
      }
    }

    /** Where the walk over the sorted marks stands at record `i`. */
    static ghost predicate AtMark(sorted: seq<nat>, at: nat, i: nat) {
      && at <= |sorted|
      && (forall a :: 0 <= a < at ==> sorted[a] < i)
      && forall a :: at <= a < |sorted| ==> i <= sorted[a]
    }

    static lemma NextMark(sorted: seq<nat>, at: nat, i: nat)
      requires forall a, b :: 0 <= a < b < |sorted| ==> sorted[a] < sorted[b]
      requires AtMark(sorted, at, i)
      ensures var hit := at < |sorted| && sorted[at] == i;
              (hit <==> i in sorted) && AtMark(sorted, if hit then at + 1 else at, i + 1)
    {
    }

    /** The first loop of `process_diff_rrset`, which marks the records that
        are in both. */
    method MarkRrset(rrs: seq<Rr>, rrset: Rrset) returns (ok: bool, marked: seq<nat>)
      modifies this`oldsoa, this`del
      ensures ok ==> del == old(del) + Storable(OnlyIn(rrs, rrset.rrs)) && Soas() == old(Soas()) + SoasOf(rrs)
      ensures ok ==> marked == MarkSeq(rrset.rrs, rrs)
      ensures !ok ==> |old(Soas()) + SoasOf(rrs)| > 1
    {
      marked := [];
      var i := 0;
      while i < |rrs|
        invariant 0 <= i <= |rrs|
        invariant del == old(del) + Storable(OnlyIn(rrs[..i], rrset.rrs))
        invariant Soas() == old(Soas()) + SoasOf(rrs[..i])
        invariant marked == MarkSeq(rrset.rrs, rrs[..i])
      {
        ok, marked := MarkNext(rrs, i, rrset.rrs, marked, old(del), old(Soas()));
        if !ok {
          SoasPrefix(rrs, i + 1);
          return;
        }
        i := i + 1;
      }
      assert rrs[..i] == rrs;
      return true, marked;
    }

    /** One turn of that loop. */
    method MarkNext(rrs: seq<Rr>, i: nat, others: seq<Rr>, marked: seq<nat>, ghost del0: seq<Rr>, ghost soas0: seq<Rr>)
      returns (ok: bool, marked': seq<nat>)
      requires i < |rrs| && del == del0 + Storable(OnlyIn(rrs[..i], others)) && Soas() == soas0 + SoasOf(rrs[..i])
      requires marked == MarkSeq(others, rrs[..i])
      modifies this`oldsoa, this`del
      ensures ok ==> del == del0 + Storable(OnlyIn(rrs[..i + 1], others)) && Soas() == soas0 + SoasOf(rrs[..i + 1])
      ensures ok ==> marked' == MarkSeq(others, rrs[..i + 1])
      ensures !ok ==> |soas0 + SoasOf(rrs[..i + 1])| > 1
    {
      RecordByRecord(rrs, i, others);
      Assoc(del0, Storable(OnlyIn(rrs[..i], others)), Storable(OnlyIn([rrs[i]], others)));
      Assoc(soas0, SoasOf(rrs[..i]), SoasOf([rrs[i]]));
      MarkSeqSnoc(others, rrs, i);
      var found, index;
      ok, found, index := MarkRecord(rrs[i], others);
      marked' := if ok && found then marked + [index] else marked;
    }

    /** The second loop of `process_diff_rrset`: unmarked records are additions. */
    method AddUnmarkedRecords(ghost name: Name, rrs: seq<Rr>, rrset: Rrset, marked: seq<nat>)
      requires GoodRrset(name, rrset) && GoodRrset(name, Rrset(z, rrset.typ, rrs))
      requires Marks(marked, rrset.rrs, rrs)
      modifies this`add
      ensures add == old(add) + Storable(OnlyIn(rrset.rrs, rrs))
    {
      var sorted := SortMarks(marked);
      SortedMarks(sorted, marked);
      var atmarked, i := 0, 0;
      while i < |rrset.rrs|
        invariant 0 <= i <= |rrset.rrs| && AtMark(sorted, atmarked, i)
        invariant add == old(add) + Storable(OnlyIn(rrset.rrs[..i], rrs))
      {
        RecordByRecord(rrset.rrs, i, rrs);
        Assoc(old(add), Storable(OnlyIn(rrset.rrs[..i], rrs)), Storable(OnlyIn([rrset.rrs[i]], rrs)));
        HasDataIsMember(name, rrset.typ, rrs, rrset.rrs[i]);
        NextMark(sorted, atmarked, i);
        if atmarked < |sorted| && sorted[atmarked] == i {
          atmarked := atmarked + 1;
        } else {
          StoreAdd(rrset.rrs[i]);
        }
        i := i + 1;
      }
      assert rrset.rrs[..i] == rrset.rrs;
    }

    /** `process_diff_rrset`. */
    method DiffRrset(ghost name: Name, rrs: seq<Rr>, rrset: Rrset) returns (ok: bool)
      requires GoodRrset(name, rrset) && GoodRrset(name, Rrset(z, rrset.typ, rrs))
      modifies this`oldsoa, this`del, this`add
      ensures ok ==> del == old(del) + Storable(OnlyIn(rrs, rrset.rrs)) && Soas() == old(Soas()) + SoasOf(rrs)
      ensures ok ==> add == old(add) + Storable(OnlyIn(rrset.rrs, rrs))
      ensures !ok ==> |old(Soas()) + SoasOf(rrs)| > 1
    {
      var marked;
      ok, marked := MarkRrset(rrs, rrset);
      if ok {
        MarkSeqMarks(name, rrset.typ, rrset.rrs, rrs);
        AddUnmarkedRecords(name, rrs, rrset, marked);
      }
    }

    /** `process_add_rrset`. */
    method AddRrset(rrs: seq<Rr>)
      modifies this`add
      ensures add == old(add) + Storable(rrs)
    {
      var i := 0;
      while i < |rrs|
        invariant 0 <= i <= |rrs|
        invariant add == old(add) + Storable(rrs[..i])
      {
        assert rrs[..i + 1] == rrs[..i] + [rrs[i]];
        StorableSnoc(rrs[..i], rrs[i]);
        StoreAdd(rrs[i]);
        i := i + 1;
      }
      assert rrs[..i] == rrs;
    }

    // ----- one name

    static lemma NewTypeByType(rrsets: seq<Rrset>, i: nat, z: nat, marks: seq<nat>)
      requires i < |rrsets|
      ensures NewTypes(rrsets[i..], z, marks) ==
              if rrsets[i].zone == z && rrsets[i].typ !in marks then Storable(rrsets[i].rrs) + NewTypes(rrsets[i + 1..], z, marks)
              else NewTypes(rrsets[i + 1..], z, marks)
    {
      var rest := rrsets[i..];
      assert rest[1..] == rrsets[i + 1..] && rest[0] == rrsets[i];
    }

    /** `process_marktypes`, and with no marks `process_domain_add_RRs`. */
    method AddUnmarked(domain: Domain, marktypes: seq<nat>)
      modifies this`add
      ensures add == old(add) + NewTypes(domain.rrsets, z, marktypes)
    {
      var i := 0;
      while i < |domain.rrsets|
        invariant 0 <= i <= |domain.rrsets|
        invariant add + NewTypes(domain.rrsets[i..], z, marktypes) == old(add) + NewTypes(domain.rrsets, z, marktypes)
      {
        var s := domain.rrsets[i];
        NewTypeByType(domain.rrsets, i, z, marktypes);
        ghost var before, rest := add, NewTypes(domain.rrsets[i + 1..], z, marktypes);
        if s.zone == z && s.typ !in marktypes {
          AddRrset(s.rrs);
          Assoc(before, Storable(s.rrs), rest);
        }
        i := i + 1;
      }
    }

    /** `process_domain_del_RRs`. */
    method DelDomain(o: seq<Rrset>) returns (ok: bool)
      modifies this`oldsoa, this`del
      ensures ok ==> del == old(del) + DelAll(o) && Soas() == old(Soas()) + RrsetSoas(o)
      ensures !ok ==> |old(Soas()) + RrsetSoas(o)| > 1
    {
      var i := 0;
      while i < |o|
        invariant 0 <= i <= |o|
        invariant del + DelAll(o[i..]) == old(del) + DelAll(o)
        invariant Soas() + RrsetSoas(o[i..]) == old(Soas()) + RrsetSoas(o)
      {
        assert o[i..][1..] == o[i + 1..];
        ghost var del0, soas0 := del, Soas();
        ok := SpoolDelRrset(o[i].rrs);
        if !ok {
          assert |soas0 + RrsetSoas(o[i..])| == |soas0| + |SoasOf(o[i].rrs)| + |RrsetSoas(o[i + 1..])|;
          return;
        }
        Assoc(del0, Storable(o[i].rrs), DelAll(o[i + 1..]));
        Assoc(soas0, SoasOf(o[i].rrs), RrsetSoas(o[i + 1..]));
        i := i + 1;
      }
      return true;
    }

    /** The body of the loop in `process_diff_domain`: one spooled RRset. */
    method DiffType(s: Rrset, domain: Domain) returns (ok: bool, isMarked: bool)
      requires GoodRrset(domain.name, s) && GoodDomain(domain, z)
      modifies this`oldsoa, this`del, this`add
      ensures ok ==> del == old(del) + DomainDel([s], domain, z) && Soas() == old(Soas()) + SoasOf(s.rrs)
      ensures ok ==> add == old(add) + CommonAdd([s], domain, z)
      ensures ok ==> Marked([s], domain, z) == if isMarked then [s.typ] else []
      ensures !ok ==> |old(Soas()) + SoasOf(s.rrs)| > 1
    {
      assert [s][1..] == [];
      var at := DomainFindRrset(domain.rrsets, z, s.typ);
      isMarked := at != -1;
      if at == -1 {
        ok := SpoolDelRrset(s.rrs);
      } else {
        FoundGood(domain, z, s.typ);
        ok := DiffRrset(domain.name, s.rrs, domain.rrsets[at]);
      }
    }

    static lemma DelByType(o: seq<Rrset>, d: Domain, z: nat)
      requires o != []
      ensures DomainDel(o, d, z) == DomainDel([o[0]], d, z) + DomainDel(o[1..], d, z)
    {
      assert [o[0]][1..] == [];
    }

    static lemma AddByType(o: seq<Rrset>, d: Domain, z: nat)
      requires o != []
      ensures CommonAdd(o, d, z) == CommonAdd([o[0]], d, z) + CommonAdd(o[1..], d, z)
      ensures Marked(o, d, z) == Marked([o[0]], d, z) + Marked(o[1..], d, z)
    {
      assert [o[0]][1..] == [];
    }

    static lemma TypeByType(o: seq<Rrset>, i: nat, d: Domain, z: nat)
      requires i < |o|
      ensures DomainDel(o[i..], d, z) == DomainDel([o[i]], d, z) + DomainDel(o[i + 1..], d, z)
      ensures CommonAdd(o[i..], d, z) == CommonAdd([o[i]], d, z) + CommonAdd(o[i + 1..], d, z)
      ensures Marked(o[i..], d, z) == Marked([o[i]], d, z) + Marked(o[i + 1..], d, z)
      ensures RrsetSoas(o[i..]) == SoasOf(o[i].rrs) + RrsetSoas(o[i + 1..])
    {
      var rest := o[i..];
      assert rest[1..] == o[i + 1..] && rest[0] == o[i];
      DelByType(rest, d, z);
      AddByType(rest, d, z);
    }

    /** The loop of `process_diff_domain` over the spooled RRsets. */
    method DiffTypes(o: seq<Rrset>, domain: Domain) returns (ok: bool, marktypes: seq<nat>)
      requires GoodRrsets(domain.name, o) && GoodDomain(domain, z)
      modifies this`oldsoa, this`del, this`add
      ensures ok ==> del == old(del) + DomainDel(o, domain, z) && Soas() == old(Soas()) + RrsetSoas(o)
      ensures ok ==> add == old(add) + CommonAdd(o, domain, z) && marktypes == Marked(o, domain, z)
      ensures !ok ==> |old(Soas()) + RrsetSoas(o)| > 1
    {
      marktypes := [];
      var i := 0;
      while i < |o|
        invariant 0 <= i <= |o|
        invariant del + DomainDel(o[i..], domain, z) == old(del) + DomainDel(o, domain, z)
        invariant add + CommonAdd(o[i..], domain, z) == old(add) + CommonAdd(o, domain, z)
        invariant marktypes + Marked(o[i..], domain, z) == Marked(o, domain, z)
        invariant Soas() + RrsetSoas(o[i..]) == old(Soas()) + RrsetSoas(o)
      {
        TypeByType(o, i, domain, z);
        Assoc(Soas(), SoasOf(o[i].rrs), RrsetSoas(o[i + 1..]));
        Assoc(del, DomainDel([o[i]], domain, z), DomainDel(o[i + 1..], domain, z));
        Assoc(add, CommonAdd([o[i]], domain, z), CommonAdd(o[i + 1..], domain, z));
        Assoc(marktypes, Marked([o[i]], domain, z), Marked(o[i + 1..], domain, z));
        var isMarked;
        ok, isMarked := DiffType(o[i], domain);
        if !ok {
          return;
        }
        if isMarked {
          marktypes := marktypes + [o[i].typ];
        } else {
          assert marktypes + [] == marktypes;
        }
        i := i + 1;
      }
      assert o[i..] == [];
      assert del + [] == del && add + [] == add && marktypes + [] == marktypes && Soas() + [] == Soas();
      return true, marktypes;
    }

    /** `process_diff_domain`. */
    method DiffDomain(o: seq<Rrset>, domain: Domain) returns (ok: bool)
      requires GoodRrsets(domain.name, o) && GoodDomain(domain, z)
      modifies this`oldsoa, this`del, this`add
      ensures ok ==> del == old(del) + DomainDel(o, domain, z) && Soas() == old(Soas()) + RrsetSoas(o)
      ensures ok ==> add == old(add) + DomainAdd(o, domain, z)
      ensures !ok ==> |old(Soas()) + RrsetSoas(o)| > 1
    {
      var marktypes;
      ghost var add0 := add;
      ok, marktypes := DiffTypes(o, domain);
      if ok {
        AddUnmarked(domain, marktypes);
        Assoc(add0, CommonAdd(o, domain, z), NewTypes(domain.rrsets, z, marktypes));
      }
    }

    // ----- the walk

    /** No difference is made: two SOA records on the spool, or too large. */
    ghost predicate Refused(g: Stored) {
      |g.soas| > 1 || (maxSize != 0 && size(g) > maxSize)
    }

    // what the store will hold when the rest of the spool and the names in
    // `tail` have been processed

    ghost function FinalDel(tail: seq<Domain>): seq<Rr>
      requires Valid()
      reads this`filePos, this`readFirst, this`eof, this`isProcessed, this`current, this`del
    {
      del + MergeDel(Rest(), tail, parts, z)
    }

    ghost function FinalAdd(tail: seq<Domain>): seq<Rr>
      requires Valid()
      reads this`filePos, this`readFirst, this`eof, this`isProcessed, this`current, this`add
    {
      add + MergeAdd(Rest(), tail, parts, z)
    }

    ghost function FinalSoas(): seq<Rr>
      requires Valid()
      reads this`filePos, this`readFirst, this`eof, this`isProcessed, this`current, this`oldsoa
    {
      Soas() + MergeSoas(Rest(), parts)
    }

    /** What the walk is to store in all. */
    ghost predicate Towards(g: Stored, tail: seq<Domain>)
      requires Valid()
      reads this`filePos, this`readFirst, this`eof, this`isProcessed, this`current, this`del, this`add, this`oldsoa
    {
      FinalDel(tail) == g.del && FinalAdd(tail) == g.add && FinalSoas() == g.soas
    }

    /** `ixfr_create_too_large`. */
    method TooLarge() returns (tooLarge: bool)
      modifies this`cancelled
      ensures tooLarge == cancelled == (old(cancelled) || (maxSize != 0 && size(Stored(del, add, Soas())) > maxSize))
    {
      if cancelled {
        return true;
      }
      var soas := if oldsoa.Some? then [oldsoa.value] else [];
      if maxSize != 0 && size(Stored(del, add, soas)) > maxSize {
        cancelled := true;
        return true;
      }
      return false;
    }

    /** `spool_dname_iter_next`. */
    method IterNext()
      requires Valid()
      modifies this`filePos, this`current, this`readFirst, this`eof, this`isProcessed
      ensures Valid() && Rest() == old(Rest())
      ensures eof <==> Rest() == []
      ensures !eof ==> readFirst && !isProcessed && current == Rest()[0]
    {
      if eof {
        return;
      }
      if !readFirst {
        IterRead();
        readFirst, isProcessed := true, false;
      }
      if !isProcessed {
        return;
      }
      IterRead();
      isProcessed := false;
    }

    /** `spool_dname_iter_read`, with the end delimiter. */
    method IterRead()
      requires filePos <= |spool|
      modifies this`filePos, this`current, this`eof
      ensures if old(filePos) < |spool|
              then filePos == old(filePos) + 1 && current == spool[old(filePos)] && eof == old(eof)
              else eof && filePos == old(filePos) && current == old(current)
    {
      if filePos < |spool| {
        current := spool[filePos];
        filePos := filePos + 1;
      } else {
        eof := true;
      }
    }

    /** The name just processed leaves the rest of the spool. */
    method SetProcessed()
      requires Valid() && readFirst && !eof && !isProcessed
      modifies this`isProcessed
      ensures Valid() && Rest() == old(Rest())[1..]
    {
      isProcessed := true;
      assert spool[filePos - 1..][1..] == spool[filePos..];
    }

    /** The store only grows. */
    lemma TooLargeIsFinal(g: Stored, tail: seq<Domain>)
      requires Valid() && Towards(g, tail) && Growing(size)
      ensures size(Stored(del, add, Soas())) <= size(g)
    {
      assert Extends(Stored(del, add, Soas()), g);
    }

    /** The next spooled name is deleted as a whole. */
    method DelCurrent(ghost g: Stored, ghost tail: seq<Domain>) returns (ok: bool)
      requires Valid() && readFirst && !eof && !isProcessed && Towards(g, tail) && AreDiffParts(parts, z)
      requires tail == [] || (OfZone(tail[0].rrsets, z) != [] && Less(current.name, tail[0].name))
      modifies this`oldsoa, this`del, this`isProcessed
      ensures ok ==> Valid() && readFirst && |Rest()| < old(|Rest()|) && Towards(g, tail)
      ensures !ok ==> |g.soas| > 1
    {
      ghost var rest := Rest();
      assert current == rest[0];
      assert Consider(current, current);
      assert MergeAdd(rest, tail, parts, z) == MergeAdd(rest[1..], tail, parts, z);
      Assoc(del, DelAll(current.rrsets), MergeDel(rest[1..], tail, parts, z));
      Assoc(Soas(), RrsetSoas(current.rrsets), MergeSoas(rest[1..], parts));
      ok := DelDomain(current.rrsets);
      if ok {
        SetProcessed();
      }
    }

    /** Deletes the next spooled name and checks the size. */
    method DelAndCheck(ghost g: Stored, ghost tail: seq<Domain>) returns (ok: bool)
      requires Valid() && readFirst && !eof && !isProcessed && Towards(g, tail) && AreDiffParts(parts, z)
      requires tail == [] || (OfZone(tail[0].rrsets, z) != [] && Less(current.name, tail[0].name))
      requires Growing(size) && !cancelled
      modifies this`oldsoa, this`del, this`isProcessed, this`cancelled
      ensures ok ==> Valid() && !cancelled && Towards(g, tail) && |Rest()| < old(|Rest()|)
      ensures ok && maxSize != 0 ==> size(Stored(del, add, Soas())) <= maxSize
      ensures !ok ==> Refused(g)
    {
      ok := DelCurrent(g, tail);
      if ok {
        TooLargeIsFinal(g, tail);
        var tooLarge := TooLarge();
        ok := !tooLarge;
      }
    }

    /** The loop body of `process_spool_before_domain`; it ends the loop when
        the spool is at or after the domain. */
    method SpoolBeforeStep(domain: Domain, ghost g: Stored, ghost tail: seq<Domain>) returns (ok: bool, atDomain: bool)
      requires Valid() && Growing(size) && !cancelled && Towards(g, tail) && AreDiffParts(parts, z)
      requires tail != [] && tail[0] == domain && OfZone(domain.rrsets, z) != []
      modifies this
      ensures ok ==> Valid() && !cancelled && Towards(g, tail)
      ensures ok && atDomain ==> eof || (readFirst && !isProcessed && !Less(current.name, domain.name))
      ensures ok && !atDomain ==> |Rest()| < old(|Rest()|)
      ensures !ok ==> Refused(g)
    {
      atDomain := false;
      IterNext();
      if eof {
        return true, true;
      }
      var c := Compare(current.name, domain.name);
      if c >= 0 {
        return true, true;
      }
      ok := DelAndCheck(g, tail);
    }

    /** `process_spool_before_domain`: spooled names before `domain` are gone. */
    method SpoolBeforeDomain(domain: Domain, ghost g: Stored, ghost tail: seq<Domain>) returns (ok: bool)
      requires Valid() && Growing(size) && !cancelled && Towards(g, tail) && AreDiffParts(parts, z)
      requires tail != [] && tail[0] == domain && OfZone(domain.rrsets, z) != []
      modifies this
      ensures ok ==> Valid() && !cancelled && Towards(g, tail)
      ensures ok ==> eof || (readFirst && !isProcessed && !Less(current.name, domain.name))
      ensures !ok ==> Refused(g)
    {
      TooLargeIsFinal(g, tail);
      var tooLarge := TooLarge();
      if tooLarge {
        return false;
      }
      ok := SpoolBeforeLoop(domain, g, tail);
    }

    /** Its loop. */
    method SpoolBeforeLoop(domain: Domain, ghost g: Stored, ghost tail: seq<Domain>) returns (ok: bool)
      requires Valid() && Growing(size) && !cancelled && Towards(g, tail) && AreDiffParts(parts, z)
      requires tail != [] && tail[0] == domain && OfZone(domain.rrsets, z) != []
      modifies this
      ensures ok ==> Valid() && !cancelled && Towards(g, tail)
      ensures ok ==> eof || (readFirst && !isProcessed && !Less(current.name, domain.name))
      ensures !ok ==> Refused(g)
    {
      ok := true;
      while !eof
        invariant ok && Valid() && !cancelled && Towards(g, tail)
        decreases |Rest()|
      {
        var atDomain;
        ok, atDomain := SpoolBeforeStep(domain, g, tail);
        if !ok || atDomain {
          return;
        }
      }
    }

    /** The spooled name is `domain`. */
    method DiffCurrent(domain: Domain, ghost g: Stored, ghost tail: seq<Domain>) returns (ok: bool)
      requires Valid() && readFirst && !eof && !isProcessed && Towards(g, tail) && AreDiffParts(parts, z)
      requires tail != [] && tail[0] == domain && OfZone(domain.rrsets, z) != []
      requires GoodDomain(domain, z) && current.name == domain.name && GoodRrsets(current.name, current.rrsets)
      modifies this`oldsoa, this`del, this`add, this`isProcessed
      ensures ok ==> Valid() && Towards(g, tail[1..])
      ensures !ok ==> |g.soas| > 1
    {
      ghost var rest := Rest();
      assert current == rest[0];
      assert Consider(current, domain);
      Total(current.name, domain.name);
      Assoc(del, DomainDel(current.rrsets, domain, z), MergeDel(rest[1..], tail[1..], parts, z));
      Assoc(add, DomainAdd(current.rrsets, domain, z), MergeAdd(rest[1..], tail[1..], parts, z));
      Assoc(Soas(), RrsetSoas(current.rrsets), MergeSoas(rest[1..], parts));
      ok := DiffDomain(current.rrsets, domain);
      if ok {
        SetProcessed();
      }
    }

    /** `process_domain_add_RRs`: `domain` is not on the spool. */
    method AddDomain(domain: Domain, ghost g: Stored, ghost tail: seq<Domain>)
      requires Valid() && Towards(g, tail) && AreDiffParts(parts, z)
      requires tail != [] && tail[0] == domain && OfZone(domain.rrsets, z) != []
      requires eof || (readFirst && !isProcessed && current.name != domain.name && !Less(current.name, domain.name))
      modifies this`add
      ensures Towards(g, tail[1..])
    {
      ghost var rest := Rest();
      assert Consider(domain, domain);
      assert MergeDel(rest, tail, parts, z) == MergeDel(rest, tail[1..], parts, z);
      Assoc(add, NewTypes(domain.rrsets, z, []), MergeAdd(rest, tail[1..], parts, z));
      AddUnmarked(domain, []);
    }

    /** `process_spool_for_domain`. */
    method SpoolForDomain(domain: Domain, ghost g: Stored, ghost tail: seq<Domain>) returns (ok: bool)
      requires Valid() && Growing(size) && !cancelled && AllOld(spool) && Towards(g, tail) && AreDiffParts(parts, z)
      requires tail != [] && tail[0] == domain && OfZone(domain.rrsets, z) != [] && GoodDomain(domain, z)
      modifies this
      ensures ok ==> Valid() && !cancelled && Towards(g, tail[1..])
      ensures !ok ==> Refused(g)
    {
      ok := SpoolBeforeDomain(domain, g, tail);
      if !ok {
        return;
      }
      TooLargeIsFinal(g, tail);
      var tooLarge := TooLarge();
      if tooLarge {
        return false;
      }
      ok := SpoolAtDomain(domain, g, tail);
    }

    /** With the spool at or after `domain`. */
    method SpoolAtDomain(domain: Domain, ghost g: Stored, ghost tail: seq<Domain>) returns (ok: bool)
      requires Valid() && AllOld(spool) && Towards(g, tail) && AreDiffParts(parts, z)
      requires tail != [] && tail[0] == domain && OfZone(domain.rrsets, z) != [] && GoodDomain(domain, z)
      requires eof || (readFirst && !isProcessed && !Less(current.name, domain.name))
      modifies this`oldsoa, this`del, this`add, this`isProcessed
      ensures ok ==> Valid() && Towards(g, tail[1..])
      ensures !ok ==> Refused(g)
    {
      if eof || current.name != domain.name {
        AddDomain(domain, g, tail);
        return true;
      }
      AllOldAt(spool, filePos - 1);
      ok := DiffCurrent(domain, g, tail);
    }

    /** The loop body of `process_spool_remaining`. */
    method SpoolRemainingStep(ghost g: Stored) returns (ok: bool)
      requires Valid() && Growing(size) && !cancelled && Towards(g, []) && AreDiffParts(parts, z) && !eof
      requires maxSize != 0 ==> size(Stored(del, add, Soas())) <= maxSize
      modifies this
      ensures ok ==> Valid() && !cancelled && Towards(g, []) && (eof || |Rest()| < old(|Rest()|))
      ensures ok && maxSize != 0 ==> size(Stored(del, add, Soas())) <= maxSize
      ensures !ok ==> Refused(g)
    {
      IterNext();
      if eof {
        return true;
      }
      ok := DelAndCheck(g, []);
    }

    /** `process_spool_remaining`. */
    method SpoolRemaining(ghost g: Stored) returns (ok: bool)
      requires Valid() && Growing(size) && !cancelled && Towards(g, []) && AreDiffParts(parts, z)
      modifies this
      ensures ok ==> Stored(del, add, Soas()) == g
      ensures ok <==> !Refused(g)
    {
      TooLargeIsFinal(g, []);
      var tooLarge := TooLarge();
      if tooLarge {
        return false;
      }
      while !eof
        invariant Valid() && !cancelled && Towards(g, [])
        invariant maxSize != 0 ==> size(Stored(del, add, Soas())) <= maxSize
        decreases !eof, |Rest()|
      {
        ok := SpoolRemainingStep(g);
        if !ok {
          return;
        }
      }
      AllDone(g);
      return true;
    }

    lemma AllDone(g: Stored)
      requires Valid() && eof && Towards(g, [])
      ensures Stored(del, add, Soas()) == g
      ensures |g.soas| <= 1
    {
      assert del + [] == del && add + [] == add && Soas() + [] == Soas();
    }

    /** The loop body of `ixfr_create_walk_zone`. */
    method WalkStep(domain: Domain, ghost g: Stored, ghost tail: seq<Domain>) returns (ok: bool)
      requires Valid() && Growing(size) && !cancelled && AllOld(spool) && Towards(g, tail) && AreDiffParts(parts, z)
      requires tail != [] && tail[0] == domain && GoodDomain(domain, z)
      modifies this
      ensures ok ==> Valid() && !cancelled && Towards(g, tail[1..])
      ensures !ok ==> Refused(g)
    {
      if OfZone(domain.rrsets, z) == [] {
        return true;
      }
      ok := SpoolForDomain(domain, g, tail);
      if ok {
        TooLargeIsFinal(g, tail[1..]);
        var tooLarge := TooLarge();
        ok := !tooLarge;
      }
    }

    ghost function WholeWalk(domains: seq<Domain>): Stored {
      Stored(MergeDel(spool, domains, parts, z), MergeAdd(spool, domains, parts, z), MergeSoas(spool, parts))
    }

    lemma AtStart(domains: seq<Domain>)
      requires Valid() && Rest() == spool && del == [] && add == [] && oldsoa == None
      ensures Towards(WholeWalk(domains), domains)
    {
      var g := WholeWalk(domains);
      assert [] + g.del == g.del && [] + g.add == g.add && [] + g.soas == g.soas;
    }

    /** `ixfr_create_walk_zone`: the store ends up with the exact difference,
        unless it is refused. */
    method WalkZone(domains: seq<Domain>) returns (ok: bool)
      requires Valid() && Growing(size) && !cancelled && AreDiffParts(parts, z)
      requires AllOld(spool) && AllNew(domains, z)
      requires Rest() == spool && del == [] && add == [] && oldsoa == None
      modifies this
      ensures ok <==> !Refused(WholeWalk(domains))
      ensures ok ==> Stored(del, add, Soas()) == WholeWalk(domains)
    {
      ghost var g := WholeWalk(domains);
      AtStart(domains);
      assert domains[0..] == domains;
      var i := 0;
      while i < |domains|
        invariant 0 <= i <= |domains|
        invariant Valid() && !cancelled && Towards(g, domains[i..])
      {
        AllNewAt(domains, z, i);
        ghost var tail := domains[i..];
        assert tail[1..] == domains[i + 1..];
        ok := WalkStep(domains[i], g, tail);
        if !ok {
          return;
        }
        i := i + 1;
      }
      assert domains[i..] == [];
      ok := SpoolRemaining(g);
    }
  }
}
