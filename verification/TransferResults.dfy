/** What a transfer does to the zone contents: a full transfer replaces them,
    an incremental one moves them along the differences it carries. */
module TransferResults {
  import opened Names
  import opened Sequences
  import opened Records
  import opened Apply
  import opened Transfer

  // ----- full transfers

  ghost predicate Matches(c: set<Rr>, r: Rr) {
    exists was :: was in c && was.owner == r.owner && Same(was, r)
  }

  ghost predicate Repeats(s: seq<Rr>, i: nat)
    requires i < |s|
  {
    exists j :: 0 <= j < i && s[j].owner == s[i].owner && Same(s[j], s[i])
  }

  /** The records of `s` that a full transfer keeps when the zone starts with
      `base`: pseudo records are dropped, and of matching records only the
      first counts. */
  ghost function Kept(base: set<Rr>, s: seq<Rr>): set<Rr> {
    base + set i | 0 <= i < |s| && !IsPseudo(s[i]) && !Repeats(s, i) && !Matches(base, s[i]) :: s[i]
  }

  ghost predicate SoasShaped(s: seq<Rr>) {
    forall r :: r in s && IsSoa(r) ==> SoaShaped(r.rdata)
  }

  lemma Representative(base: set<Rr>, s: seq<Rr>, j: nat)
    requires j < |s| && !IsPseudo(s[j]) && SoasShaped(s)
    ensures Matches(Kept(base, s), s[j])
  {
    if Matches(base, s[j]) {
      var k :| k in base && k.owner == s[j].owner && Same(k, s[j]);
      assert k in Kept(base, s);
    } else if Repeats(s, j) {
      var i :| 0 <= i < j && s[i].owner == s[j].owner && Same(s[i], s[j]);
      Representative(base, s, i);
      var k :| k in Kept(base, s) && k.owner == s[i].owner && Same(k, s[i]);
      SameTransitive(k, s[i], s[j]);
    } else {
      SameReflexive(s[j]);
      assert s[j] in Kept(base, s);
    }
  }

  lemma RepeatsPrefix(s: seq<Rr>, r: Rr, i: nat)
    requires i < |s|
    ensures (s + [r])[i] == s[i] && (Repeats(s + [r], i) <==> Repeats(s, i))
  {
    var t := s + [r];
    if Repeats(t, i) {
      var j :| 0 <= j < i && t[j].owner == t[i].owner && Same(t[j], t[i]);
      assert s[j].owner == s[i].owner && Same(s[j], s[i]);
    }
    if Repeats(s, i) {
      var j :| 0 <= j < i && s[j].owner == s[i].owner && Same(s[j], s[i]);
      assert t[j].owner == t[i].owner && Same(t[j], t[i]);
    }
  }

  /** The last record repeats an earlier one exactly when a kept one matches. */
  lemma RepeatsLast(base: set<Rr>, s: seq<Rr>, r: Rr)
    requires SoasShaped(s) && !IsPseudo(r)
    ensures Matches(Kept(base, s), r) <==> Matches(base, r) || Repeats(s + [r], |s|)
  {
    var t := s + [r];
    if Repeats(t, |s|) {
      var j :| 0 <= j < |s| && t[j].owner == t[|s|].owner && Same(t[j], t[|s|]);
      Representative(base, s, j);
      var k :| k in Kept(base, s) && k.owner == s[j].owner && Same(k, s[j]);
      SameTransitive(k, s[j], r);
    }
    if Matches(Kept(base, s), r) {
      var k :| k in Kept(base, s) && k.owner == r.owner && Same(k, r);
      if k !in base {
        var i :| 0 <= i < |s| && s[i] == k;
        assert t[i].owner == t[|s|].owner && Same(t[i], t[|s|]);
      }
    }
    if Matches(base, r) {
      var k :| k in base && k.owner == r.owner && Same(k, r);
      assert k in Kept(base, s);
    }
  }

  lemma KeptSnoc(base: set<Rr>, s: seq<Rr>, r: Rr)
    requires SoasShaped(s)
    ensures Kept(base, s + [r]) ==
            if IsPseudo(r) || Matches(Kept(base, s), r) then Kept(base, s) else Kept(base, s) + {r}
  {
    var t := s + [r];
    forall i | 0 <= i < |s|
      ensures t[i] == s[i] && (Repeats(t, i) <==> Repeats(s, i))
    {
      RepeatsPrefix(s, r, i);
    }
    if !IsPseudo(r) {
      RepeatsLast(base, s, r);
    }
    forall x
      ensures x in Kept(base, t) <==>
              x in Kept(base, s) || (x == r && !IsPseudo(r) && !Matches(Kept(base, s), r))
    {
      if x in Kept(base, s) && x !in base {
        var i :| 0 <= i < |s| && !IsPseudo(s[i]) && !Repeats(s, i) && !Matches(base, s[i]) && s[i] == x;
        assert t[i] == x;
      }
      if x == r && !IsPseudo(r) && !Matches(Kept(base, s), r) {
        assert t[|s|] == x;
      }
    }
  }

  ghost predicate Overfull(c: set<Rr>) {
    exists owner: Name, typ: nat :: |RrsetOf(c, owner, typ)| > MAX_RR_COUNT
  }

  ghost predicate Filling(x: Xfr, c: set<Rr>) {
    Valid(x.zone) && Contents(x.zone) == c && x.isAxfr && !x.deleteMode && x.rrCount >= 2
  }

  lemma {:induction false} FillStep(x: Xfr, base: set<Rr>, sofar: seq<Rr>, r: Rr, g: Goal)
    requires Valid(x.zone) && Contents(x.zone) == Kept(base, sofar) && x.isAxfr && !x.deleteMode && x.rrCount >= 1
    requires SoasShaped(sofar + [r])
    ensures match EditRr(x, r, g)
            case Continue(y) => Filling(y, Kept(base, sofar + [r]))
            case Failed(_) => Overfull(Kept(base, sofar + [r]))
            case SkipRest(_) => false
  {
    assert r in sofar + [r];
    assert SoasShaped(sofar) by {
      assert forall q :: q in sofar ==> q in sofar + [r];
    }
    KeptSnoc(base, sofar, r);
    if !IsPseudo(r) {
      AddContents(x.zone, r);
      if EditRr(x, r, g).Failed? {
        OneTooMany(Contents(x.zone), r);
      }
    }
  }

  lemma OneTooMany(c: set<Rr>, r: Rr)
    requires |RrsetOf(c, r.owner, r.typ)| == MAX_RR_COUNT && (IsSoa(r) ==> SoaShaped(r.rdata))
    requires !exists was :: was in c && was.owner == r.owner && Same(was, r)
    ensures Overfull(c + {r})
  {
    if r in c {
      SameReflexive(r);
      assert false;
    }
    assert RrsetOf(c + {r}, r.owner, r.typ) == RrsetOf(c, r.owner, r.typ) + {r};
  }

  lemma {:induction false} FillRun(x: Xfr, base: set<Rr>, sofar: seq<Rr>, rest: seq<Rr>, g: Goal, lastPart: bool)
    requires Filling(x, Kept(base, sofar))
    requires SoasShaped(sofar + rest)
    ensures match RunPart(x, rest, g, lastPart)
            case Continue(y) => Filling(y, Kept(base, sofar + rest))
            case Failed(_) => Overfull(Kept(base, sofar + rest))
            case SkipRest(_) => false
    decreases |rest|
  {
    if rest == [] {
      assert sofar + rest == sofar;
    } else {
      var r := rest[0];
      assert sofar + rest == (sofar + [r]) + rest[1..];
      assert r in sofar + rest;
      assert SoasShaped(sofar + [r]) by {
        assert forall q :: q in sofar + [r] ==> q in sofar + rest;
      }
      FillStep(x, base, sofar, r, g);
      match EditRr(x, r, g) {
        case Continue(y) => FillRun(y, base, sofar + [r], rest[1..], g, lastPart);
        case Failed(_) =>
          OverfullGrows(base, sofar + [r], rest[1..]);
      }
    }
  }

  lemma {:induction false} OverfullGrows(base: set<Rr>, s: seq<Rr>, t: seq<Rr>)
    requires SoasShaped(s + t) && Overfull(Kept(base, s))
    ensures Overfull(Kept(base, s + t))
    decreases |t|
  {
    if t == [] {
      assert s + t == s;
    } else {
      assert s + t == (s + [t[0]]) + t[1..];
      assert SoasShaped(s) by {
        assert forall q :: q in s ==> q in s + t;
      }
      KeptSnoc(base, s, t[0]);
      var owner, typ :| |RrsetOf(Kept(base, s), owner, typ)| > MAX_RR_COUNT;
      SubsetSize(RrsetOf(Kept(base, s), owner, typ), RrsetOf(Kept(base, s + [t[0]]), owner, typ));
      OverfullGrows(base, s + [t[0]], t[1..]);
    }
  }

  lemma {:induction false} SubsetSize<T>(a: set<T>, b: set<T>)
    requires a <= b
    ensures |a| <= |b|
  {
    assert b == a + (b - a);
  }

  lemma NotOverfull(z: Rrsets)
    requires Valid(z)
    ensures !Overfull(Contents(z))
  {
    forall owner: Name, typ: nat
      ensures |RrsetOf(Contents(z), owner, typ)| <= MAX_RR_COUNT
    {
      RrsetSize(z, owner, typ);
      if (owner, typ) in z {
        assert ValidRrset((owner, typ), z[(owner, typ)]);
      }
    }
  }

  ghost predicate GoodFirst(rr: Rr, g: Goal) {
    ZoneSoa(rr, g.apex) && Serial(rr.rdata) == g.serialno
  }

  /** The records of the zone at names that are not at or below the apex. */
  ghost function Foreign(c: set<Rr>, apex: Name): set<Rr> {
    set r | r in c && !IsSubdomain(r.owner, apex)
  }

  /** A transfer whose second record is not a SOA record, or repeats the new
      serial: the zone then holds its records outside the apex, which stay, and
      the records after the first that match none of these; it fails exactly
      when some RRset outgrows its counter. */
  lemma AxfrLeaves(z: Rrsets, first: Rr, rest: seq<Rr>, g: Goal, lastPart: bool)
    requires Valid(z) && GoodFirst(first, g)
    requires rest != [] && SoasShaped(rest)
    requires IsSoa(rest[0]) ==> Serial(rest[0].rdata) == g.serialno
    ensures var o := RunPart(Start(z), [first] + rest, g, lastPart);
            var kept := Kept(Foreign(Contents(z), g.apex), rest);
            && (o.Continue? <==> !Overfull(kept))
            && (o.Continue? ==> Valid(o.x.zone) && Contents(o.x.zone) == kept && o.x.isAxfr)
            && !o.SkipRest?
  {
    var x := Start(z).(rrCount := 1);
    assert Step(Start(z), first, g, false) == Continue(x);
    RunFirst(Start(z), first, rest, g, lastPart);
    var r, ax := rest[0], StartAxfr(x, g.apex);
    assert [r] + rest[1..] == rest;
    RunFirst(x, r, rest[1..], g, lastPart);
    assert Step(x, r, g, lastPart && rest[1..] == []) == EditRr(ax, r, g) by {
      assert r in rest;
    }
    OutsideContents(z, g.apex);
    var base := Foreign(Contents(z), g.apex);
    FillFirst(ax, base, rest, g);
    match EditRr(ax, r, g) {
      case Continue(y) =>
        FillRun(y, base, [r], rest[1..], g, lastPart);
        var o := RunPart(y, rest[1..], g, lastPart);
        if o.Continue? {
          NotOverfull(o.x.zone);
        }
      case Failed(_) =>
        OverfullGrows(base, [r], rest[1..]);
    }
  }

  lemma FillFirst(ax: Xfr, base: set<Rr>, rest: seq<Rr>, g: Goal)
    requires rest != [] && SoasShaped(rest)
    requires Valid(ax.zone) && Contents(ax.zone) == base && ax.isAxfr && !ax.deleteMode && ax.rrCount >= 1
    ensures match EditRr(ax, rest[0], g)
            case Continue(y) => Filling(y, Kept(base, [rest[0]]))
            case Failed(_) => Overfull(Kept(base, [rest[0]]))
            case SkipRest(_) => false
  {
    var r := rest[0];
    assert [] + [r] == [r];
    assert Kept(base, []) == base;
    assert SoasShaped([] + [r]) by {
      assert forall q :: q in [r] ==> q in rest;
    }
    FillStep(ax, base, [], r, g);
  }

  /** Records kept by a transfer match no other one. */
  lemma KeptOnce(s: seq<Rr>, a: Rr, b: Rr)
    requires a in Kept({}, s) && b in Kept({}, s) && a.owner == b.owner && Same(a, b)
    ensures a == b
  {
    var i :| 0 <= i < |s| && !Repeats(s, i) && s[i] == a;
    var j :| 0 <= j < |s| && !Repeats(s, j) && s[j] == b;
    SameSymmetric(a, b);
    assert i == j;
  }

  /** The leftovers do not show exactly when the transfer keeps them all. */
  lemma KeptOver(base: set<Rr>, s: seq<Rr>)
    requires forall r :: r in base && IsSoa(r) ==> SoaShaped(r.rdata)
    ensures Kept(base, s) == Kept({}, s) <==> base <= Kept({}, s)
  {
    if base <= Kept({}, s) {
      forall r
        ensures r in Kept(base, s) <==> r in Kept({}, s)
      {
        if r in Kept({}, s) && r !in base {
          var i :| 0 <= i < |s| && !IsPseudo(s[i]) && !Repeats(s, i) && s[i] == r;
          if Matches(base, r) {
            var b :| b in base && b.owner == r.owner && Same(b, r);
            KeptOnce(s, b, r);
          }
          assert s[i] in Kept(base, s);
        }
      }
    }
  }

  /** A full transfer that goes through replaces the zone by its own records
      exactly when it repeats every record that the zone holds outside the
      apex; so it does when there are none. */
  lemma AxfrReplaces(z: Rrsets, first: Rr, rest: seq<Rr>, g: Goal, lastPart: bool)
    requires Valid(z) && GoodFirst(first, g)
    requires rest != [] && SoasShaped(rest)
    requires IsSoa(rest[0]) ==> Serial(rest[0].rdata) == g.serialno
    ensures var o := RunPart(Start(z), [first] + rest, g, lastPart);
            var foreign := Foreign(Contents(z), g.apex);
            && (o.Continue? ==> (Contents(o.x.zone) == Kept({}, rest) <==> foreign <= Kept({}, rest)))
            && (foreign <= Kept({}, rest) ==> (o.Continue? <==> !Overfull(Kept({}, rest))))
  {
    AxfrLeaves(z, first, rest, g, lastPart);
    forall r | r in Contents(z) && IsSoa(r)
      ensures SoaShaped(r.rdata)
    {
      InContents(z, r);
      assert ValidRrset((r.owner, r.typ), z[(r.owner, r.typ)]);
    }
    KeptOver(Foreign(Contents(z), g.apex), rest);
  }

  /** Nothing checks the owners of a transfer: one that carries a record of
      another name leaves it in the zone, and the next full transfer, which
      does not have it, leaves it there. */
  lemma ForeignRecordStays(first: Rr, stray: Rr, g: Goal, again: Goal, second: Rr)
    requires GoodFirst(first, g) && GoodFirst(second, again) && g.apex == again.apex
    requires !IsSubdomain(stray.owner, g.apex) && !IsSoa(stray) && !IsPseudo(stray)
    ensures var o := RunPart(Start(map[]), [first] + [stray, first], g, true);
            && o.Continue? && Valid(o.x.zone)
            && var o' := RunPart(Start(o.x.zone), [second] + [second], again, true);
            && o'.Continue? && Contents(o'.x.zone) == {stray, second} && Kept({}, [second]) == {second}
  {
    StrayArrives(first, stray, g);
    var o := RunPart(Start(map[]), [first] + [stray, first], g, true);
    StrayStays(o.x.zone, first, stray, second, again);
  }

  lemma StrayArrives(first: Rr, stray: Rr, g: Goal)
    requires GoodFirst(first, g) && !IsSubdomain(stray.owner, g.apex) && !IsSoa(stray) && !IsPseudo(stray)
    ensures var o := RunPart(Start(map[]), [first] + [stray, first], g, true);
            o.Continue? && Valid(o.x.zone) && Contents(o.x.zone) == {stray, first}
  {
    AxfrLeaves(map[], first, [stray, first], g, true);
    assert Foreign(Contents(map[]), g.apex) == {};
    TwoKept(stray, first);
    SmallNotOverfull({stray, first});
  }

  lemma StrayStays(z: Rrsets, first: Rr, stray: Rr, second: Rr, g: Goal)
    requires Valid(z) && Contents(z) == {stray, first} && first.owner == g.apex
    requires GoodFirst(second, g) && !IsSubdomain(stray.owner, g.apex)
    ensures var o := RunPart(Start(z), [second] + [second], g, true);
            o.Continue? && Contents(o.x.zone) == {stray, second} && Kept({}, [second]) == {second}
  {
    AxfrLeaves(z, second, [second], g, true);
    assert Foreign(Contents(z), g.apex) == {stray};
    OneKept({}, second);
    OneKept({stray}, second);
    assert {stray} + {second} == {stray, second};
    SmallNotOverfull({stray, second});
  }

  lemma OneKept(base: set<Rr>, r: Rr)
    requires !IsPseudo(r) && !Matches(base, r)
    ensures Kept(base, [r]) == base + {r}
  {
    assert [] + [r] == [r] && Kept(base, []) == base;
    KeptSnoc(base, [], r);
  }

  lemma TwoKept(a: Rr, b: Rr)
    requires !IsPseudo(a) && !IsPseudo(b) && !IsSoa(a) && a.owner != b.owner
    ensures Kept({}, [a, b]) == {a, b}
  {
    OneKept({}, a);
    assert [a] + [b] == [a, b];
    KeptSnoc({}, [a], b);
  }

  lemma SmallNotOverfull(c: set<Rr>)
    requires |c| <= 2
    ensures !Overfull(c)
  {
    forall owner: Name, typ: nat
      ensures |RrsetOf(c, owner, typ)| <= MAX_RR_COUNT
    {
      SubsetSize(RrsetOf(c, owner, typ), c);
    }
  }

  // ----- what stops a transfer at its start

  /** The SOA record of the zone with the serial that was announced. */
  predicate Announced(r: Rr, g: Goal) {
    r.owner == g.apex && r.typ == TYPE_SOA && r.klass == CLASS_IN && SoaShaped(r.rdata) && Serial(r.rdata) == g.serialno
  }

  /** The first record decides: anything but the SOA record that was announced is
      fatal, with the zone as it was, and that record itself changes nothing. */
  lemma FirstRecordDecides(z: Rrsets, r: Rr, g: Goal, final: bool)
    ensures Announced(r, g) <==> Step(Start(z), r, g, final) == Continue(Start(z).(rrCount := 1))
    ensures !Announced(r, g) <==> Step(Start(z), r, g, final) == Failed(Start(z))
  {
  }

  lemma BadStartFails(z: Rrsets, parts: seq<seq<Rr>>, g: Goal)
    requires parts != [] && parts[0] != [] && !Announced(parts[0][0], g)
    ensures RunParts(Start(z), parts, g) == Failed(Start(z))
  {
  }

  /** An incremental transfer to a zone without a SOA record is dropped: the
      packet is left at its second record, with the zone as it was. */
  lemma NoSoaSkips(z: Rrsets, first: Rr, r: Rr, rest: seq<Rr>, g: Goal, lastPart: bool)
    requires Announced(first, g) && IsSoa(r) && SoaShaped(r.rdata) && Serial(r.rdata) != g.serialno && (g.apex, TYPE_SOA) !in z
    ensures var o := RunPart(Start(z), [first, r] + rest, g, lastPart);
            o.SkipRest? && o.x.zone == z && !o.x.softfail
  {
    var part := [first, r] + rest;
    assert part[1..][0] == r;
  }

  /** A malformed SOA record behind the first is fatal, with the zone as it was
      before it. */
  lemma MalformedSoaFails(x: Xfr, r: Rr, rest: seq<Rr>, g: Goal, lastPart: bool)
    requires IsSoa(r) && !SoaShaped(r.rdata)
    ensures RunPart(x, [r] + rest, g, lastPart) == Failed(x)
  {
  }

  // ----- incremental transfers

  /** One stored difference between two versions. */
  datatype Delta = Delta(oldsoa: Rr, newsoa: Rr, del: seq<Rr>, add: seq<Rr>)

  function NonSoa(c: set<Rr>): set<Rr> {
    set r | r in c && !IsSoa(r)
  }

  /** `d` is exactly the difference from contents `v` to contents `w`. */
  ghost predicate IsDelta(d: Delta, v: set<Rr>, w: set<Rr>) {
    && Distinct(d.del) && Elements(d.del) == NonSoa(v - w)
    && Distinct(d.add) && Elements(d.add) == NonSoa(w - v)
  }

  /** Both sections as stored end with the new SOA record. */
  function Body(d: Delta): seq<Rr> {
    (d.del + [d.newsoa]) + (d.add + [d.newsoa])
  }

  function Bodies(ds: seq<Delta>): seq<Rr> {
    if ds == [] then [] else Body(ds[0]) + Bodies(ds[1..])
  }

  /** The collated response (section 4 of RFC 1995). */
  function Response(ds: seq<Delta>): seq<Rr>
    requires ds != []
  {
    [ds[|ds| - 1].newsoa, ds[0].oldsoa] + Bodies(ds)
  }

  /** Versions `vs` with SOA records `soas`, and the differences between them. */
  ghost predicate History(apex: Name, vs: seq<set<Rr>>, soas: seq<Rr>, ds: seq<Delta>) {
    && |vs| == |soas| == |ds| + 1
    && (forall i :: 0 <= i < |vs| ==> IsZone(vs[i], apex, soas[i]))
    && forall i {:trigger ds[i]} :: 0 <= i < |ds| ==> ds[i].oldsoa == soas[i] && ds[i].newsoa == soas[i + 1] && IsDelta(ds[i], vs[i], vs[i + 1])
  }

  /** Midway in an incremental transfer, with contents `c` and no failure. */
  ghost predicate At(x: Xfr, c: set<Rr>, deleting: bool) {
    && Valid(x.zone) && Contents(x.zone) == c
    && !x.isAxfr && x.deleteMode == deleting && x.rrCount >= 2 && !x.softfail
  }

  lemma {:induction false} RunDels(x: Xfr, c: set<Rr>, dels: seq<Rr>, g: Goal)
    requires At(x, c, true)
    requires Distinct(dels)
    requires forall d :: d in dels ==> d in c && !IsSoa(d) && !IsPseudo(d)
    ensures var o := RunPart(x, dels, g, false);
            o.Continue? && At(o.x, c - Elements(dels), true)
    decreases |dels|
  {
    if dels == [] {
      assert c - Elements(dels) == c;
    } else {
      var d := dels[0];
      SameReflexive(d);
      DeleteContents(x.zone, g.apex, d);
      var y := EditRr(x, d, g).x;
      assert At(y, c - {d}, true);
      assert forall e :: e in dels[1..] ==> e in dels && e != d;
      RunDels(y, c - {d}, dels[1..], g);
      assert Elements(dels) == {d} + Elements(dels[1..]);
      assert c - Elements(dels) == c - {d} - Elements(dels[1..]);
    }
  }

  lemma AddNew(x: Xfr, c: set<Rr>, r: Rr, w: set<Rr>, g: Goal)
    requires At(x, c, false)
    requires r in w && r !in c && c <= w && UniqueKeys(w) && !IsPseudo(r)
    requires IsSoa(r) ==> SoaShaped(r.rdata)
    requires |RrsetOf(w, r.owner, r.typ)| <= MAX_RR_COUNT
    ensures var o := EditRr(x, r, g);
            o.Continue? && At(o.x, c + {r}, false)
  {
    AddContents(x.zone, r);
    RoomFor(c, r, w);
  }

  lemma RoomFor(c: set<Rr>, r: Rr, w: set<Rr>)
    requires r in w && r !in c && c <= w
    ensures RrsetOf(c + {r}, r.owner, r.typ) == RrsetOf(c, r.owner, r.typ) + {r}
    ensures |RrsetOf(c + {r}, r.owner, r.typ)| <= |RrsetOf(w, r.owner, r.typ)|
  {
    SubsetSize(RrsetOf(c + {r}, r.owner, r.typ), RrsetOf(w, r.owner, r.typ));
  }

  lemma {:induction false} RunAdds(x: Xfr, c: set<Rr>, adds: seq<Rr>, w: set<Rr>, g: Goal)
    requires At(x, c, false)
    requires Distinct(adds) && c <= w && UniqueKeys(w)
    requires forall a :: a in adds ==> a in w && a !in c && !IsSoa(a) && !IsPseudo(a)
    requires forall owner: Name, typ: nat :: |RrsetOf(w, owner, typ)| <= MAX_RR_COUNT
    ensures var o := RunPart(x, adds, g, false);
            o.Continue? && At(o.x, c + Elements(adds), false)
    decreases |adds|
  {
    if adds == [] {
      assert c + Elements(adds) == c;
    } else {
      var a := adds[0];
      AddNew(x, c, a, w, g);
      var y := EditRr(x, a, g).x;
      assert forall e :: e in adds[1..] ==> e in adds && e != a;
      RunAdds(y, c + {a}, adds[1..], w, g);
      assert Elements(adds) == {a} + Elements(adds[1..]);
      assert c + Elements(adds) == c + {a} + Elements(adds[1..]);
    }
  }

  /** The contents between the deletions and the additions. */
  ghost function Common(d: Delta, v: set<Rr>): set<Rr> {
    v - {d.oldsoa} - Elements(d.del)
  }

  lemma DeltaSets(d: Delta, v: set<Rr>, w: set<Rr>, apex: Name)
    requires IsZone(v, apex, d.oldsoa) && IsZone(w, apex, d.newsoa) && IsDelta(d, v, w)
    ensures forall e :: e in d.del ==> e in v - {d.oldsoa} && !IsSoa(e) && !IsPseudo(e)
    ensures forall e :: e in d.add ==> e in w && e !in Common(d, v) + {d.newsoa} && !IsSoa(e) && !IsPseudo(e)
    ensures Common(d, v) <= w && d.newsoa !in Common(d, v)
    ensures Common(d, v) + {d.newsoa} + Elements(d.add) == w
  {
    assert forall e :: e in d.del ==> e in Elements(d.del);
    assert forall e :: e in d.add ==> e in Elements(d.add);
  }

  lemma RunDeletions(x: Xfr, d: Delta, v: set<Rr>, w: set<Rr>, g: Goal)
    requires IsZone(v, g.apex, d.oldsoa) && IsZone(w, g.apex, d.newsoa) && IsDelta(d, v, w)
    requires At(x, v - {d.oldsoa}, true)
    ensures var o := RunPart(x, d.del, g, false);
            o.Continue? && At(o.x, Common(d, v), true)
  {
    DeltaSets(d, v, w, g.apex);
    RunDels(x, v - {d.oldsoa}, d.del, g);
  }

  lemma RunAdditions(x: Xfr, d: Delta, v: set<Rr>, w: set<Rr>, g: Goal)
    requires IsZone(v, g.apex, d.oldsoa) && IsZone(w, g.apex, d.newsoa) && IsDelta(d, v, w)
    requires At(x, Common(d, v), true)
    ensures var o := RunPart(x, [d.newsoa] + d.add, g, false);
            o.Continue? && At(o.x, w, false)
  {
    DeltaSets(d, v, w, g.apex);
    var c := Common(d, v);
    var x1 := x.(deleteMode := false);
    AddNew(x1, c, d.newsoa, w, g);
    var x2 := EditRr(x1, d.newsoa, g).x;
    RunAdds(x2, c + {d.newsoa}, d.add, w, g);
    assert Step(x, d.newsoa, g, false) == Continue(x2);
    assert ([d.newsoa] + d.add)[1..] == d.add;
  }

  /** One version's body, up to its last SOA record, moves contents `v`
      without their SOA record to contents `w`. */
  lemma RunVersion(x: Xfr, d: Delta, v: set<Rr>, w: set<Rr>, g: Goal)
    requires IsZone(v, g.apex, d.oldsoa) && IsZone(w, g.apex, d.newsoa) && IsDelta(d, v, w)
    requires At(x, v - {d.oldsoa}, true)
    ensures var o := RunPart(x, d.del + [d.newsoa] + d.add, g, false);
            o.Continue? && At(o.x, w, false)
  {
    RunDeletions(x, d, v, w, g);
    RunAdditions(RunPart(x, d.del, g, false).x, d, v, w, g);
    assert d.del + [d.newsoa] + d.add == d.del + ([d.newsoa] + d.add);
    RunPartSplit(x, d.del, [d.newsoa] + d.add, g, false);
  }

  /** The last SOA record of a body that is not the final record is deleted. */
  lemma DropSoa(x: Xfr, w: set<Rr>, soa: Rr, g: Goal)
    requires IsZone(w, g.apex, soa) && At(x, w, false)
    ensures var o := Step(x, soa, g, false);
            o.Continue? && At(o.x, w - {soa}, true)
  {
    SameReflexive(soa);
    DeleteContents(x.zone, g.apex, soa);
  }

  lemma {:induction false} RunBodies(x: Xfr, vs: seq<set<Rr>>, soas: seq<Rr>, ds: seq<Delta>, g: Goal, lastPart: bool)
    requires ds != [] && History(g.apex, vs, soas, ds)
    requires At(x, vs[0] - {soas[0]}, true)
    ensures var o := RunPart(x, Bodies(ds), g, lastPart);
            && o.Continue?
            && if lastPart then At(o.x, vs[|ds|], false) else At(o.x, vs[|ds|] - {soas[|ds|]}, true)
    decreases |ds|
  {
    var d := ds[0];
    var front, rest := d.del + [d.newsoa] + d.add, Bodies(ds[1..]);
    BodyParts(d, rest);
    HistoryHead(g.apex, vs, soas, ds);
    RunVersion(x, d, vs[0], vs[1], g);
    RunPartSplit(x, front, [d.newsoa] + rest, g, lastPart);
    var y := RunPart(x, front, g, false).x;
    RunFirst(y, d.newsoa, rest, g, lastPart);
    DropSoa(y, vs[1], d.newsoa, g);
    if |ds| > 1 {
      assert rest != [];
      RunBodies(Step(y, d.newsoa, g, false).x, vs[1..], soas[1..], ds[1..], g, lastPart);
    } else {
      assert rest == [];
    }
  }

  lemma BodyParts(d: Delta, rest: seq<Rr>)
    ensures Body(d) + rest == d.del + [d.newsoa] + d.add + ([d.newsoa] + rest)
  {
  }

  lemma HistoryHead(apex: Name, vs: seq<set<Rr>>, soas: seq<Rr>, ds: seq<Delta>)
    requires ds != [] && History(apex, vs, soas, ds)
    ensures var d := ds[0];
            && IsZone(vs[0], apex, d.oldsoa) && IsZone(vs[1], apex, d.newsoa) && IsDelta(d, vs[0], vs[1])
            && d.oldsoa == soas[0] && d.newsoa == soas[1]
    ensures History(apex, vs[1..], soas[1..], ds[1..])
  {
  }

  lemma RunFirst(y: Xfr, r: Rr, rest: seq<Rr>, g: Goal, lastPart: bool)
    ensures RunPart(y, [r] + rest, g, lastPart) ==
            match Step(y, r, g, lastPart && rest == [])
            case Continue(z) => RunPart(z, rest, g, lastPart)
            case other => other
  {
    assert ([r] + rest)[1..] == rest;
  }

  /** The records of a history behind a first SOA record with the serial of
      its newest version: they move the oldest version to the newest, without
      soft failure, if the last record is recognised as final, and to the
      newest without its SOA record if not. */
  lemma CollatedApplies(z: Rrsets, first: Rr, vs: seq<set<Rr>>, soas: seq<Rr>, ds: seq<Delta>, g: Goal, lastPart: bool)
    requires ds != [] && History(g.apex, vs, soas, ds)
    requires Valid(z) && Contents(z) == vs[0]
    requires ZoneSoa(first, g.apex) && Serial(first.rdata) == g.serialno
    requires Serial(soas[0].rdata) != g.serialno
    ensures var o := RunPart(Start(z), [first, ds[0].oldsoa] + Bodies(ds), g, lastPart);
            && o.Continue? && !o.x.softfail && Valid(o.x.zone) && !o.x.isAxfr
            && Contents(o.x.zone) == if lastPart then vs[|ds|] else vs[|ds|] - {soas[|ds|]}
  {
    var oldest := ds[0].oldsoa;
    var s := [first, oldest] + Bodies(ds);
    var x1 := Start(z).(rrCount := 1);
    assert Step(Start(z), first, g, false) == Continue(x1);
    assert s[1..] == [oldest] + Bodies(ds);
    assert s[1..][1..] == Bodies(ds);
    assert IsZone(vs[0], g.apex, oldest);
    InContents(z, oldest);
    SameReflexive(oldest);
    DeleteContents(z, g.apex, oldest);
    assert Bodies(ds) != [];
    var x2 := EditRr(x1.(deleteMode := true), oldest, g).x;
    assert Step(x1, oldest, g, false) == Continue(x2);
    RunBodies(x2, vs, soas, ds, g, lastPart);
  }

  /** The collated response, applied to the oldest version of a history whose
      newest serial is different, gives the newest version and no soft
      failure if its last record is recognised as final, and the newest
      version without its SOA record if not. */
  lemma ResponseApplies(z: Rrsets, vs: seq<set<Rr>>, soas: seq<Rr>, ds: seq<Delta>, g: Goal, lastPart: bool)
    requires ds != [] && History(g.apex, vs, soas, ds)
    requires Valid(z) && Contents(z) == vs[0]
    requires Serial(soas[|ds|].rdata) == g.serialno
    requires Serial(soas[0].rdata) != g.serialno
    ensures var o := RunPart(Start(z), Response(ds), g, lastPart);
            && o.Continue? && !o.x.softfail && Valid(o.x.zone)
            && Contents(o.x.zone) == if lastPart then vs[|ds|] else vs[|ds|] - {soas[|ds|]}
  {
    assert IsZone(vs[|ds|], g.apex, soas[|ds|]);
    CollatedApplies(z, soas[|ds|], vs, soas, ds, g, lastPart);
  }

  /** Signatures and options that travel with a transfer change nothing. */
  lemma PseudoIsSkipped(x: Xfr, r: Rr, g: Goal, final: bool)
    requires (r.typ == 250 || r.typ == 41) && x.rrCount > 1
    ensures Step(x, r, g, final) == Continue(x.(rrCount := x.rrCount + 1))
  {
  }
}
