/** Applying a transfer to the zone in memory, after `delete_RR`, `add_RR`,
    `apply_ixfr` and `apply_ixfr_for_zone` in difffile.c. */
module Apply {
  import opened Names
  import opened Records

  /** The RRsets of one zone, keyed by owner and type, each with its `rrs` array. */
  type Rrsets = map<(Name, nat), seq<Rr>>

  // ----- one record

  /** `find_rr_num`: the first record that matches, or -1. */
  function FindRr(s: seq<Rr>, rr: Rr): (i: int)
    ensures -1 <= i < |s|
    ensures i >= 0 ==> Same(s[i], rr)
    ensures forall j :: 0 <= j < (if i >= 0 then i else |s|) ==> !Same(s[j], rr)
  {
    if s == [] then -1
    else if Same(s[0], rr) then 0
    else
      var k := FindRr(s[1..], rr);
      assert forall j :: 1 <= j < |s| ==> s[j] == s[1..][j - 1];
      if k == -1 then -1 else k + 1
  }

  lemma FindRrIs(s: seq<Rr>, rr: Rr, i: int)
    requires 0 <= i < |s| && Same(s[i], rr)
    requires forall j :: 0 <= j < i ==> !Same(s[j], rr)
    ensures FindRr(s, rr) == i
  {
  }

  /** The last record takes the place of the deleted one. */
  function SwapOut(s: seq<Rr>, i: nat): (t: seq<Rr>)
    requires i < |s|
  {
    s[i := s[|s| - 1]][..|s| - 1]
  }

  datatype Edit = Edited(zone: Rrsets, softfail: bool) | TooMany

  /** Which record of the RRset `delete_RR` removes: a matching one, or else
      any SOA record of the apex. */
  function Victim(s: seq<Rr>, apex: Name, rr: Rr): (i: int)
    ensures -1 <= i < |s|
  {
    var n := FindRr(s, rr);
    if n == -1 && IsSoa(rr) && rr.owner == apex && |s| != 0 then 0 else n
  }

  function Delete(z: Rrsets, apex: Name, rr: Rr): Edit {
    var key := (rr.owner, rr.typ);
    if key !in z then Edited(z, true)
    else
      var i := Victim(z[key], apex, rr);
      if i == -1 then Edited(z, true)
      else if |z[key]| == 1 then Edited(z - {key}, false)
      else Edited(z[key := SwapOut(z[key], i)], false)
  }

  function Add(z: Rrsets, rr: Rr): Edit {
    var key := (rr.owner, rr.typ);
    var s := if key in z then z[key] else [];
    if FindRr(s, rr) != -1 then Edited(z, true)
    else if |s| == MAX_RR_COUNT then TooMany
    else Edited(z[key := s + [rr]], false)
  }

  /** What `delete_zone_rrs` leaves: the RRsets of this zone at names that are
      not at or below its apex. */
  function Outside(z: Rrsets, apex: Name): Rrsets {
    map key | key in z && !IsSubdomain(key.0, apex) :: z[key]
  }

  // ----- the zone as a set of records

  ghost predicate ValidRrset(key: (Name, nat), s: seq<Rr>) {
    && 0 < |s| <= MAX_RR_COUNT
    && (forall i :: 0 <= i < |s| ==> (s[i].owner, s[i].typ) == key)
    && (forall i :: 0 <= i < |s| ==> IsSoa(s[i]) ==> SoaShaped(s[i].rdata))
    && forall i, j :: 0 <= i < j < |s| ==> !Same(s[i], s[j])
  }

  ghost predicate Valid(z: Rrsets) {
    forall key :: key in z ==> ValidRrset(key, z[key])
  }

  ghost function Contents(z: Rrsets): set<Rr> {
    set key, r | key in z && r in z[key] :: r
  }

  lemma InContents(z: Rrsets, r: Rr)
    requires Valid(z)
    ensures r in Contents(z) <==> (r.owner, r.typ) in z && r in z[(r.owner, r.typ)]
  {
    if r in Contents(z) {
      var key :| key in z && r in z[key];
      assert ValidRrset(key, z[key]);
    }
  }

  lemma ContentsUnique(z: Rrsets)
    requires Valid(z)
    ensures UniqueKeys(Contents(z))
  {
    forall a, b | a in Contents(z) && b in Contents(z) && a.owner == b.owner && Same(a, b)
      ensures a == b
    {
      InContents(z, a);
      InContents(z, b);
      var s := z[(a.owner, a.typ)];
      assert ValidRrset((a.owner, a.typ), s);
      var i :| 0 <= i < |s| && s[i] == a;
      var j :| 0 <= j < |s| && s[j] == b;
      if j < i {
        SameSymmetric(a, b);
      }
    }
  }

  lemma OutsideContents(z: Rrsets, apex: Name)
    requires Valid(z)
    ensures Valid(Outside(z, apex))
    ensures Contents(Outside(z, apex)) == set r | r in Contents(z) && !IsSubdomain(r.owner, apex)
  {
    var kept := Outside(z, apex);
    assert Valid(kept) by {
      forall key | key in kept
        ensures ValidRrset(key, kept[key])
      {
        assert ValidRrset(key, z[key]);
      }
    }
    forall r
      ensures r in Contents(kept) <==> r in Contents(z) && !IsSubdomain(r.owner, apex)
    {
      InContents(z, r);
      InContents(kept, r);
    }
  }

  lemma SwapOutMembers(s: seq<Rr>, i: nat, r: Rr)
    requires i < |s|
    requires forall a, b :: 0 <= a < b < |s| ==> s[a] != s[b]
    ensures r in SwapOut(s, i) <==> r in s && r != s[i]
  {
    var t := SwapOut(s, i);
    if r in s && r != s[i] {
      var j :| 0 <= j < |s| && s[j] == r;
      assert t[if j == |s| - 1 then i else j] == r;
    }
  }

  lemma SwapOutValid(key: (Name, nat), s: seq<Rr>, i: nat)
    requires ValidRrset(key, s) && i < |s| && |s| != 1
    ensures ValidRrset(key, SwapOut(s, i))
  {
    var t := SwapOut(s, i);
    forall a, b | 0 <= a < b < |t|
      ensures !Same(t[a], t[b])
    {
      if a == i && Same(t[a], t[b]) {
        SameSymmetric(t[a], t[b]);
      }
    }
  }

  /** Deleting never breaks the zone, and removes the one record that
      matches, if there is one. */
  lemma DeleteContents(z: Rrsets, apex: Name, rr: Rr)
    requires Valid(z)
    ensures Delete(z, apex, rr).Edited? && Valid(Delete(z, apex, rr).zone)
    ensures var e := Delete(z, apex, rr);
            forall was | was in Contents(z) && was.owner == rr.owner && Same(was, rr) ::
              Contents(e.zone) == Contents(z) - {was} && !e.softfail
  {
    var e := Delete(z, apex, rr);
    var key := (rr.owner, rr.typ);
    if key in z && Victim(z[key], apex, rr) != -1 {
      var s := z[key];
      assert ValidRrset(key, s);
      var i := Victim(s, apex, rr);
      RrsetDistinct(key, s);
      if |s| != 1 {
        SwapOutValid(key, s, i);
      }
      forall r
        ensures r in Contents(e.zone) <==> r in Contents(z) && r != s[i]
      {
        InContents(e.zone, r);
        InContents(z, r);
        SwapOutMembers(s, i, r);
      }
      forall was | was in Contents(z) && was.owner == rr.owner && Same(was, rr)
        ensures was == s[i]
      {
        InContents(z, was);
        var j :| 0 <= j < |s| && s[j] == was;
        FoundIsUnique(s, rr, j);
      }
    } else {
      forall was | was in Contents(z) && was.owner == rr.owner && Same(was, rr)
        ensures false
      {
        InContents(z, was);
      }
    }
  }

  lemma RrsetDistinct(key: (Name, nat), s: seq<Rr>)
    requires ValidRrset(key, s)
    ensures forall a, b :: 0 <= a < b < |s| ==> s[a] != s[b]
  {
    forall a, b | 0 <= a < b < |s|
      ensures s[a] != s[b]
    {
      SameReflexive(s[a]);
    }
  }

  lemma FoundIsUnique(s: seq<Rr>, rr: Rr, j: nat)
    requires forall a, b :: 0 <= a < b < |s| ==> !Same(s[a], s[b])
    requires j < |s| && Same(s[j], rr)
    ensures FindRr(s, rr) == j
  {
    forall i | 0 <= i < j
      ensures !Same(s[i], rr)
    {
      if Same(s[i], rr) {
        SameSymmetric(s[j], rr);
        SameTransitive(s[i], rr, s[j]);
      }
    }
    FindRrIs(s, rr, j);
  }

  /** When nothing matches, a SOA record of the apex still replaces the only
      SOA record there is, and any other deletion is a soft failure. */
  lemma DeleteWithoutMatch(z: Rrsets, apex: Name, rr: Rr)
    requires Valid(z)
    requires forall was :: was in Contents(z) && was.owner == rr.owner ==> !Same(was, rr)
    ensures var e := Delete(z, apex, rr);
            if IsSoa(rr) && rr.owner == apex && (apex, TYPE_SOA) in z
            then !e.softfail && |Contents(e.zone)| == |Contents(z)| - 1
                 && exists was :: was in Contents(z) && IsSoa(was) && Contents(e.zone) == Contents(z) - {was}
            else e == Edited(z, true)
  {
    var e := Delete(z, apex, rr);
    var key := (rr.owner, rr.typ);
    if key in z {
      var s := z[key];
      assert ValidRrset(key, s);
      forall i | 0 <= i < |s|
        ensures s[i] in Contents(z)
      {
        InContents(z, s[i]);
      }
      if IsSoa(rr) && rr.owner == apex {
        RrsetDistinct(key, s);
        if |s| != 1 {
          SwapOutValid(key, s, 0);
        }
        forall r
          ensures r in Contents(e.zone) <==> r in Contents(z) && r != s[0]
        {
          InContents(e.zone, r);
          InContents(z, r);
          SwapOutMembers(s, 0, r);
        }
        assert Contents(e.zone) == Contents(z) - {s[0]};
      }
    }
  }

  /** Adding puts in a record that matches none, up to the 16-bit limit, and
      otherwise changes nothing. */
  lemma AddContents(z: Rrsets, rr: Rr)
    requires Valid(z)
    requires IsSoa(rr) ==> SoaShaped(rr.rdata)
    ensures var e := Add(z, rr);
            if exists was :: was in Contents(z) && was.owner == rr.owner && Same(was, rr)
            then e == Edited(z, true)
            else if |RrsetOf(Contents(z), rr.owner, rr.typ)| == MAX_RR_COUNT then e.TooMany?
            else e.Edited? && !e.softfail && Valid(e.zone) && Contents(e.zone) == Contents(z) + {rr}
  {
    var key := (rr.owner, rr.typ);
    var s := if key in z then z[key] else [];
    assert s != [] ==> ValidRrset(key, s);
    RrsetSize(z, rr.owner, rr.typ);
    if exists was :: was in Contents(z) && was.owner == rr.owner && Same(was, rr) {
      var was :| was in Contents(z) && was.owner == rr.owner && Same(was, rr);
      InContents(z, was);
    } else {
      forall i | 0 <= i < |s|
        ensures !Same(s[i], rr)
      {
        InContents(z, s[i]);
      }
      assert FindRr(s, rr) == -1;
      if |s| != MAX_RR_COUNT {
        var e := Add(z, rr);
        assert ValidRrset(key, s + [rr]);
        forall r
          ensures r in Contents(e.zone) <==> r in Contents(z) || r == rr
        {
          InContents(e.zone, r);
          InContents(z, r);
        }
      }
    }
  }

  lemma RrsetSize(z: Rrsets, owner: Name, typ: nat)
    requires Valid(z)
    ensures |RrsetOf(Contents(z), owner, typ)| == if (owner, typ) in z then |z[(owner, typ)]| else 0
  {
    var key := (owner, typ);
    var s := if key in z then z[key] else [];
    forall r
      ensures r in RrsetOf(Contents(z), owner, typ) <==> r in s
    {
      InContents(z, r);
      if key in z {
        assert ValidRrset(key, s);
      }
    }
    assert RrsetOf(Contents(z), owner, typ) == set r | r in s;
    if key in z {
      RrsetDistinct(key, s);
    }
    DistinctSize(s);
  }

  lemma {:induction false} DistinctSize(s: seq<Rr>)
    requires forall a, b :: 0 <= a < b < |s| ==> s[a] != s[b]
    ensures |set r | r in s| == |s|
  {
    if s != [] {
      DistinctSize(s[1..]);
      assert (set r | r in s) == {s[0]} + (set r | r in s[1..]);
    }
  }

  // ----- what a transfer deletes and refuses to add

  lemma StoredShape(z: Rrsets, was: Rr)
    requires Valid(z) && was in Contents(z)
    ensures IsSoa(was) ==> SoaShaped(was.rdata)
  {
    InContents(z, was);
    var key := (was.owner, was.typ);
    assert ValidRrset(key, z[key]);
  }

  /** A record that does not differ from a stored one, whatever its TTL, has it
      deleted, and is not added. */
  lemma AlikeIsFound(z: Rrsets, apex: Name, was: Rr, rr: Rr)
    requires Valid(z) && was in Contents(z) && rr.owner == was.owner && !Differs(was, rr)
    requires IsSoa(rr) ==> SoaShaped(rr.rdata)
    ensures var e := Delete(z, apex, rr);
            e.Edited? && !e.softfail && Valid(e.zone) && Contents(e.zone) == Contents(z) - {was}
    ensures Add(z, rr) == Edited(z, true)
  {
    StoredShape(z, was);
    SameIs(was, rr);
    DeleteContents(z, apex, rr);
    AddContents(z, rr);
  }

  /** The same record with any TTL, and a SOA record with the same serial. */
  lemma TtlIsIgnored(z: Rrsets, apex: Name, was: Rr, t: nat, rdata: seq<Atom>)
    requires Valid(z) && was in Contents(z)
    requires rdata == was.rdata || (IsSoa(was) && SoaShaped(rdata) && SerialOf(was) == Serial(rdata))
    ensures var rr := was.(ttl := t, rdata := rdata);
            && Delete(z, apex, rr).Edited? && !Delete(z, apex, rr).softfail
            && Contents(Delete(z, apex, rr).zone) == Contents(z) - {was}
            && Add(z, rr) == Edited(z, true)
  {
    var rr := was.(ttl := t, rdata := rdata);
    StoredShape(z, was);
    forall k | 0 <= k < |was.rdata|
      ensures !FieldDiffers(was.rdata[k], was.rdata[k])
    {
      FieldDecides(was.rdata[k], was.rdata[k]);
    }
    AlikeIsFound(z, apex, was, rr);
  }

  /** A record that differs from all that are stored at its name deletes
      nothing, unless it is a SOA record for the apex, and is added while its
      RRset is not full. */
  lemma DifferentIsNew(z: Rrsets, apex: Name, rr: Rr)
    requires Valid(z) && (IsSoa(rr) ==> SoaShaped(rr.rdata))
    requires forall was :: was in Contents(z) && was.owner == rr.owner ==> Differs(was, rr)
    ensures !(IsSoa(rr) && rr.owner == apex) ==> Delete(z, apex, rr) == Edited(z, true)
    ensures |RrsetOf(Contents(z), rr.owner, rr.typ)| < MAX_RR_COUNT ==>
              Add(z, rr).Edited? && !Add(z, rr).softfail && Contents(Add(z, rr).zone) == Contents(z) + {rr}
  {
    forall was | was in Contents(z) && was.owner == rr.owner
      ensures !Same(was, rr)
    {
      StoredShape(z, was);
      SameIs(was, rr);
    }
    DeleteWithoutMatch(z, apex, rr);
    AddContents(z, rr);
  }
}
