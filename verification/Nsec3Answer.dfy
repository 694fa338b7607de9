/** The proof that a name does not exist, assembled from the NSEC3 index of the
    zone: nsec3.c over answer.c. */
module Nsec3Answer {
  import opened Names
  import opened Sequences
  import opened RbTree
  import opened Nsec3

  // ----- what a record denies (section 1.3 of RFC 5155)

  /** The hash in the "next hashed owner name" field of the record at `d`. */
  ghost predicate IsNextOwner(owners: set<int>, d: int, n: int) {
    && d in owners && n in owners
    && if d < n then forall o :: o in owners && d < o ==> n <= o
       else forall o :: o in owners ==> n <= o <= d
  }

  /** The record from `d` to `n` covers `h`; the last record wraps around. */
  ghost predicate Covers(d: int, n: int, h: int) {
    if d < n then d < h < n else h < n || d < h
  }

  lemma NextOwnerExists(owners: set<int>, d: int) returns (n: int)
    requires d in owners
    ensures IsNextOwner(owners, d, n)
  {
    var after := set o | o in owners && d < o;
    if after == {} {
      n := Least(owners, d);
      assert forall o :: o in owners ==> o !in after;
    } else {
      var some := AMember(after);
      n := Least(after, some);
      assert forall o :: o in owners && d < o ==> o in after;
    }
  }

  lemma {:induction false} Least(s: set<int>, x: int) returns (m: int)
    requires x in s
    ensures m in s && forall o :: o in s ==> m <= o
    decreases s
  {
    var below := set o | o in s && o < x;
    if below == {} {
      m := x;
      assert forall o :: o in s && o < x ==> o in below;
    } else {
      var y := AMember(below);
      assert x in s && x !in below;
      m := Least(below, y);
      assert forall o :: o in s && o < x ==> o in below;
    }
  }

  /** The stored cover of a hash is the record at that hash, or the one record
      of the chain that covers it. */
  lemma CoverDenies(owners: set<int>, h: int, d: int, n: int)
    requires IsNextOwner(owners, d, n)
    ensures IsCover(owners, h, d) <==> d == h || (h !in owners && Covers(d, n, h))
  {
  }

  /** Denial is sound: a hash that a record of the chain covers is no owner. */
  lemma CoveredIsAbsent(owners: set<int>, d: int, n: int, h: int)
    requires IsNextOwner(owners, d, n) && Covers(d, n, h)
    ensures h !in owners
  {
  }

  /** A validator's check: some listed record covers the hash. */
  ghost predicate Denied(owners: set<int>, listed: set<int>, h: int) {
    exists d, n :: d in listed && IsNextOwner(owners, d, n) && Covers(d, n, h)
  }

  lemma DeniedByCover(owners: set<int>, listed: set<int>, h: int, d: int)
    requires d in listed && IsCover(owners, h, d) && h !in owners
    ensures Denied(owners, listed, h)
  {
    var n := NextOwnerExists(owners, d);
    CoverDenies(owners, h, d, n);
  }

  lemma DeniedIsAbsent(owners: set<int>, listed: set<int>, h: int)
    requires Denied(owners, listed, h)
    ensures h !in owners
  {
    var d, n :| d in listed && IsNextOwner(owners, d, n) && Covers(d, n, h);
    CoveredIsAbsent(owners, d, n, h);
  }

  // ----- the answer

  const MAXRRSPP := 10240
  const AUTHORITY := 2
  const STAR: Label := [42]

  datatype Entry = Entry(section: nat, owner: int)

  datatype Rcode = NxDomain | ServFail

  class Answer {
    /** The NSEC3 rrsets put in the answer, by their owner. */
    var entries: seq<Entry>

    ghost function Owners(): set<int>
      reads this
    {
      set e | e in entries :: e.owner
    }

    constructor ()
      ensures entries == []
    {
      entries := [];
    }

    /** `answer_add_rrset`: no rrset twice, and the earlier section wins. */
    method AddRrset(section: nat, owner: int) returns (added: bool)
      modifies this
      ensures entries == Added(old(entries), section, owner) && (added <==> entries != old(entries))
      ensures Owners() == if owner in old(Owners()) || |old(entries)| < MAXRRSPP
                          then old(Owners()) + {owner} else old(Owners())
      ensures forall e :: e in entries && e !in old(entries) ==> e == Entry(section, owner)
      ensures |entries| == if owner in old(Owners()) || |old(entries)| >= MAXRRSPP
                           then |old(entries)| else |old(entries)| + 1
    {
      var i := 0;
      while i < |entries|
        invariant 0 <= i <= |entries| && entries == old(entries)
        invariant forall j :: 0 <= j < i ==> entries[j].owner != owner
      {
        if entries[i].owner == owner {
          PlaceIs(entries, owner, i);
          assert entries[i] in entries;
          if section < entries[i].section {
            Relabelled(entries, i, section);
            entries := entries[i := Entry(section, owner)];
            return true;
          }
          return false;
        }
        i := i + 1;
      }
      PlaceIs(entries, owner, |entries|);
      if |entries| >= MAXRRSPP {
        return false;
      }
      entries := entries + [Entry(section, owner)];
      assert entries[|entries| - 1] in entries;
      return true;
    }
  }

  /** Where the answer has the rrset of `owner`, or its length. */
  function PlaceOf(s: seq<Entry>, owner: int): (i: nat)
    ensures i <= |s|
  {
    if s == [] || s[0].owner == owner then 0 else 1 + PlaceOf(s[1..], owner)
  }

  lemma PlaceIs(s: seq<Entry>, owner: int, i: nat)
    requires i <= |s| && (forall j :: 0 <= j < i ==> s[j].owner != owner) && (i < |s| ==> s[i].owner == owner)
    ensures PlaceOf(s, owner) == i
  {
    if i > 0 {
      PlaceIs(s[1..], owner, i - 1);
    }
  }

  function Added(s: seq<Entry>, section: nat, owner: int): seq<Entry> {
    var i := PlaceOf(s, owner);
    if i < |s| then if section < s[i].section then s[i := Entry(section, owner)] else s
    else if |s| >= MAXRRSPP then s
    else s + [Entry(section, owner)]
  }

  lemma Relabelled(s: seq<Entry>, i: nat, section: nat)
    requires i < |s|
    ensures (set e | e in s[i := Entry(section, s[i].owner)] :: e.owner) == set e | e in s :: e.owner
  {
    var t := s[i := Entry(section, s[i].owner)];
    forall e | e in s
      ensures exists f :: f in t && f.owner == e.owner
    {
      var j :| 0 <= j < |s| && s[j] == e;
      assert t[j] in t;
    }
    forall f | f in t
      ensures exists e :: e in s && e.owner == f.owner
    {
      var j :| 0 <= j < |t| && t[j] == f;
      assert s[j] in s;
    }
  }

  // ----- the proof

  /** The name one label below the encloser, towards the query name. */
  ghost function NextCloser(qname: Name, encloser: Name): Name
    requires Match(qname, encloser) < |qname|
  {
    qname[..Match(qname, encloser) + 1]
  }

  /** `nsec3_add_nonexist_proof`. */
  method AddNonexistProof(zone: Nsec3Zone, answer: Answer, hash: Name -> int, qname: Name, encloser: Name)
    returns (rcode: Rcode)
    requires zone.Valid() && Match(qname, encloser) < |qname|
    modifies answer
    ensures var h := hash(NextCloser(qname, encloser));
            rcode == ServFail <==> h in zone.owners
    ensures rcode == ServFail ==> answer.entries == old(answer.entries)
    ensures old(answer.Owners()) <= answer.Owners() && |answer.entries| <= |old(answer.entries)| + 1
    ensures forall e :: e in answer.entries && e !in old(answer.entries) ==> e.section == AUTHORITY
    ensures var h := hash(NextCloser(qname, encloser));
            rcode == NxDomain ==>
              && (|old(answer.entries)| < MAXRRSPP ==> Denied(zone.owners, answer.Owners(), h))
              && forall d :: d in answer.Owners() - old(answer.Owners()) ==> IsCover(zone.owners, h, d)
  {
    var n := LabelMatchCount(qname, encloser);
    var toProve := qname[..n];
    var exact, cover := zone.FindCover(hash(toProve));
    if exact {
      return ServFail;
    }
    var added := answer.AddRrset(AUTHORITY, cover.value);
    if cover.value in answer.Owners() {
      DeniedByCover(zone.owners, answer.Owners(), hash(toProve), cover.value);
    }
    return NxDomain;
  }

  /** The name-error branch of `nsec3_answer_authoritative` with
      `nsec3_add_closest_encloser_proof`.  Unless two names collide, the answer
      holds what section 7.2.2 of RFC 5155 asks for: a record denying the next
      closer name and, as far as the closest encloser is in the index, its
      record and a record denying the wildcard; and no record beyond those. */
  method NameError(zone: Nsec3Zone, answer: Answer, hash: Name -> int, qname: Name, encloser: Name)
    returns (rcode: Rcode)
    requires zone.Valid() && zone.Settled()
    requires IsSubdomain(qname, encloser) && qname != encloser
    modifies answer
    ensures rcode == ServFail <==> hash(qname[..|encloser| + 1]) in zone.owners
    ensures old(answer.Owners()) <= answer.Owners()
    ensures forall e :: e in answer.entries && e !in old(answer.entries) ==> e.section == AUTHORITY
    ensures |old(answer.entries)| + 3 <= MAXRRSPP ==>
              && (rcode == NxDomain ==> Denied(zone.owners, answer.Owners(), hash(qname[..|encloser| + 1])))
              && (hash(encloser) in zone.owners && hash(encloser) in zone.hashTree ==> hash(encloser) in answer.Owners())
              && (hash(encloser + [STAR]) in zone.wcTree ==>
                    if hash(encloser + [STAR]) in zone.owners then hash(encloser + [STAR]) in answer.Owners()
                    else Denied(zone.owners, answer.Owners(), hash(encloser + [STAR])))
    ensures forall d :: d in answer.Owners() - old(answer.Owners()) ==>
              || IsCover(zone.owners, hash(qname[..|encloser| + 1]), d)
              || d == hash(encloser)
              || IsCover(zone.owners, hash(encloser + [STAR]), d)
  {
    MatchOfPrefix(qname, encloser);
    rcode := AddNonexistProof(zone, answer, hash, qname, encloser);
    var added;
    ghost var nextCloser := hash(qname[..|encloser| + 1]);
    ghost var first := answer.Owners();
    var h := hash(encloser);
    if h in zone.hashTree && zone.hashTree[h].exact {
      added := answer.AddRrset(AUTHORITY, zone.hashTree[h].cover.value);
      assert IsCover(zone.owners, h, h);
      CoverIsUnique(zone.owners, h, h, zone.hashTree[h].cover.value);
    }
    if rcode == NxDomain && |old(answer.entries)| + 3 <= MAXRRSPP {
      StaysDenied(zone.owners, first, answer.Owners(), nextCloser);
    }
    ghost var second := answer.Owners();
    var w := hash(encloser + [STAR]);
    if w !in zone.wcTree {
      return;
    }
    added := answer.AddRrset(AUTHORITY, zone.wcTree[w].cover.value);
    if |old(answer.entries)| + 3 <= MAXRRSPP {
      if rcode == NxDomain {
        StaysDenied(zone.owners, second, answer.Owners(), nextCloser);
      }
      if w in zone.owners {
        assert IsCover(zone.owners, w, w);
        CoverIsUnique(zone.owners, w, w, zone.wcTree[w].cover.value);
      } else {
        DeniedByCover(zone.owners, answer.Owners(), w, zone.wcTree[w].cover.value);
      }
    }
  }

  lemma StaysDenied(owners: set<int>, some: set<int>, more: set<int>, h: int)
    requires Denied(owners, some, h) && some <= more
    ensures Denied(owners, more, h)
  {
    var d, n :| d in some && IsNextOwner(owners, d, n) && Covers(d, n, h);
    assert d in more;
  }

  lemma MatchOfPrefix(qname: Name, encloser: Name)
    requires IsSubdomain(qname, encloser)
    ensures Match(qname, encloser) == |encloser|
  {
    MatchIs(qname, encloser, |encloser|);
  }

  /** When the chain holds every name of the zone, a denied name is not in the
      zone: the proof never denies what exists. */
  lemma NeverDeniesAName(owners: set<int>, listed: set<int>, names: set<Name>, hash: Name -> int, name: Name)
    requires forall x :: x in names ==> hash(x) in owners
    requires Denied(owners, listed, hash(name))
    ensures name !in names
  {
    DeniedIsAbsent(owners, listed, hash(name));
  }
}
