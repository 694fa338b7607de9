/** The table of domain names: search, insertion, existence flags and deletion,
    after namedb.c and the deletion side of difffile.c. */
module DomainTable {
  import opened Names
  import opened Sequences

  // ----- the ordered tree of names

  ghost predicate IsPredecessor(names: set<Name>, n: Name, m: Name) {
    m in names && LessEq(m, n) && forall x :: x in names && LessEq(x, n) ==> LessEq(x, m)
  }

  ghost predicate IsSuccessor(names: set<Name>, n: Name, r: Option<Name>) {
    match r
    case None => forall x :: x in names ==> LessEq(x, n)
    case Some(s) => s in names && Less(n, s) && forall x :: x in names && Less(n, x) ==> LessEq(s, x)
  }

  lemma LessEqTransitive(a: Name, b: Name, c: Name)
    requires LessEq(a, b) && LessEq(b, c)
    ensures LessEq(a, c)
  {
    if a != b && b != c {
      Transitive(a, b, c);
    }
  }

  /** `rbtree_find_less_equal` on names; the root is always there. */
  method FindNameLessEqual(names: set<Name>, n: Name) returns (exact: bool, m: Name)
    requires [] in names
    ensures IsPredecessor(names, n, m) && (exact <==> n in names) && (exact ==> m == n)
  {
    if n in names {
      forall x | x in names && LessEq(x, n)
        ensures LessEq(x, n)
      {
      }
      return true, n;
    }
    m := [];
    BelowIsAfter(n, []);
    var rest := names;
    while rest != {}
      invariant rest <= names && m in names && LessEq(m, n)
      invariant forall x :: x in names - rest && LessEq(x, n) ==> LessEq(x, m)
      decreases rest
    {
      ghost var some := AMember(rest);
      var x :| x in rest;
      var c := Compare(x, n);
      if c <= 0 {
        var d := Compare(m, x);
        if d < 0 {
          forall y | y in names - rest && LessEq(y, n)
            ensures LessEq(y, x)
          {
            LessEqTransitive(y, m, x);
          }
          m := x;
        } else {
          Total(m, x);
        }
      }
      rest := rest - {x};
    }
    exact := false;
  }

  /** `rbtree_next` on names. */
  method NextName(names: set<Name>, n: Name) returns (r: Option<Name>)
    ensures IsSuccessor(names, n, r)
  {
    r := None;
    var rest := names;
    while rest != {}
      invariant rest <= names && IsSuccessor(names - rest, n, r)
      decreases rest
    {
      ghost var some := AMember(rest);
      var x :| x in rest;
      Total(x, n);
      var c := Compare(n, x);
      if c < 0 {
        var better := r.None?;
        if r.Some? {
          c := Compare(x, r.value);
          better := c < 0;
          Total(x, r.value);
        }
        if better {
          forall y | y in names - rest && Less(n, y)
            ensures LessEq(x, y)
          {
            if r.Some? {
              LessEqTransitive(x, r.value, y);
            } else {
              Total(y, n);
              assert false;
            }
          }
          r := Some(x);
        }
      }
      rest := rest - {x};
    }
    assert names - rest == names;
  }

  // ----- parent-closed sets of names

  ghost predicate Closed(names: set<Name>) {
    [] in names && forall n {:trigger Parent(n)} :: n in names && n != [] ==> Parent(n) in names
  }

  lemma {:induction false} AncestorIn(names: set<Name>, n: Name, k: nat)
    requires Closed(names) && n in names && k <= |n|
    ensures n[..k] in names
    decreases |n| - k
  {
    if k == |n| {
      assert n[..k] == n;
    } else {
      AncestorIn(names, n, k + 1);
      assert Parent(n[..k + 1]) == n[..k];
    }
  }

  /** The longest ancestor of `n`, or `n` itself, that is in the table. */
  ghost predicate IsClosestEncloser(names: set<Name>, n: Name, e: Name) {
    && e in names && IsSubdomain(n, e)
    && forall a :: a in names && IsSubdomain(n, a) ==> IsSubdomain(e, a)
  }

  /** What the predecessor shares with the name is its closest encloser. */
  lemma PredecessorEncloses(names: set<Name>, n: Name, m: Name)
    requires Closed(names) && IsPredecessor(names, n, m)
    ensures IsClosestEncloser(names, n, n[..Match(m, n)])
    ensures m[..Match(m, n)] == n[..Match(m, n)]
    ensures n !in names ==> Match(m, n) < |n|
  {
    var k := Match(m, n);
    assert m[..k] == n[..k];
    AncestorIn(names, m, k);
    forall a | a in names && IsSubdomain(n, a)
      ensures IsSubdomain(n[..k], a)
    {
      BelowIsAfter(n, a);
      Contiguous(a, m, n);
      if |a| > k {
        assert false;
      }
    }
    if k == |n| {
      assert n[..k] == n;
    }
  }

  // ----- existence

  /** The name or a name below it has data (section 2.2.2 of RFC 4592). */
  ghost predicate HoldsData(data: set<Name>, n: Name) {
    exists m :: m in data && IsSubdomain(m, n)
  }

  /** The names with at least one rrset. */
  ghost function DataOf(rrsets: map<Name, nat>): set<Name> {
    set n | n in rrsets && rrsets[n] > 0
  }

  function OneMore(m: map<Name, nat>, n: Name): map<Name, nat>
    requires n in m
  {
    m[n := m[n] + 1]
  }

  lemma DataOfUpdate(rrsets: map<Name, nat>, n: Name, v: nat)
    ensures DataOf(rrsets[n := v]) == if v > 0 then DataOf(rrsets) + {n} else DataOf(rrsets) - {n}
  {
  }

  lemma DataOfRemove(rrsets: map<Name, nat>, n: Name)
    requires n !in DataOf(rrsets)
    ensures DataOf(rrsets - {n}) == DataOf(rrsets)
  {
  }

  ghost predicate FlagsRight(names: set<Name>, data: set<Name>, existing: set<Name>) {
    forall n {:trigger n in existing} {:trigger HoldsData(data, n)} ::
      n in names ==> (n in existing <==> HoldsData(data, n))
  }

  class Domains {
    /** The names in the table, each with its number of rrsets, whether it is
        flagged as existing, and how often rdata refers to it. */
    var names: set<Name>
    var rrsets: map<Name, nat>
    var existing: set<Name>
    var usage: map<Name, nat>

    ghost function Data(): set<Name>
      reads this`rrsets
    {
      DataOf(rrsets)
    }

    ghost predicate Shaped()
      reads this`names, this`rrsets, this`usage, this`existing
    {
      && Closed(names) && rrsets.Keys == names && usage.Keys == names && existing <= names
      && usage[[]] > 0
    }

    /** The flags say exactly which names exist. */
    ghost predicate Valid()
      reads this`names, this`rrsets, this`usage, this`existing
    {
      Shaped() && FlagsRight(names, Data(), existing)
    }

    /** `domain_table_create`. */
    constructor ()
      ensures Valid() && names == {[]} && existing == {} && Data() == {}
    {
      names, rrsets, existing, usage := {[]}, map[[] := 0], {}, map[[] := 1];
    }

    // ----- search and insertion

    /** `domain_table_search`. */
    method Search(n: Name) returns (exact: bool, closest: Name, encloser: Name)
      requires Closed(names)
      ensures (exact <==> n in names) && IsPredecessor(names, n, closest) && IsClosestEncloser(names, n, encloser)
    {
      exact, closest := FindNameLessEqual(names, n);
      encloser := closest;
      PredecessorEncloses(names, n, closest);
      if !exact {
        var count := LabelMatchCount(encloser, n);
        while count < |encloser| + 1
          invariant Match(closest, n) <= |encloser| <= |closest| && encloser == closest[..|encloser|]
        {
          encloser := Parent(encloser);
        }
      } else {
        MatchIs(n, n, |n|);
        assert n[..|n|] == n;
      }
    }

    /** `domain_table_insert`: the name and its missing ancestors. */
    method Insert(n: Name)
      requires Valid()
      modifies this`names, this`rrsets, this`usage
      ensures Valid() && Data() == old(Data())
      ensures forall x :: x in names <==> x in old(names) || IsSubdomain(n, x)
      ensures Extends(old(rrsets), rrsets) && Extends(old(usage), usage)
    {
      var exact, closest, encloser := Search(n);
      Enclosed(names, n, encloser);
      AddMissing(n, |encloser|);
      InsertKeepsFlags(old(names), names, Data(), existing, n);
    }

    /** The loop of `domain_table_insert`. */
    method AddMissing(n: Name, from: nat)
      requires rrsets.Keys == names && usage.Keys == names && from <= |n| && Missing(names, n, from)
      modifies this`names, this`rrsets, this`usage
      ensures rrsets.Keys == names && usage.Keys == names && Grown(old(names), names, n, |n|)
      ensures Extends(old(rrsets), rrsets) && Extends(old(usage), usage) && Data() == old(Data())
    {
      var k := from;
      assert Grown(names, names, n, from);
      while k < |n|
        invariant from <= k <= |n|
        invariant rrsets.Keys == names && usage.Keys == names && Grown(old(names), names, n, k)
        invariant Extends(old(rrsets), rrsets) && Extends(old(usage), usage) && Data() == old(Data())
      {
        GrowsOne(old(names), names, n, from, k);
        AddOne(n[..k + 1]);
        k := k + 1;
      }
    }

    /** One new node. */
    method AddOne(n: Name)
      requires n !in names && rrsets.Keys == names && usage.Keys == names
      modifies this`names, this`rrsets, this`usage
      ensures names == old(names) + {n} && rrsets == old(rrsets)[n := 0] && usage == old(usage)[n := 0]
      ensures Data() == old(Data())
    {
      DataOfUpdate(rrsets, n, 0);
      names, rrsets, usage := names + {n}, rrsets[n := 0], usage[n := 0];
    }

    // ----- data comes

    /** `domain_add_rrset`. */
    method AddRrset(d: Name)
      requires Valid() && d in names
      modifies this`rrsets, this`existing
      ensures Valid() && rrsets[d] == old(rrsets)[d] + 1
      ensures forall n :: n in names && n != d ==> rrsets[n] == old(rrsets)[n]
    {
      DataOfUpdate(rrsets, d, rrsets[d] + 1);
      RaiseFlags(d, Data());
      rrsets := OneMore(rrsets, d);
    }

    /** Its loop: flags are set upwards until one is set already. */
    method RaiseFlags(d: Name, ghost data: set<Name>)
      requires Closed(names) && d in names && existing <= names && FlagsRight(names, data, existing)
      modifies this`existing
      ensures existing <= names && FlagsRight(names, data + {d}, existing)
    {
      var k := |d|;
      ghost var before := existing;
      while k >= 0 && d[..k] !in existing
        invariant -1 <= k <= |d| && existing <= names
        invariant Raised(before, existing, d, k)
      {
        AncestorIn(names, d, k);
        RaiseOne(before, existing, d, k);
        existing := existing + {d[..k]};
        k := k - 1;
      }
      AddKeepsFlags(names, data, before, existing, d, k);
    }

    // ----- data goes

    /** `has_data_below`. */
    method HasDataBelow(top: Name) returns (yes: bool)
      requires Shaped() && top in names
      ensures yes <==> FlagBelow(existing, top)
    {
      var d := NextName(names, top);
      ghost var last := top;
      while d.Some?
        invariant last in names && LessEq(top, last) && IsSuccessor(names, last, d)
        invariant forall x :: x in existing && x != top && IsSubdomain(x, top) ==> Less(last, x)
        decreases Above(names, last)
      {
        var below := TestSubdomain(d.value, top);
        if !below {
          BlockEnded(names, existing, top, last, d.value);
          return false;
        }
        if d.value in existing {
          SomeBelow(existing, top, last, d.value);
          return true;
        }
        StepBelow(names, existing, top, last, d.value);
        last := d.value;
        d := NextName(names, d.value);
      }
      NoneBelow(names, existing, top, last);
      return false;
    }

    /** `rrset_zero_nonexist_check` without an encloser to stop at. */
    method ZeroNonexistCheck(d: Name)
      requires Shaped() && d in names && Cleared(names, Data(), existing, d, |d|)
      modifies this`existing
      ensures Valid()
    {
      assert d[..|d|] == d;
      if rrsets[d] != 0 {
        DataAbove(names, Data(), existing, d, |d|);
        return;
      }
      var k := |d|;
      while k >= 0 && rrsets[d[..k]] == 0
        invariant -1 <= k <= |d| && (k >= 0 ==> d[..k] in names)
        invariant existing <= names && Cleared(names, Data(), existing, d, k)
      {
        var more := HasDataBelow(d[..k]);
        if more {
          ExistsBelow(names, Data(), existing, d, k);
          return;
        }
        NothingBelow(names, Data(), existing, d, k);
        existing := existing - {d[..k]};
        k := k - 1;
        if k >= 0 {
          AncestorIn(names, d, k);
        }
      }
      if k >= 0 {
        DataAbove(names, Data(), existing, d, k);
      }
    }

    /** The whole-rrset branch of `delete_RR`. */
    method DeleteRrset(d: Name)
      requires Valid() && d in names && rrsets[d] > 0
      modifies this
      ensures Valid() && Data() == if old(rrsets)[d] == 1 then old(Data()) - {d} else old(Data())
      ensures Pruned(old(names), names, d) && forall n :: n in old(names) - names ==> n !in Data() && old(usage)[n] == 0
      ensures forall n :: n in names && IsSubdomain(d, n) ==> !Deletable(n)
      ensures Extends(usage, old(usage)) && Extends(rrsets, old(rrsets)[d := old(rrsets)[d] - 1])
    {
      var n := rrsets[d] - 1;
      DataOfUpdate(rrsets, d, n);
      rrsets := rrsets[d := n];
      LessData(names, old(Data()), Data(), existing, d);
      ZeroNonexistCheck(d);
      DelDomain(d);
    }

    // ----- names go

    /** No data, no use, and no name below. */
    ghost predicate Deletable(n: Name)
      reads this`names, this`rrsets, this`usage
    {
      && n in rrsets && n in usage && rrsets[n] == 0 && usage[n] == 0
      && forall x :: x in names && IsSubdomain(x, n) ==> x == n
    }

    /** `domain_can_be_deleted`. */
    method CanBeDeleted(n: Name) returns (yes: bool)
      requires Shaped() && n in names
      ensures yes <==> Deletable(n)
    {
      if rrsets[n] > 0 || usage[n] > 0 {
        return false;
      }
      var next := NextName(names, n);
      if next.Some? {
        var below := TestSubdomain(next.value, n);
        if below {
          Total(n, next.value);
          return false;
        }
      }
      LeafBySuccessor(names, n, next);
      return true;
    }

    /** `domain_table_deldomain`: the name and then its ancestors, as long as
        they can go; what is left of them cannot. */
    method DelDomain(d: Name)
      requires Valid() && d in names
      modifies this`names, this`rrsets, this`usage
      ensures Valid() && Data() == old(Data()) && Pruned(old(names), names, d)
      ensures Extends(rrsets, old(rrsets)) && Extends(usage, old(usage))
      ensures forall n :: n in old(names) - names ==> n !in Data() && old(usage)[n] == 0
      ensures forall n :: n in names && IsSubdomain(d, n) ==> !Deletable(n)
    {
      var p := d;
      ghost var gone: set<Name> := {};
      while true
        invariant Valid() && p in names && IsSubdomain(d, p) && Data() == old(Data())
        invariant names == old(names) - gone && Extends(rrsets, old(rrsets)) && Extends(usage, old(usage))
        invariant gone <= old(names) && GoneBelow(gone, d, p)
        invariant forall n :: n in gone ==> n !in Data() && old(usage)[n] == 0
        decreases |p|
      {
        var yes := CanBeDeleted(p);
        if !yes {
          break;
        }
        DoDelDomain(p);
        GoneOne(gone, d, p);
        gone := gone + {p};
        p := Parent(p);
      }
      forall n | n in names && IsSubdomain(d, n)
        ensures !Deletable(n)
      {
        if n != p {
          assert IsSubdomain(p, n);
        }
      }
    }

    /** `do_deldomain`. */
    method DoDelDomain(p: Name)
      requires Valid() && p in names && Deletable(p)
      modifies this`names, this`rrsets, this`usage
      ensures Valid() && p != [] && Parent(p) in names && names == old(names) - {p} && Data() == old(Data())
      ensures rrsets == old(rrsets) - {p} && usage == old(usage) - {p}
    {
      LeafHoldsNothing(names, Data(), p);
      DataOfRemove(rrsets, p);
      names, rrsets, usage := names - {p}, rrsets - {p}, usage - {p};
    }

    // ----- references from rdata

    /** A name is referred to once more. */
    method Use(n: Name)
      requires Valid() && n in names
      modifies this`usage
      ensures Valid() && usage == OneMore(old(usage), n)
    {
      usage := OneMore(usage, n);
    }

    /** `rr_lower_usage` for one name; the root keeps its own use. */
    method LowerUsage(n: Name)
      requires Valid() && n in names && usage[n] > (if n == [] then 1 else 0)
      modifies this`names, this`rrsets, this`usage
      ensures Valid() && Data() == old(Data()) && Pruned(old(names), names, n)
      ensures forall x :: x in old(names) - names ==> x !in Data()
      ensures Extends(rrsets, old(rrsets)) && Extends(usage, old(usage)[n := old(usage)[n] - 1])
      ensures forall x :: x in names && IsSubdomain(n, x) && old(usage)[n] == 1 ==> !Deletable(x)
    {
      usage := usage[n := usage[n] - 1];
      if usage[n] == 0 {
        DelDomain(n);
      }
    }
  }

  // ----- insertion

  /** The ancestors of `n` up to length `k` have been added. */
  ghost predicate Grown(before: set<Name>, names: set<Name>, n: Name, k: nat) {
    forall x :: x in names <==> x in before || (IsSubdomain(n, x) && |x| <= k)
  }

  /** Of the ancestors of `n`, those up to length `from` are in the table. */
  ghost predicate Missing(names: set<Name>, n: Name, from: nat) {
    forall x :: IsSubdomain(n, x) ==> (x in names <==> |x| <= from)
  }

  ghost predicate Extends(m: map<Name, nat>, m': map<Name, nat>) {
    forall x :: x in m ==> x in m' && m'[x] == m[x]
  }

  lemma GrowsOne(before: set<Name>, names: set<Name>, n: Name, from: nat, k: nat)
    requires Missing(before, n, from) && Grown(before, names, n, k) && from <= k < |n|
    ensures n[..k + 1] !in names && Grown(before, names + {n[..k + 1]}, n, k + 1)
  {
    assert IsSubdomain(n, n[..k + 1]);
    forall x | IsSubdomain(n, x) && |x| == k + 1
      ensures x == n[..k + 1]
    {
    }
  }

  lemma Enclosed(names: set<Name>, n: Name, e: Name)
    requires Closed(names) && IsClosestEncloser(names, n, e)
    ensures Missing(names, n, |e|)
  {
    forall x | IsSubdomain(n, x) && |x| <= |e|
      ensures x in names
    {
      AncestorIn(names, e, |x|);
      assert e[..|x|] == x;
    }
  }

  lemma InsertKeepsClosed(names: set<Name>, names': set<Name>, n: Name)
    requires Closed(names) && Grown(names, names', n, |n|)
    ensures Closed(names')
  {
    forall x | x in names' && x != []
      ensures Parent(x) in names'
    {
      if x !in names {
        assert IsSubdomain(n, Parent(x));
      }
    }
  }

  lemma InsertKeepsFlags(names: set<Name>, names': set<Name>, data: set<Name>, existing: set<Name>, n: Name)
    requires Closed(names) && Grown(names, names', n, |n|) && data <= names && existing <= names
    requires FlagsRight(names, data, existing)
    ensures Closed(names') && FlagsRight(names', data, existing)
  {
    InsertKeepsClosed(names, names', n);
    forall x | x in names' && x !in names
      ensures !HoldsData(data, x)
    {
      if HoldsData(data, x) {
        DataHasAncestors(names, data, x);
        assert false;
      }
    }
  }

  lemma DataHasAncestors(names: set<Name>, data: set<Name>, x: Name)
    requires Closed(names) && data <= names && HoldsData(data, x)
    ensures x in names
  {
    var m :| m in data && IsSubdomain(m, x);
    AncestorIn(names, m, |x|);
    assert m[..|x|] == x;
  }

  // ----- flags

  /** The ancestors of `d` longer than `k` have been flagged. */
  ghost predicate Raised(before: set<Name>, after: set<Name>, d: Name, k: int) {
    forall x :: x in after <==> x in before || (IsSubdomain(d, x) && |x| > k)
  }

  lemma RaiseOne(before: set<Name>, after: set<Name>, d: Name, k: nat)
    requires Raised(before, after, d, k) && k <= |d|
    ensures Raised(before, after + {d[..k]}, d, k - 1)
  {
    forall x | IsSubdomain(d, x) && |x| == k
      ensures x == d[..k]
    {
    }
  }

  lemma HoldsAbove(data: set<Name>, n: Name, a: Name)
    requires HoldsData(data, n) && IsSubdomain(n, a)
    ensures HoldsData(data, a)
  {
    var m :| m in data && IsSubdomain(m, n);
    assert IsSubdomain(m, a);
  }

  lemma HoldsMore(data: set<Name>, d: Name, n: Name)
    ensures HoldsData(data + {d}, n) <==> HoldsData(data, n) || IsSubdomain(d, n)
  {
    if HoldsData(data, n) {
      var m :| m in data && IsSubdomain(m, n);
      assert m in data + {d};
    }
    if IsSubdomain(d, n) {
      assert d in data + {d};
    }
  }

  lemma AddKeepsFlags(names: set<Name>, data: set<Name>, before: set<Name>, after: set<Name>, d: Name, k: int)
    requires FlagsRight(names, data, before) && Raised(before, after, d, k)
    requires before <= names && -1 <= k <= |d| && (k >= 0 ==> d[..k] in after)
    ensures FlagsRight(names, data + {d}, after)
  {
    forall n | n in names
      ensures n in after <==> HoldsData(data + {d}, n)
    {
      HoldsMore(data, d, n);
      if IsSubdomain(d, n) && |n| <= k {
        assert |d[..k]| == k && d[..k] in before;
        HoldsAbove(data, d[..k], n);
      }
    }
  }

  /** The flags are right, but for the ancestors of `d` up to length `k`, which
      are still flagged. */
  ghost predicate Cleared(names: set<Name>, data: set<Name>, existing: set<Name>, d: Name, k: int) {
    forall n {:trigger n in existing} {:trigger HoldsData(data, n)} :: n in names ==>
      if !IsSubdomain(d, n) then n in existing <==> HoldsData(data, n)
      else if |n| > k then n !in existing && !HoldsData(data, n)
      else n in existing
  }

  lemma LessData(names: set<Name>, data: set<Name>, data': set<Name>, existing: set<Name>, d: Name)
    requires FlagsRight(names, data, existing)
    requires d in data && (data' == data || data' == data - {d})
    ensures Cleared(names, data', existing, d, |d|)
  {
    forall n | n in names
      ensures if IsSubdomain(d, n) then n in existing else n in existing <==> HoldsData(data', n)
    {
      if IsSubdomain(d, n) {
        assert HoldsData(data, n);
      } else if HoldsData(data, n) {
        var m :| m in data && IsSubdomain(m, n);
        assert m in data';
      }
    }
  }

  lemma AllAbove(names: set<Name>, data: set<Name>, existing: set<Name>, d: Name, k: nat)
    requires k <= |d| && Cleared(names, data, existing, d, k) && HoldsData(data, d[..k])
    ensures FlagsRight(names, data, existing)
  {
    forall n | n in names && IsSubdomain(d, n) && |n| <= k
      ensures HoldsData(data, n)
    {
      HoldsAbove(data, d[..k], n);
    }
  }

  lemma DataAbove(names: set<Name>, data: set<Name>, existing: set<Name>, d: Name, k: nat)
    requires k <= |d| && Cleared(names, data, existing, d, k) && d[..k] in data
    ensures FlagsRight(names, data, existing)
  {
    assert IsSubdomain(d[..k], d[..k]);
    AllAbove(names, data, existing, d, k);
  }

  lemma ExistsBelow(names: set<Name>, data: set<Name>, existing: set<Name>, d: Name, k: nat)
    requires k <= |d| && Cleared(names, data, existing, d, k) && existing <= names
    requires FlagBelow(existing, d[..k])
    ensures FlagsRight(names, data, existing)
  {
    var x :| x in existing && x != d[..k] && IsSubdomain(x, d[..k]);
    if IsSubdomain(d, x) {
      assert false;
    }
    HoldsAbove(data, x, d[..k]);
    AllAbove(names, data, existing, d, k);
  }

  lemma NothingBelow(names: set<Name>, data: set<Name>, existing: set<Name>, d: Name, k: nat)
    requires k <= |d| && Cleared(names, data, existing, d, k) && data <= names && d[..k] in names
    requires d[..k] !in data && !FlagBelow(existing, d[..k])
    ensures Cleared(names, data, existing - {d[..k]}, d, k - 1)
  {
    var p := d[..k];
    assert !HoldsData(data, p) by {
      if HoldsData(data, p) {
        assert false;
      }
    }
    forall n | n in names && IsSubdomain(d, n) && |n| > k - 1
      ensures n !in existing - {p} && !HoldsData(data, n)
    {
      if |n| == k {
        assert n == p;
      }
    }
  }

  // ----- deletion

  /** Only ancestors of `d`, and `d` itself, may be gone. */
  ghost predicate Pruned(before: set<Name>, names: set<Name>, d: Name) {
    names <= before && forall n :: n in before - names ==> IsSubdomain(d, n)
  }

  /** Gone are exactly the ancestors of `d` below `p`. */
  ghost predicate GoneBelow(gone: set<Name>, d: Name, p: Name) {
    forall n :: n in gone <==> IsSubdomain(d, n) && |n| > |p|
  }

  lemma GoneOne(gone: set<Name>, d: Name, p: Name)
    requires GoneBelow(gone, d, p) && IsSubdomain(d, p) && p != []
    ensures GoneBelow(gone + {p}, d, Parent(p)) && IsSubdomain(d, Parent(p))
  {
    forall n | IsSubdomain(d, n) && |n| == |p|
      ensures n == p
    {
    }
  }

  lemma LeafHoldsNothing(names: set<Name>, data: set<Name>, p: Name)
    requires data <= names && p !in data && forall x :: x in names && IsSubdomain(x, p) ==> x == p
    ensures !HoldsData(data, p)
  {
  }

  // ----- the block of subdomains

  /** A name strictly below `top` is flagged as existing. */
  ghost predicate FlagBelow(existing: set<Name>, top: Name) {
    exists x :: x in existing && x != top && IsSubdomain(x, top)
  }

  lemma SomeBelow(existing: set<Name>, top: Name, last: Name, x: Name)
    requires LessEq(top, last) && Less(last, x) && x in existing && IsSubdomain(x, top)
    ensures FlagBelow(existing, top)
  {
    LessEqTransitive(top, last, x);
    Total(last, x);
    Total(top, last);
  }

  lemma BlockEnded(names: set<Name>, existing: set<Name>, top: Name, last: Name, next: Name)
    requires existing <= names && LessEq(top, last) && IsSuccessor(names, last, Some(next))
    requires !IsSubdomain(next, top)
    requires forall x :: x in existing && x != top && IsSubdomain(x, top) ==> Less(last, x)
    ensures !FlagBelow(existing, top)
  {
    if FlagBelow(existing, top) {
      var x :| x in existing && x != top && IsSubdomain(x, top);
      LessEqTransitive(top, last, next);
      Contiguous(top, next, x);
      assert false;
    }
  }

  lemma NoneBelow(names: set<Name>, existing: set<Name>, top: Name, last: Name)
    requires existing <= names && IsSuccessor(names, last, None)
    requires forall x :: x in existing && x != top && IsSubdomain(x, top) ==> Less(last, x)
    ensures !FlagBelow(existing, top)
  {
    forall x | x in existing && x != top && IsSubdomain(x, top)
      ensures false
    {
      Total(last, x);
    }
  }

  ghost function Above(names: set<Name>, n: Name): set<Name> {
    set x | x in names && Less(n, x)
  }

  lemma StepBelow(names: set<Name>, existing: set<Name>, top: Name, last: Name, next: Name)
    requires existing <= names && LessEq(top, last) && IsSuccessor(names, last, Some(next)) && next !in existing
    requires forall x :: x in existing && x != top && IsSubdomain(x, top) ==> Less(last, x)
    ensures LessEq(top, next)
    ensures forall x :: x in existing && x != top && IsSubdomain(x, top) ==> Less(next, x)
    ensures Above(names, next) < Above(names, last)
  {
    LessEqTransitive(top, last, next);
    forall x | x in Above(names, next)
      ensures x in Above(names, last)
    {
      Transitive(last, next, x);
    }
    Total(next, next);
    assert next in Above(names, last) && next !in Above(names, next);
  }

  lemma LeafBySuccessor(names: set<Name>, n: Name, next: Option<Name>)
    requires IsSuccessor(names, n, next) && (next.Some? ==> !IsSubdomain(next.value, n))
    ensures forall x :: x in names && IsSubdomain(x, n) ==> x == n
  {
    forall x | x in names && IsSubdomain(x, n)
      ensures x == n
    {
      if x != n {
        BelowIsAfter(x, n);
        Total(n, x);
        if next.Some? {
          Contiguous(n, next.value, x);
        }
        assert false;
      }
    }
  }
}
