/** The table of domain names together with its numbered list: names come and
    go in cascades, and the numbers follow. */
module DomainNumbers {
  import opened Names
  import opened Sequences
  import opened DomainTable
  import opened NumList

  /** The names of the domains of the list, in list order. */
  ghost predicate Matched(node: map<Name, Domain>, owners: seq<Name>, items: seq<Domain>) {
    && |owners| == |items| && Distinct(owners) && node.Keys == Elements(owners)
    && forall i :: 0 <= i < |owners| ==> owners[i] in node && node[owners[i]] == items[i]
  }

  lemma MatchedMore(node: map<Name, Domain>, owners: seq<Name>, items: seq<Domain>, n: Name, d: Domain)
    requires Matched(node, owners, items) && n !in node
    ensures Matched(node[n := d], owners + [n], items + [d])
  {
  }

  /** The last takes the place of the one that goes. */
  ghost function Without<T>(s: seq<T>, k: nat): seq<T>
    requires k < |s|
  {
    Exchanged(s, k)[..|s| - 1]
  }

  lemma MatchedLess(node: map<Name, Domain>, owners: seq<Name>, items: seq<Domain>, k: nat)
    requires Matched(node, owners, items) && k < |owners|
    ensures Matched(node - {owners[k]}, Without(owners, k), Without(items, k))
  {
    var owners', node' := Without(owners, k), node - {owners[k]};
    forall x
      ensures x in node'.Keys <==> x in Elements(owners')
    {
      if x in node' {
        var i :| 0 <= i < |owners| && owners[i] == x;
        assert if i == |owners| - 1 then owners'[k] == x else owners'[i] == x;
      }
    }
  }

  ghost predicate Prefix<T>(s: seq<T>, t: seq<T>) {
    |s| <= |t| && forall i :: 0 <= i < |s| ==> s[i] == t[i]
  }

  lemma PrefixOfPrefix<T>(s: seq<T>, t: seq<T>, u: seq<T>)
    requires Prefix(s, t) && Prefix(t, u)
    ensures Prefix(s, u)
  {
  }

  class NumberedTable {
    const table: Domains
    const list: DomainList
    /** The node of each name. */
    var node: map<Name, Domain>
    /** The names in list order. */
    ghost var owners: seq<Name>
    /** All nodes there have been. */
    ghost var nodes: set<Domain>

    /** The list has the nodes of these names. */
    ghost predicate Listed(names: set<Name>)
      reads this, list, nodes
    {
      && (forall d :: d in list.items ==> d in nodes)
      && list.Valid() && node.Keys == names && Matched(node, owners, list.items) && [] in node
    }

    ghost predicate Valid()
      reads this, table, list, nodes
    {
      table.Valid() && Listed(table.names)
    }

    /** `domain_table_create`. */
    constructor ()
      ensures Valid() && table.names == {[]} && fresh(table) && fresh(list) && fresh(nodes)
    {
      table := new Domains();
      var root := new Domain();
      list := new DomainList(root);
      node, owners, nodes := map[[] := root], [[]], {root};
    }

    /** A new node at the end of the list. */
    method Allocate(n: Name, ghost names: set<Name>)
      requires Listed(names) && n !in names
      modifies this, list, nodes
      ensures Listed(names + {n})
      ensures owners == old(owners) + [n] && fresh(nodes - old(nodes))
    {
      var d := new Domain();
      MatchedMore(node, owners, list.items, n, d);
      list.Append(d);
      node, owners, nodes := node[n := d], owners + [n], nodes + {d};
    }

    /** The node of a deleted name leaves the list. */
    method Release(n: Name, ghost names: set<Name>)
      requires Listed(names) && n in names && n != []
      modifies this, list, nodes
      ensures Listed(names - {n}) && nodes == old(nodes)
    {
      ghost var k := IndexOf(owners, n);
      MatchedLess(node, owners, list.items, k);
      ghost var items := list.items;
      list.Remove(node[n], k);
      node, owners := node - {n}, Without(owners, k);
      WithoutWithin(items, k);
    }

    /** The nodes of the missing ancestors, in their order. */
    method AddNodes(n: Name, ghost before: set<Name>) returns (ghost names: set<Name>)
      requires Listed(before)
      modifies this, list, nodes
      ensures Listed(names) && Added(before, names, n, |n| + 1)
      ensures Prefix(old(owners), owners) && fresh(nodes - old(nodes))
    {
      names := before;
      var k := 0;
      while k <= |n|
        invariant 0 <= k <= |n| + 1 && Listed(names) && Added(before, names, n, k)
        invariant Prefix(old(owners), owners) && fresh(nodes - old(nodes))
      {
        AddedStep(before, names, n, k);
        ghost var s := owners;
        names := AddNode(n[..k], names);
        PrefixOfPrefix(old(owners), s, owners);
        k := k + 1;
      }
    }

    method AddNode(n: Name, ghost names: set<Name>) returns (ghost names': set<Name>)
      requires Listed(names)
      modifies this, list, nodes
      ensures Listed(names') && names' == names + {n}
      ensures Prefix(old(owners), owners) && fresh(nodes - old(nodes))
    {
      names' := names + {n};
      if n !in node {
        Allocate(n, names);
      } else {
        assert names' == names;
      }
    }

    /** After names were added to the table: their nodes join the list. */
    method Enlist(n: Name, ghost before: set<Name>)
      requires table.Valid() && Listed(before) && forall x :: x in table.names <==> x in before || IsSubdomain(n, x)
      modifies this, list, nodes
      ensures Valid() && Prefix(old(owners), owners)
    {
      ghost var names := AddNodes(n, before);
      AllAdded(before, names, n, table.names);
    }

    /** `domain_table_insert`: no number changes. */
    method Insert(n: Name)
      requires Valid()
      modifies this, table`names, table`rrsets, table`usage, list, nodes
      ensures Valid() && table.Data() == old(table.Data())
      ensures Prefix(old(owners), owners)
      ensures forall x :: x in table.names <==> x in old(table.names) || IsSubdomain(n, x)
    {
      ghost var before := table.names;
      table.Insert(n);
      Enlist(n, before);
    }

    /** The nodes of deleted names, from `d` upwards to the first live one. */
    method RemoveNodes(d: Name, live: set<Name>, ghost before: set<Name>)
      requires Listed(before) && Closed(before) && Closed(live) && d in before && Pruned(before, live, d)
      modifies this, list, nodes
      ensures Listed(live) && nodes == old(nodes)
    {
      var p := d;
      ghost var names := before;
      while p !in live
        invariant Listed(names) && nodes == old(nodes) && Unwinding(before, names, live, d, p)
        decreases |p|
      {
        UnwindStep(before, names, live, d, p);
        Release(p, names);
        names := names - {p};
        p := Parent(p);
      }
      NothingMore(before, names, live, d, p);
    }

    /** After names were deleted from the table, from `d` upwards: their nodes
        leave the list in the same order. */
    method Forget(d: Name, ghost before: set<Name>)
      requires table.Valid() && Listed(before) && Closed(before) && d in before && Pruned(before, table.names, d)
      modifies this, list, nodes
      ensures Valid()
    {
      RemoveNodes(d, table.names, before);
    }

    /** `domain_table_deldomain`. */
    method DelDomain(d: Name)
      requires Valid() && d in table.names
      modifies this, table`names, table`rrsets, table`usage, list, nodes
      ensures Valid() && table.Data() == old(table.Data()) && Pruned(old(table.names), table.names, d)
      ensures forall n :: n in table.names && IsSubdomain(d, n) ==> !table.Deletable(n)
    {
      ghost var before := table.names;
      table.DelDomain(d);
      Forget(d, before);
    }

    /** `delete_RR` of a whole rrset. */
    method DeleteRrset(d: Name)
      requires Valid() && d in table.names && table.rrsets[d] > 0
      modifies this, table, list, nodes
      ensures Valid() && Pruned(old(table.names), table.names, d)
      ensures forall n :: n in table.names && IsSubdomain(d, n) ==> !table.Deletable(n)
    {
      ghost var before := table.names;
      table.DeleteRrset(d);
      Forget(d, before);
    }

    /** `rr_lower_usage`. */
    method LowerUsage(n: Name)
      requires Valid() && n in table.names && table.usage[n] > (if n == [] then 1 else 0)
      modifies this, table`names, table`rrsets, table`usage, list, nodes
      ensures Valid() && table.Data() == old(table.Data()) && Pruned(old(table.names), table.names, n)
    {
      ghost var before := table.names;
      table.LowerUsage(n);
      Forget(n, before);
    }

    /** The live names are numbered from 1 without gaps, each with its own number. */
    lemma NumbersAreDense(m: Name, n: Name)
      requires Valid() && m in table.names && n in table.names
      ensures m in node && n in node && 1 <= node[n].number <= |table.names|
      ensures node[m].number == node[n].number ==> m == n
    {
      DistinctSize(owners);
      var i :| 0 <= i < |owners| && owners[i] == m;
      var j :| 0 <= j < |owners| && owners[j] == n;
      assert list.Linked(i) && list.Linked(j);
    }
  }

  lemma IndexOf<T>(s: seq<T>, x: T) returns (k: nat)
    requires x in s
    ensures k < |s| && s[k] == x
  {
    k :| 0 <= k < |s| && s[k] == x;
  }

  lemma WithoutWithin<T>(s: seq<T>, k: nat)
    requires k < |s|
    ensures forall x :: x in Without(s, k) ==> x in s
  {
  }

  /** The ancestors of `n` shorter than `k` have been added. */
  ghost predicate Added(before: set<Name>, names: set<Name>, n: Name, k: nat) {
    forall x :: x in names <==> x in before || (IsSubdomain(n, x) && |x| < k)
  }

  lemma AddedStep(before: set<Name>, names: set<Name>, n: Name, k: nat)
    requires Added(before, names, n, k) && k <= |n|
    ensures Added(before, names + {n[..k]}, n, k + 1)
  {
    assert IsSubdomain(n, n[..k]);
    forall x | IsSubdomain(n, x) && |x| == k
      ensures x == n[..k]
    {
    }
  }

  lemma AllAdded(before: set<Name>, names: set<Name>, n: Name, after: set<Name>)
    requires Added(before, names, n, |n| + 1) && forall x :: x in after <==> x in before || IsSubdomain(n, x)
    ensures names == after
  {
  }

  /** Gone are the ancestors of `d` longer than `p`, and these are not live. */
  ghost predicate Unwinding(before: set<Name>, names: set<Name>, live: set<Name>, d: Name, p: Name) {
    && IsSubdomain(d, p) && p in before
    && (forall x :: x in names <==> x in before && !(IsSubdomain(d, x) && |x| > |p|))
    && forall x :: IsSubdomain(d, x) && |x| > |p| ==> x !in live
  }

  lemma UnwindStep(before: set<Name>, names: set<Name>, live: set<Name>, d: Name, p: Name)
    requires Closed(before) && Closed(live) && Unwinding(before, names, live, d, p) && p !in live
    ensures p != [] && p in names && Unwinding(before, names - {p}, live, d, Parent(p))
  {
    forall x | IsSubdomain(d, x) && |x| == |p|
      ensures x == p
    {
    }
  }

  lemma NothingMore(before: set<Name>, names: set<Name>, live: set<Name>, d: Name, p: Name)
    requires Unwinding(before, names, live, d, p) && Pruned(before, live, d) && Closed(live) && p in live
    ensures names == live
  {
    forall x | x in names && IsSubdomain(d, x)
      ensures x in live
    {
      assert p[..|x|] == x;
      AncestorIn(live, p, |x|);
    }
  }
}
