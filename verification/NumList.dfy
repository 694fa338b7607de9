/** The numbered list of domains: the doubly linked `numlist` of namedb.c. */
module NumList {
  import opened Sequences

  class Domain {
    var number: nat
    var prev: Domain?
    var next: Domain?

    constructor ()
    {
      number, prev, next := 0, null, null;
    }
  }

  /** The last element and the element at `i` exchanged. */
  function Exchanged<T>(s: seq<T>, i: nat): (r: seq<T>)
    requires i < |s|
    ensures |r| == |s| && r[i] == s[|s| - 1] && r[|s| - 1] == s[i]
    ensures forall j :: 0 <= j < |s| && j != i && j != |s| - 1 ==> r[j] == s[j]
  {
    s[i := s[|s| - 1]][|s| - 1 := s[i]]
  }

  lemma ExchangedIsDistinct(s: seq<Domain>, i: nat)
    requires Distinct(s) && i < |s|
    ensures Distinct(Exchanged(s, i))
    ensures multiset(Exchanged(s, i)) == multiset(s)
  {
  }

  class DomainList {
    var last: Domain?
    /** The domains in list order. */
    ghost var items: seq<Domain>

    ghost predicate NumberOk(i: nat)
      requires i < |items|
      reads this`items, items`number
    {
      items[i].number == i + 1
    }

    ghost predicate PrevOk(i: nat)
      requires i < |items|
      reads this`items, items`prev
    {
      items[i].prev == (if i == 0 then null else items[i - 1])
    }

    ghost predicate NextOk(i: nat)
      requires i < |items|
      reads this`items, items`next
    {
      items[i].next == (if i + 1 == |items| then null else items[i + 1])
    }

    /** The links are those of `items`, and the numbers count it from 1. */
    ghost predicate Linked(i: nat)
      requires i < |items|
      reads this`items, items
    {
      NumberOk(i) && PrevOk(i) && NextOk(i)
    }

    ghost predicate Valid()
      reads this, items
    {
      && Distinct(items)
      && last == (if items == [] then null else items[|items| - 1])
      && forall i :: 0 <= i < |items| ==> Linked(i)
    }

    /** `domain_table_create`: the root alone. */
    constructor (root: Domain)
      modifies root
      ensures Valid() && items == [root]
    {
      last := root;
      items := [root];
      new;
      root.number, root.prev, root.next := 1, null, null;
    }

    /** The end of `allocate_domain_info`. */
    method Append(d: Domain)
      requires Valid() && items != [] && d !in items
      modifies this, items, d
      ensures Valid() && items == old(items) + [d]
    {
      ghost var n := |items|;
      assert Linked(n - 1);
      d.number := last.number + 1;
      d.next := null;
      d.prev := last;
      last.next := d;
      last := d;
      items := items + [d];
      forall i | 0 <= i < |items|
        ensures Linked(i)
      {
        if i < n {
          assert old(Linked(i));
        }
      }
    }

    /** `numlist_make_last`: the domain and the last one change places. */
    method MakeLast(d: Domain, ghost k: nat)
      requires Valid() && k < |items| && items[k] == d
      modifies this, items
      ensures Valid() && items == Exchanged(old(items), k)
    {
      if d == last {
        return;
      }
      assert Linked(k);
      if d.next != last {
        SwapApart(d, last, k);
      } else {
        SwapNeighbours(d, last, k);
      }
    }

    /** Case 1: there are nodes between the two. */
    method SwapApart(d: Domain, l: Domain, ghost k: nat)
      requires Valid() && k + 2 < |items| && items[k] == d && last == l
      modifies this, items
      ensures Valid() && items == Exchanged(old(items), k)
    {
      ghost var n := |items|;
      assert Linked(k) && Linked(k + 1) && Linked(n - 2) && Linked(n - 1);
      assert k > 0 ==> Linked(k - 1);
      Relink(d, l, d.prev, d.next, l.prev, if k == 0 then {} else {items[k - 1]});
      last := d;
      ExchangedIsDistinct(items, k);
      items := Exchanged(items, k);
      forall i | 0 <= i < n
        ensures Linked(i)
      {
        assert old(Linked(i));
      }
    }

    /** The assignments of case 1. */
    static method Relink(d: Domain, l: Domain, before: Domain?, spanStart: Domain, spanEnd: Domain, ghost befores: set<Domain>)
      requires d != l && d != before && l != before && d != spanStart && l != spanStart && d != spanEnd && l != spanEnd
      requires before != spanEnd && d.prev == before && (before != null ==> before in befores) && befores <= {before}
      modifies d, l, befores`next, spanStart`prev, spanEnd`next
      ensures d.number == old(l.number) && l.number == old(d.number)
      ensures l.prev == before && l.next == spanStart && d.prev == spanEnd && d.next == null
      ensures before != null ==> before.next == l
      ensures spanStart.prev == l && spanEnd.next == d
    {
      d.number, l.number := l.number, d.number;
      if d.prev != null {
        d.prev.next := l;
      }
      l.prev := d.prev;
      l.next := spanStart;
      spanStart.prev := l;
      spanEnd.next := d;
      d.prev := spanEnd;
      d.next := null;
    }

    /** Case 2: they are neighbours. */
    method SwapNeighbours(d: Domain, l: Domain, ghost k: nat)
      requires Valid() && k + 2 == |items| && items[k] == d && last == l
      modifies this, items
      ensures Valid() && items == Exchanged(old(items), k)
    {
      ghost var n := |items|;
      assert Linked(k) && Linked(k + 1);
      assert k > 0 ==> Linked(k - 1);
      d.number, l.number := l.number, d.number;
      if d.prev != null {
        d.prev.next := l;
      }
      l.prev := d.prev;
      l.next := d;
      d.prev := l;
      d.next := null;
      last := d;
      ExchangedIsDistinct(items, k);
      items := Exchanged(items, k);
      forall i | 0 <= i < n
        ensures Linked(i)
      {
        assert old(Linked(i));
      }
    }

    /** `numlist_pop_last`. */
    method PopLast() returns (d: Domain)
      requires Valid() && items != []
      modifies this, items
      ensures Valid() && items == old(items)[..|old(items)| - 1] && d == old(items)[|old(items)| - 1]
    {
      d := last;
      ghost var n := |items|;
      assert Linked(n - 1);
      last := last.prev;
      if last != null {
        last.next := null;
      }
      items := items[..n - 1];
      forall i | 0 <= i < |items|
        ensures Linked(i)
      {
        assert old(Linked(i));
      }
    }

    /** The list part of `do_deldomain`: what remains is still numbered from 1
        without gaps, and only the last domain has a new number. */
    method Remove(d: Domain, ghost k: nat)
      requires Valid() && k < |items| && items[k] == d
      modifies this, items
      ensures Valid() && |items| == |old(items)| - 1
      ensures d !in items && multiset(items) + multiset{d} == multiset(old(items))
      ensures items == Exchanged(old(items), k)[..|old(items)| - 1]
    {
      ExchangedIsDistinct(items, k);
      MakeLast(d, k);
      ghost var s := items;
      var popped := PopLast();
      assert s == items + [d];
    }
  }
}
