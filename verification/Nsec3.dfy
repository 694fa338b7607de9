/** The NSEC3 cover index, after nsec3.c and the NSEC3 triggers of difffile.c.

    Hashes are integers in hash order, and an NSEC3 owner is named by its
    hash: base32hex keeps the order and names do not collide.  Each hashed
    name caches the NSEC3 that covers it; while a transfer is applied only a
    few NSEC3 owners are put on the prehash list, and `prehash_zone` repairs
    the names they cover. */
module Nsec3 {
  import opened Sequences
  import opened RbTree

  /** `nsec3_cover` and `nsec3_is_exact` of a hashed name. */
  datatype Info = Info(cover: Option<int>, exact: bool)

  type Tree = map<int, Info>

  // ----- the specification: covering in a circular chain

  /** `c` is the last owner not after `h`, or the last owner of all when `h`
      comes before the first. */
  ghost predicate IsCover(owners: set<int>, h: int, c: int) {
    && c in owners
    && if c <= h then forall o :: o in owners && o <= h ==> o <= c
       else forall o :: o in owners ==> h < o <= c
  }

  lemma CoverIsUnique(owners: set<int>, h: int, c: int, d: int)
    requires IsCover(owners, h, c) && IsCover(owners, h, d)
    ensures c == d
  {
  }

  /** What looking the name up now would give; the wildcard tree keeps no
      exact flag. */
  ghost predicate Correct(owners: set<int>, h: int, info: Info, wild: bool) {
    && info.cover.Some? && IsCover(owners, h, info.cover.value)
    && info.exact == (!wild && h in owners)
  }

  ghost predicate AllCorrect(owners: set<int>, tree: Tree, wild: bool) {
    forall h :: h in tree ==> Correct(owners, h, tree[h], wild)
  }

  /** The correct cover of `h` is waiting on the list. */
  ghost predicate Waits(owners: set<int>, h: int, list: seq<int>) {
    exists c :: c in list && IsCover(owners, h, c)
  }

  /** Every name is right, or its correct cover is on the list. */
  ghost predicate Repairable(owners: set<int>, tree: Tree, wild: bool, list: seq<int>) {
    forall h :: h in tree ==> Correct(owners, h, tree[h], wild) || Waits(owners, h, list)
  }

  // ----- how the chain changes what covers what

  lemma AddOwner(owners: set<int>, n: int, h: int, c: int)
    requires IsCover(owners, h, c) && n !in owners
    ensures IsCover(owners + {n}, h, c) || IsCover(owners + {n}, h, n)
    ensures IsCover(owners + {n}, h, n) ==> h >= n || forall o :: o in owners ==> h < o
    ensures IsCover(owners + {n}, h, c) ==> n != h
  {
  }

  /** The previous owner in the circle. */
  ghost predicate IsPrevOwner(owners: set<int>, n: int, p: int) {
    && p in owners && p != n
    && if p < n then forall o :: o in owners && o < n ==> o <= p
       else forall o :: o in owners ==> n <= o <= p
  }

  lemma DelOwner(owners: set<int>, n: int, p: int, h: int, c: int)
    requires IsCover(owners, h, c) && IsPrevOwner(owners, n, p) && n in owners
    ensures c != n ==> IsCover(owners - {n}, h, c) && n != h
    ensures c == n ==> IsCover(owners - {n}, h, p)
  {
  }

  /** Adding an owner leaves every name right or waiting for an owner on the
      list, if the new owner is put on it. */
  lemma AddKeepsRepairable(owners: set<int>, n: int, tree: Tree, wild: bool, list: seq<int>, list': seq<int>)
    requires Repairable(owners, tree, wild, list) && n !in owners
    requires n in list' && forall c :: c in list ==> c in list'
    ensures Repairable(owners + {n}, tree, wild, list')
  {
    forall h | h in tree
      ensures Correct(owners + {n}, h, tree[h], wild) || Waits(owners + {n}, h, list')
    {
      if Correct(owners, h, tree[h], wild) {
        AddOwner(owners, n, h, tree[h].cover.value);
      } else {
        var c :| c in list && IsCover(owners, h, c);
        AddOwner(owners, n, h, c);
      }
    }
  }

  /** Deleting an owner does too, if the previous owner is put on the list. */
  lemma DelKeepsRepairable(owners: set<int>, n: int, p: int, tree: Tree, wild: bool, list: seq<int>, list': seq<int>)
    requires Repairable(owners, tree, wild, list) && IsPrevOwner(owners, n, p) && n in owners
    requires p in list' && forall c :: c in list && c != n ==> c in list'
    ensures Repairable(owners - {n}, tree, wild, list')
  {
    forall h | h in tree
      ensures Correct(owners - {n}, h, tree[h], wild) || Waits(owners - {n}, h, list')
    {
      if Correct(owners, h, tree[h], wild) {
        DelOwner(owners, n, p, h, tree[h].cover.value);
      } else {
        var c :| c in list && IsCover(owners, h, c);
        DelOwner(owners, n, p, h, c);
      }
    }
  }

  // ----- repairing a range of the hash space

  ghost predicate InRange(h: int, start: Option<int>, end: Option<int>) {
    (start.Some? ==> start.value <= h) && (end.Some? ==> h < end.value)
  }

  /** `r` is the first key not before `x`. */
  ghost predicate IsLowerBound(keys: set<int>, x: int, r: Option<int>) {
    match r
    case None => forall k :: k in keys ==> k < x
    case Some(l) => l in keys && x <= l && forall k :: k in keys && x <= k ==> l <= k
  }

  /** `process_first`: the first name not before the hash, and whether it is
      the hash itself. */
  method ProcessFirst(keys: set<int>, hash: int) returns (exact: bool, p: Option<int>)
    ensures IsLowerBound(keys, hash, p) && (exact <==> hash in keys) && (exact ==> p == Some(hash))
  {
    exact, p := RbTree.FindLessEqual(keys, hash);
    if exact {
      return;
    }
    if p.None? {
      p := RbTree.First(keys);
    } else {
      p := RbTree.Next(keys, p.value);
    }
  }

  /** `process_end`. */
  method ProcessEnd(keys: set<int>, hash: int) returns (p: Option<int>)
    ensures IsLowerBound(keys, hash, p)
  {
    var exact;
    exact, p := RbTree.FindLessEqual(keys, hash);
    if exact {
      return;
    }
    if p.None? {
      p := RbTree.First(keys);
      return;
    }
    p := RbTree.Next(keys, p.value);
  }

  ghost function KeysFrom(keys: set<int>, p: Option<int>): set<int> {
    if p.None? then {} else set h | h in keys && h >= p.value
  }

  /** The walking loop of `process_range`: from `first` up to `last`. */
  method ProcessRest(tree: Tree, first: Option<int>, last: Option<int>, nsec3: int) returns (t: Tree)
    requires first.Some? ==> first.value in tree
    requires last.Some? ==> first.Some? && first.value <= last.value && last.value in tree
    ensures t.Keys == tree.Keys
    ensures forall h :: h in t ==>
              t[h] == if first.Some? && first.value <= h && (last.None? || h < last.value)
                      then Info(Some(nsec3), false) else tree[h]
  {
    t := tree;
    var p := first;
    while p.Some? && p != last
      invariant t.Keys == tree.Keys
      invariant p.Some? ==> first.Some? && p.value in t && first.value <= p.value
      invariant last.Some? ==> p.Some? && p.value <= last.value
      invariant forall h :: h in t ==>
                  t[h] == if first.Some? && first.value <= h && (p.None? || h < p.value)
                          then Info(Some(nsec3), false) else tree[h]
      decreases KeysFrom(t.Keys, p)
    {
      ghost var before := p;
      t := t[p.value := Info(Some(nsec3), false)];
      p := RbTree.Next(t.Keys, p.value);
      assert before.value in KeysFrom(t.Keys, before) - KeysFrom(t.Keys, p);
    }
  }

  /** `process_range` for one of the trees: the names in the range get `nsec3`
      as their cover, exact at the start. */
  method ProcessRange(tree: Tree, start: Option<int>, end: Option<int>, nsec3: int, wild: bool) returns (t: Tree)
    requires start.Some? && end.Some? ==> start.value < end.value
    ensures t.Keys == tree.Keys
    ensures forall h :: h in t ==>
              t[h] == if InRange(h, start, end) then Info(Some(nsec3), !wild && start == Some(h)) else tree[h]
  {
    t := tree;
    var p, pEnd := None, None;
    if start.Some? {
      var exact;
      exact, p := ProcessFirst(t.Keys, start.value);
      if exact && !wild {
        t := t[start.value := Info(Some(nsec3), true)];
        p := RbTree.Next(t.Keys, start.value);
      }
    } else {
      p := RbTree.First(t.Keys);
    }
    if end.Some? {
      pEnd := ProcessEnd(t.Keys, end.value);
    }
    t := ProcessRest(t, p, pEnd, nsec3);
  }

  /** `process_prehash_domain` for one of the trees: exactly the names that `d`
      covers are repaired; the last owner also covers what comes before the
      first. */
  method RepairTree(owners: set<int>, d: int, tree: Tree, wild: bool) returns (t: Tree)
    requires d in owners
    ensures t.Keys == tree.Keys
    ensures forall h :: h in t ==>
              if IsCover(owners, h, d) then Correct(owners, h, t[h], wild) else t[h] == tree[h]
  {
    var nx := RbTree.Next(owners, d);
    if nx.Some? {
      t := ProcessRange(tree, Some(d), nx, d, wild);
      assert forall h :: InRange(h, Some(d), nx) <==> IsCover(owners, h, d);
    } else {
      var first := RbTree.First(owners);
      t := ProcessRange(tree, Some(d), None, d, wild);
      t := ProcessRange(t, None, first, d, wild);
      assert forall h :: InRange(h, Some(d), None) || InRange(h, None, first) <==> IsCover(owners, h, d);
    }
  }

  lemma RepairStep(owners: set<int>, list: seq<int>, i: nat, tree: Tree, t: Tree, wild: bool)
    requires i < |list| && Repairable(owners, tree, wild, list[i..]) && t.Keys == tree.Keys
    requires forall h :: h in t ==>
               if IsCover(owners, h, list[i]) then Correct(owners, h, t[h], wild) else t[h] == tree[h]
    ensures Repairable(owners, t, wild, list[i + 1..])
  {
    forall h | h in t
      ensures Correct(owners, h, t[h], wild) || Waits(owners, h, list[i + 1..])
    {
      if !IsCover(owners, h, list[i]) && !Correct(owners, h, tree[h], wild) {
        var c :| c in list[i..] && IsCover(owners, h, c);
        assert c in list[i + 1..];
      }
    }
  }

  lemma NothingWaits(owners: set<int>, tree: Tree, wild: bool)
    requires Repairable(owners, tree, wild, [])
    ensures AllCorrect(owners, tree, wild)
  {
    forall h | h in tree
      ensures Correct(owners, h, tree[h], wild)
    {
      assert !Waits(owners, h, []);
    }
  }

  /** The list without `d`, in the same order. */
  function Without(list: seq<int>, d: int): (r: seq<int>)
    ensures forall c :: c in r <==> c in list && c != d
  {
    if list == [] then []
    else
      var last := list[|list| - 1];
      assert list == list[..|list| - 1] + [last];
      Without(list[..|list| - 1], d) + if last == d then [] else [last]
  }

  // ----- the zone

  /** The hashes of a name and its wildcard child, if it is to be indexed, and
      its hash in the parent zone, if it is a delegation. */
  datatype Hashes = Hashes(own: Option<(int, int)>, ds: Option<int>)

  ghost function OwnHashes(names: seq<Hashes>): set<int> {
    set n | n in names && n.own.Some? :: n.own.value.0
  }

  ghost function WildHashes(names: seq<Hashes>): set<int> {
    set n | n in names && n.own.Some? :: n.own.value.1
  }

  ghost function DsHashes(names: seq<Hashes>): set<int> {
    set n | n in names && n.ds.Some? :: n.ds.value
  }

  lemma HashesHead(names: seq<Hashes>)
    requires names != []
    ensures var n, rest := names[0], names[1..];
            && OwnHashes(names) == (if n.own.Some? then {n.own.value.0} else {}) + OwnHashes(rest)
            && WildHashes(names) == (if n.own.Some? then {n.own.value.1} else {}) + WildHashes(rest)
            && DsHashes(names) == (if n.ds.Some? then {n.ds.value} else {}) + DsHashes(rest)
  {
    assert names == [names[0]] + names[1..];
  }

  class Nsec3Zone {
    /** `nsec3tree` and `nsec3_last`. */
    var owners: set<int>
    var last: Option<int>
    /** The names by hash, by the hash of their wildcard child, and by hash in
        the parent zone. */
    var hashTree: Tree
    var wcTree: Tree
    var dsTree: Tree
    var prehash: seq<int>

    /** A working chain, and every name right or waiting. */
    ghost predicate Valid()
      reads this
    {
      && owners != {} && IsLast(owners, last)
      && (forall c :: c in prehash ==> c in owners)
      && Repairable(owners, hashTree, false, prehash)
      && Repairable(owners, wcTree, true, prehash)
      && Repairable(owners, dsTree, false, prehash)
    }

    /** What `nsec3_find_cover` returns now is what every name has. */
    ghost predicate Settled()
      reads this
    {
      && AllCorrect(owners, hashTree, false)
      && AllCorrect(owners, wcTree, true)
      && AllCorrect(owners, dsTree, false)
    }

    constructor (first: int)
      ensures Valid() && Settled() && owners == {first} && hashTree == map[] && wcTree == map[] && dsTree == map[]
    {
      owners, last := {first}, Some(first);
      hashTree, wcTree, dsTree, prehash := map[], map[], map[], [];
    }

    /** `nsec3_find_cover`; without a chain nothing covers. */
    method FindCover(hash: int) returns (exact: bool, cover: Option<int>)
      requires IsLast(owners, last)
      ensures owners != {} ==> cover.Some? && IsCover(owners, hash, cover.value)
      ensures owners == {} ==> cover.None?
      ensures exact <==> hash in owners
    {
      exact, cover := RbTree.FindLessEqual(owners, hash);
      if cover.None? {
        cover := last;
      }
    }

    // ----- names entering and leaving

    /** The answer of a lookup; none without a chain. */
    ghost predicate Looked(h: int, info: Info, wild: bool)
      reads this`owners
    {
      if owners == {} then info == Info(None, false) else Correct(owners, h, info, wild)
    }

    /** `nsec3_precompile_domain`. */
    method PrecompileDomain(hash: int, wcHash: int)
      requires IsLast(owners, last)
      modifies this`hashTree, this`wcTree
      ensures hash in hashTree && Looked(hash, hashTree[hash], false) && wcHash in wcTree && Looked(wcHash, wcTree[wcHash], true)
      ensures hashTree == old(hashTree)[hash := hashTree[hash]] && wcTree == old(wcTree)[wcHash := wcTree[wcHash]]
      ensures old(Valid()) ==> Valid()
    {
      var exact, cover := FindCover(hash);
      hashTree := hashTree[hash := Info(cover, exact)];
      exact, cover := FindCover(wcHash);
      wcTree := wcTree[wcHash := Info(cover, false)];
    }

    /** `nsec3_precompile_domain_ds`. */
    method PrecompileDomainDs(hash: int)
      requires IsLast(owners, last)
      modifies this`dsTree
      ensures hash in dsTree && Looked(hash, dsTree[hash], false) && dsTree == old(dsTree)[hash := dsTree[hash]]
      ensures old(Valid()) ==> Valid()
    {
      var exact, cover := FindCover(hash);
      dsTree := dsTree[hash := Info(cover, exact)];
    }

    /** `nsec3_rrsets_changed_remove_prehash`, its two parts. */
    method RemoveName(hash: int, wcHash: int)
      modifies this`hashTree, this`wcTree
      ensures hashTree == old(hashTree) - {hash} && wcTree == old(wcTree) - {wcHash}
      ensures old(Valid()) ==> Valid()
    {
      hashTree := hashTree - {hash};
      wcTree := wcTree - {wcHash};
    }

    method RemoveDs(hash: int)
      modifies this`dsTree
      ensures dsTree == old(dsTree) - {hash}
      ensures old(Valid()) ==> Valid()
    {
      dsTree := dsTree - {hash};
    }

    // ----- owners entering and leaving

    /** `prehash_add`. */
    method PrehashAdd(d: int)
      modifies this`prehash
      ensures prehash == if d in old(prehash) then old(prehash) else [d] + old(prehash)
    {
      if d !in prehash {
        prehash := [d] + prehash;
      }
    }

    /** `prehash_del`. */
    method PrehashDel(d: int)
      modifies this`prehash
      ensures prehash == Without(old(prehash), d)
    {
      var i := 0;
      var rest: seq<int> := [];
      assert prehash[..0] == [];
      while i < |prehash|
        invariant 0 <= i <= |prehash| && prehash == old(prehash) && rest == Without(prehash[..i], d)
      {
        assert prehash[..i + 1][..i] == prehash[..i];
        if prehash[i] != d {
          rest := rest + [prehash[i]];
        }
        i := i + 1;
      }
      assert prehash[..i] == prehash;
      prehash := rest;
    }

    /** `nsec3_add_rr_trigger` with `nsec3_precompile_nsec3rr`: an NSEC3 enters
        the chain and is put on the list. */
    method AddNsec3(n: int)
      requires Valid() && n !in owners
      modifies this`owners, this`last, this`prehash
      ensures Valid() && owners == old(owners) + {n}
    {
      ghost var owners0, list0 := owners, prehash;
      owners := owners + {n};
      var l := RbTree.Last(owners);
      if l == Some(n) {
        last := Some(n);
      }
      PrehashAdd(n);
      AddKeepsRepairable(owners0, n, hashTree, false, list0, prehash);
      AddKeepsRepairable(owners0, n, wcTree, true, list0, prehash);
      AddKeepsRepairable(owners0, n, dsTree, false, list0, prehash);
    }

    /** `nsec3_chain_find_prev`. */
    method ChainFindPrev(n: int) returns (p: Option<int>)
      requires n in owners && IsLast(owners, last)
      ensures owners != {n} ==> p.Some? && IsPrevOwner(owners, n, p.value)
      ensures owners == {n} ==> p.None?
    {
      p := RbTree.Previous(owners, n);
      if p.Some? {
        return;
      }
      if last.Some? && last.value != n {
        return last;
      }
      assert forall o :: o in owners ==> o == n;
      return None;
    }

    /** `nsec3_delete_rr_trigger`: an NSEC3 leaves the chain, and the one before
        it, which now covers its names, is put on the list; after the last one
        the whole index is cleared. */
    method DeleteNsec3(n: int)
      requires Valid() && n in owners
      modifies this
      ensures owners == old(owners) - {n}
      ensures old(owners) != {n} ==> Valid() && hashTree == old(hashTree) && wcTree == old(wcTree) && dsTree == old(dsTree)
      ensures old(owners) == {n} ==> Cleared()
    {
      ghost var owners0, list0 := owners, prehash;
      var prev := ChainFindPrev(n);
      if n in prehash {
        PrehashDel(n);
      }
      if last == Some(n) {
        last := prev;
      }
      owners := owners - {n};
      if prev.None? {
        ClearPrecompile();
        return;
      }
      PrehashAdd(prev.value);
      DelKeepsRepairable(owners0, n, prev.value, hashTree, false, list0, prehash);
      DelKeepsRepairable(owners0, n, prev.value, wcTree, true, list0, prehash);
      DelKeepsRepairable(owners0, n, prev.value, dsTree, false, list0, prehash);
    }

    /** No chain, and nothing indexed. */
    ghost predicate Cleared()
      reads this
    {
      owners == {} && last == None && hashTree == map[] && wcTree == map[] && dsTree == map[] && prehash == []
    }

    /** `nsec3_clear_precompile`. */
    method ClearPrecompile()
      modifies this
      ensures Cleared()
    {
      owners, last, hashTree, wcTree, dsTree, prehash := {}, None, map[], map[], map[], [];
    }

    /** No chain; names may have been hashed since it went. */
    ghost predicate Dormant()
      reads this
    {
      owners == {} && last == None && prehash == []
    }

    /** Whatever is not right belongs to a name that is still to come. */
    ghost predicate Awaited(names: seq<Hashes>)
      reads this
    {
      && (forall h :: h in hashTree ==> Correct(owners, h, hashTree[h], false) || h in OwnHashes(names))
      && (forall h :: h in wcTree ==> Correct(owners, h, wcTree[h], true) || h in WildHashes(names))
      && forall h :: h in dsTree ==> Correct(owners, h, dsTree[h], false) || h in DsHashes(names)
    }

    /** `nsec3_precompile_newparam`: the chain and the index of a whole zone,
        which has all names that are hashed already. */
    method PrecompileNewparam(chain: seq<int>, names: seq<Hashes>)
      requires Dormant() && Awaited(names) && chain != []
      modifies this
      ensures Valid() && Settled() && prehash == [] && owners == (set n | n in chain)
      ensures forall i :: 0 <= i < |names| ==> Indexed(names[i])
    {
      EnterChain(chain);
      assert chain[0] in owners && names[0..] == names;
      var i := 0;
      while i < |names|
        invariant 0 <= i <= |names| && owners == (set n | n in chain) && prehash == [] && owners != {} && IsLast(owners, last)
        invariant Awaited(names[i..]) && forall j :: 0 <= j < i ==> Indexed(names[j])
      {
        HashesHead(names[i..]);
        assert names[i..][1..] == names[i + 1..];
        IndexName(names[i], names[i + 1..]);
        i := i + 1;
      }
      assert names[i..] == [];
    }

    /** The first loop. */
    method EnterChain(chain: seq<int>)
      requires Dormant()
      modifies this`owners, this`last
      ensures owners == (set n | n in chain) && IsLast(owners, last)
    {
      var i := 0;
      while i < |chain|
        invariant 0 <= i <= |chain| && owners == (set n | n in chain[..i]) && IsLast(owners, last)
      {
        owners := owners + {chain[i]};
        last := RbTree.Last(owners);
        i := i + 1;
      }
      assert chain[..i] == chain;
    }

    /** One turn of the second loop. */
    method IndexName(n: Hashes, ghost rest: seq<Hashes>)
      requires owners != {} && IsLast(owners, last)
      requires Awaited([n] + rest)
      modifies this`hashTree, this`wcTree, this`dsTree
      ensures Awaited(rest) && Indexed(n) && forall m :: old(Indexed(m)) ==> Indexed(m)
    {
      HashesHead([n] + rest);
      assert ([n] + rest)[1..] == rest;
      if n.own.Some? {
        PrecompileDomain(n.own.value.0, n.own.value.1);
      }
      if n.ds.Some? {
        PrecompileDomainDs(n.ds.value);
      }
    }

    /** The name is in the trees it belongs to. */
    ghost predicate Indexed(h: Hashes)
      reads this
    {
      && (h.own.Some? ==> h.own.value.0 in hashTree && h.own.value.1 in wcTree)
      && (h.ds.Some? ==> h.ds.value in dsTree)
    }

    /** `nsec3_add_rr_trigger` after the chain had gone: the zone is indexed anew. */
    method AddFirstNsec3(n: int, names: seq<Hashes>)
      requires Dormant() && Awaited(names)
      modifies this
      ensures Valid() && Settled() && owners == {n} && prehash == [n]
      ensures forall i :: 0 <= i < |names| ==> Indexed(names[i])
    {
      PrecompileNewparam([n], names);
      assert (set m | m in [n]) == {n};
      PrehashAdd(n);
    }

    // ----- repair

    /** `prehash_zone`: whatever order the list is in, afterwards every name
        has the cover and the flag a fresh lookup gives. */
    method PrehashZone()
      requires Valid()
      modifies this`hashTree, this`wcTree, this`dsTree, this`prehash
      ensures Valid() && Settled() && prehash == []
      ensures hashTree.Keys == old(hashTree).Keys && wcTree.Keys == old(wcTree).Keys && dsTree.Keys == old(dsTree).Keys
    {
      var i := 0;
      assert prehash[0..] == prehash;
      while i < |prehash|
        invariant 0 <= i <= |prehash| && prehash == old(prehash)
        invariant hashTree.Keys == old(hashTree).Keys && wcTree.Keys == old(wcTree).Keys && dsTree.Keys == old(dsTree).Keys
        invariant Repairable(owners, hashTree, false, prehash[i..])
        invariant Repairable(owners, wcTree, true, prehash[i..])
        invariant Repairable(owners, dsTree, false, prehash[i..])
      {
        var d := prehash[i];
        var t := RepairTree(owners, d, hashTree, false);
        RepairStep(owners, prehash, i, hashTree, t, false);
        hashTree := t;
        t := RepairTree(owners, d, wcTree, true);
        RepairStep(owners, prehash, i, wcTree, t, true);
        wcTree := t;
        t := RepairTree(owners, d, dsTree, false);
        RepairStep(owners, prehash, i, dsTree, t, false);
        dsTree := t;
        i := i + 1;
      }
      prehash := [];
      NothingWaits(owners, hashTree, false);
      NothingWaits(owners, wcTree, true);
      NothingWaits(owners, dsTree, false);
    }
  }
}
