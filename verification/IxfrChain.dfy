/** The differences kept for a zone, after `struct zone_ixfr` in ixfr.c: a tree
    keyed by the serial a difference starts from, with the serials of its
    oldest and newest entry and the total size. */
module IxfrChain {
  import opened Names
  import opened Sequences
  import opened RbTree

  type Serial = s: int | 0 <= s < 0x1_0000_0000

  const SERIAL_CUTOFF: int := 0x8000_0000

  /** `compare_serial` on 32-bit serials (RFC 1982). */
  function CompareSerial(a: nat, b: nat): int {
    if a == b then 0
    else if (a < b && b - a < SERIAL_CUTOFF) || (a > b && a - b > SERIAL_CUTOFF) then -1
    else 1
  }

  /** How far serial `b` is ahead of `a` on the circle of 32-bit serials. */
  function Ahead(a: int, b: int): (k: nat)
    ensures k < 0x1_0000_0000
  {
    (b - a) % 0x1_0000_0000
  }

  lemma AheadIs(a: Serial, k: nat)
    requires k < 0x1_0000_0000
    ensures Ahead(a, (a + k) % 0x1_0000_0000) == k
  {
    var b := (a + k) % 0x1_0000_0000;
    assert b == a + k || b == a + k - 0x1_0000_0000;
  }

  /** Serial arithmetic (section 3.2 of RFC 1982): the first serial is behind the
      second when that is ahead by less than half the circle.  Half the circle
      apart, each is after the other. */
  lemma CompareIs(a: Serial, b: Serial)
    ensures CompareSerial(a, b) == if Ahead(a, b) == 0 then 0 else if Ahead(a, b) < 0x8000_0000 then -1 else 1
    ensures Ahead(a, b) == 0 <==> a == b
    ensures Ahead(b, a) == if a == b then 0 else 0x1_0000_0000 - Ahead(a, b)
  {
    assert Ahead(a, b) == if a <= b then b - a else b - a + 0x1_0000_0000;
    assert Ahead(b, a) == if b <= a then a - b else a - b + 0x1_0000_0000;
  }

  /** One difference; the sections hold records in uncompressed wire format. */
  datatype IxfrData = IxfrData(
    oldserial: Serial, newserial: Serial,
    newsoa: seq<Byte>, oldsoa: seq<Byte>, del: seq<Byte>, add: seq<Byte>)

  /** `ixfr_data_size`, less the fixed size of the structure. */
  function Bytes(d: IxfrData): nat {
    |d.newsoa| + |d.oldsoa| + |d.del| + |d.add|
  }

  /** How far back `k` lies from `c`, wrapping below zero. */
  function Back(c: Serial, k: Serial): int {
    if k < c then c - k else c - k + 0x1_0000_0000
  }

  /** The entries form one simple path: each leads to the next, no serial
      starts two entries, and there are no other entries. */
  ghost predicate Chain(data: map<Serial, IxfrData>, path: seq<Serial>)
    decreases |path|
  {
    if path == [] then data == map[]
    else
      && path[0] in data && data[path[0]].oldserial == path[0]
      && (|path| > 1 ==> data[path[0]].newserial == path[1])
      && path[0] !in path[1..]
      && Chain(data - {path[0]}, path[1..])
  }

  /** The same, by position. */
  ghost predicate Linked(data: map<Serial, IxfrData>, path: seq<Serial>) {
    && data.Keys == Elements(path)
    && (forall i :: 0 <= i < |path| ==> path[i] in data && data[path[i]].oldserial == path[i])
    && (forall i, j :: 0 <= i < j < |path| && j == i + 1 ==> data[path[i]].newserial == path[j])
    && forall i, j :: 0 <= i < j < |path| ==> path[i] != path[j]
  }

  lemma {:induction false} ChainLinked(data: map<Serial, IxfrData>, path: seq<Serial>)
    requires Chain(data, path)
    ensures Linked(data, path)
    decreases |path|
  {
    if path != [] {
      var rest := data - {path[0]};
      ChainLinked(rest, path[1..]);
      assert Elements(path) == {path[0]} + Elements(path[1..]);
      assert data.Keys == rest.Keys + {path[0]};
      forall i | 0 <= i < |path|
        ensures path[i] in data && data[path[i]].oldserial == path[i]
      {
        if i > 0 {
          assert path[i] == path[1..][i - 1];
        }
      }
      forall i, j | 0 <= i < j < |path|
        ensures path[i] != path[j] && (j == i + 1 ==> data[path[i]].newserial == path[j])
      {
        assert path[j] == path[1..][j - 1];
        if i > 0 {
          assert path[i] == path[1..][i - 1];
        }
      }
    }
  }

  ghost function ChainBytes(data: map<Serial, IxfrData>, path: seq<Serial>, overhead: nat): nat
    requires Chain(data, path)
    decreases |path|
  {
    if path == [] then 0
    else overhead + Bytes(data[path[0]]) + ChainBytes(data - {path[0]}, path[1..], overhead)
  }

  lemma {:induction false} ChainSnoc(data: map<Serial, IxfrData>, path: seq<Serial>, d: IxfrData, overhead: nat)
    requires Chain(data, path) && d.oldserial !in data
    requires path != [] ==> path[|path| - 1] in data && d.oldserial == data[path[|path| - 1]].newserial
    ensures Chain(data[d.oldserial := d], path + [d.oldserial])
    ensures ChainBytes(data[d.oldserial := d], path + [d.oldserial], overhead) ==
            ChainBytes(data, path, overhead) + overhead + Bytes(d)
    decreases |path|
  {
    var more, longer := data[d.oldserial := d], path + [d.oldserial];
    if path == [] {
      assert longer[1..] == [];
      assert more - {d.oldserial} == map[];
    } else {
      var rest := data - {path[0]};
      ChainLast(data, path);
      ChainSnoc(rest, path[1..], d, overhead);
      assert longer[1..] == path[1..] + [d.oldserial];
      assert more - {path[0]} == rest[d.oldserial := d];
    }
  }

  lemma ChainCons(data: map<Serial, IxfrData>, path: seq<Serial>, d: IxfrData, overhead: nat)
    requires Chain(data, path) && d.oldserial !in data
    requires path != [] ==> d.newserial == path[0]
    ensures Chain(data[d.oldserial := d], [d.oldserial] + path)
    ensures ChainBytes(data[d.oldserial := d], [d.oldserial] + path, overhead) ==
            ChainBytes(data, path, overhead) + overhead + Bytes(d)
  {
    assert ([d.oldserial] + path)[1..] == path;
    assert data[d.oldserial := d] - {d.oldserial} == data;
    ChainLinked(data, path);
    assert d.oldserial !in Elements(path);
  }

  lemma {:induction false} ChainCount(data: map<Serial, IxfrData>, path: seq<Serial>)
    requires Chain(data, path)
    ensures |data| == |path|
    decreases |path|
  {
    if path != [] {
      ChainCount(data - {path[0]}, path[1..]);
      assert data.Keys == (data - {path[0]}).Keys + {path[0]};
    }
  }

  /** The entries from the oldest to the newest. */
  ghost function Collect(data: map<Serial, IxfrData>, path: seq<Serial>): seq<IxfrData>
    requires Chain(data, path)
    decreases |path|
  {
    if path == [] then [] else [data[path[0]]] + Collect(data - {path[0]}, path[1..])
  }

  lemma {:induction false} CollectAt(data: map<Serial, IxfrData>, path: seq<Serial>)
    requires Chain(data, path)
    ensures |Collect(data, path)| == |path|
    ensures forall i :: 0 <= i < |path| ==> path[i] in data && Collect(data, path)[i] == data[path[i]]
    decreases |path|
  {
    ChainLinked(data, path);
    if path != [] {
      CollectAt(data - {path[0]}, path[1..]);
      forall i | 0 <= i < |path|
        ensures Collect(data, path)[i] == data[path[i]]
      {
        if i > 0 {
          assert path[1..][i - 1] == path[i];
        }
      }
    }
  }

  lemma {:induction false} CollectSnoc(data: map<Serial, IxfrData>, path: seq<Serial>, d: IxfrData)
    requires Chain(data, path) && d.oldserial !in data
    requires Chain(data[d.oldserial := d], path + [d.oldserial])
    ensures Collect(data[d.oldserial := d], path + [d.oldserial]) == Collect(data, path) + [d]
  {
    var more, longer := data[d.oldserial := d], path + [d.oldserial];
    CollectAt(data, path);
    CollectAt(more, longer);
    ChainLinked(data, path);
    forall i | 0 <= i < |path|
      ensures Collect(more, longer)[i] == Collect(data, path)[i]
    {
      assert longer[i] == path[i];
    }
  }

  lemma CollectTail(data: map<Serial, IxfrData>, path: seq<Serial>)
    requires Chain(data, path) && path != []
    ensures Chain(data - {path[0]}, path[1..]) && Collect(data, path)[1..] == Collect(data - {path[0]}, path[1..])
  {
  }

  /** Only the last entry of a chain of one is both first and last. */
  lemma ChainLast(data: map<Serial, IxfrData>, path: seq<Serial>)
    requires Chain(data, path) && path != []
    ensures |path| > 1 ==> path[|path| - 1] != path[0] && path[1..][|path| - 2] == path[|path| - 1]
  {
    ChainLinked(data, path);
  }

  /** The chain without its oldest `r` entries. */
  ghost function DropData(data: map<Serial, IxfrData>, path: seq<Serial>, r: nat): map<Serial, IxfrData>
    requires r <= |path|
  {
    if r == 0 then data else DropData(data - {path[0]}, path[1..], r - 1)
  }

  lemma {:induction false} DropOneMore(data: map<Serial, IxfrData>, path: seq<Serial>, r: nat)
    requires Chain(data, path) && r <= |path|
    ensures Chain(DropData(data, path, r), path[r..])
    ensures r < |path| ==> DropData(data, path, r + 1) == DropData(data, path, r) - {path[r]}
    ensures r < |path| ==> path[r..][0] == path[r] && path[r..][1..] == path[r + 1..]
  {
    if r > 0 {
      DropOneMore(data - {path[0]}, path[1..], r - 1);
      assert path[1..][r - 1..] == path[r..];
    } else {
      assert path[0..] == path;
    }
  }

  /** The entry that starts where `cur` ends, unless `cur` is the newest. */
  ghost function NextIn(data: map<Serial, IxfrData>, newestSerial: Serial, cur: IxfrData): Option<IxfrData> {
    if cur.oldserial == newestSerial || cur.newserial !in data then None else Some(data[cur.newserial])
  }

  /** `ixfr_data_next`: tries the next tree entry, then searches. */
  method NextData(data: map<Serial, IxfrData>, newestSerial: Serial, cur: IxfrData) returns (n: Option<IxfrData>)
    ensures n == NextIn(data, newestSerial, cur)
  {
    if cur.oldserial == newestSerial {
      return None;
    }
    var next := RbTree.Next(data.Keys, cur.oldserial);
    if next.Some? && cur.newserial == next.value {
      return Some(data[next.value]);
    }
    if cur.newserial in data {
      return Some(data[cur.newserial]);
    }
    return None;
  }

  /** The configured limits; a size of 0 means no limit. */
  datatype Limits = Limits(number: nat, size: nat)

  /** The newest entry leads to the entry at `i` too, and lies nearer before it
      in the tree than the entry that precedes it in the chain. */
  ghost predicate Hides(data: map<Serial, IxfrData>, path: seq<Serial>, i: nat)
    requires 0 < i < |path|
  {
    var newest := path[|path| - 1];
    newest in data && data[newest].newserial == path[i] && Back(path[i], newest) < Back(path[i], path[i - 1])
  }

  class ZoneIxfr {
    const overhead: nat
    var data: map<Serial, IxfrData>
    var totalSize: nat
    var oldestSerial: Serial
    var newestSerial: Serial
    /** The start serials from the oldest to the newest entry. */
    ghost var path: seq<Serial>

    ghost predicate Valid()
      reads this
    {
      && Chain(data, path)
      && (path != [] ==> oldestSerial == path[0] && newestSerial == path[|path| - 1])
      && totalSize == ChainBytes(data, path, overhead)
    }

    /** The serial the chain leads to. */
    ghost function EndSerial(): Serial
      requires Valid() && path != []
      reads this
    {
      ChainLinked(data, path);
      data[path[|path| - 1]].newserial
    }

    ghost function Entries(): seq<IxfrData>
      requires Valid()
      reads this
    {
      Collect(data, path)
    }

    constructor (overhead: nat)
      ensures Valid() && path == [] && this.overhead == overhead
    {
      this.overhead := overhead;
      data, totalSize, oldestSerial, newestSerial, path := map[], 0, 0, 0, [];
    }

    // ----- the iterator

    /** `ixfr_data_next`. */
    method Next(cur: IxfrData) returns (n: Option<IxfrData>)
      ensures n == NextOf(cur)
    {
      n := NextData(data, newestSerial, cur);
    }

    ghost function NextOf(cur: IxfrData): Option<IxfrData>
      reads this
    {
      NextIn(data, newestSerial, cur)
    }

    /** Along the chain the next entry is the next entry, wherever serials wrap. */
    lemma NextIsNext(i: nat)
      requires Valid() && i < |path|
      ensures path[i] in data && (i + 1 < |path| ==> path[i + 1] in data)
      ensures i + 1 < |path| ==> data[path[i]].newserial == path[i + 1] == data[path[i + 1]].oldserial
      ensures NextOf(data[path[i]]) == if i + 1 < |path| then Some(data[path[i + 1]]) else None
    {
      ChainLinked(data, path);
    }

    /** `k` starts the entry nearest before `cur` in the tree, going round, of
        those that lead to `cur`. */
    ghost predicate NearestBack(cur: IxfrData, k: Serial)
      reads this
    {
      && k in data && data[k].newserial == cur.oldserial
      && forall s :: s in data && data[s].newserial == cur.oldserial ==> Back(cur.oldserial, k) <= Back(cur.oldserial, s)
    }

    /** The loop of `ixfr_data_prev`: down from the entry, and round from the
        largest serial, to the first one that leads to it. */
    method SearchBack(cur: IxfrData, ghost target: Serial) returns (prev: Serial)
      requires target in data && data[target].newserial == cur.oldserial
      ensures NearestBack(cur, prev)
    {
      prev := BackOne(cur.oldserial);
      while data[prev].newserial != cur.oldserial
        invariant prev in data && Back(cur.oldserial, prev) <= Back(cur.oldserial, target)
        invariant forall s :: s in data && Back(cur.oldserial, s) < Back(cur.oldserial, prev) ==> data[s].newserial != cur.oldserial
        decreases Back(cur.oldserial, target) - Back(cur.oldserial, prev)
      {
        ghost var before := prev;
        prev := BackOne(prev);
        BackOrder(cur.oldserial, before, prev, target);
      }
    }

    /** `ixfr_data_prev`, for an entry of the chain. */
    method Prev(cur: IxfrData, prevcount: nat, ghost i: nat) returns (p: Option<IxfrData>, count: nat)
      requires Valid() && i < |path| && path[i] in data && cur == data[path[i]]
      ensures i == 0 ==> p == None && count == prevcount
      ensures i > 0 ==> count == prevcount + 1
      ensures i > 0 && prevcount >= |data| + 12 ==> p == None
      ensures i > 0 && prevcount < |data| + 12 ==> p.Some? && p.value in data.Values && NearestBack(cur, p.value.oldserial)
    {
      count := prevcount;
      ChainLinked(data, path);
      if cur.oldserial == oldestSerial {
        return None, count;
      }
      var prev := SearchBack(cur, path[i - 1]);
      count := count + 1;
      if count > |data| + 12 {
        return None, count;
      }
      return Some(data[prev]), count;
    }

    /** One step back in the tree, from the first entry round to the last. */
    method BackOne(k: Serial) returns (p: Serial)
      requires data != map[]
      ensures p in data
      ensures forall s :: s in data ==> Back(k, p) <= Back(k, s)
    {
      var r := RbTree.Previous(data.Keys, k);
      if r.None? {
        r := RbTree.Last(data.Keys);
      }
      p := r.value;
    }

    lemma BackOrder(c: Serial, before: Serial, p: Serial, target: Serial)
      requires forall s :: s in data ==> Back(before, p) <= Back(before, s)
      requires p in data && target in data && before in data
      requires Back(c, before) < Back(c, target)
      ensures Back(c, before) < Back(c, p) <= Back(c, target)
      ensures forall s :: s in data && Back(c, s) < Back(c, p) ==> Back(c, s) <= Back(c, before)
    {
    }

    /** The newest entry also leads to the entry at `i`, and is met first. */
    ghost predicate Shadowed(i: nat)
      requires Valid() && 0 < i < |path|
      reads this
    {
      Hides(data, path, i)
    }

    /** Going back undoes going forward, except exactly where the newest entry
        leads back into the chain and hides the previous entry; the newest
        entry is what is found then. */
    lemma PrevIsPrevious(i: nat, k: Serial)
      requires Valid() && 0 < i < |path| && path[i] in data && NearestBack(data[path[i]], k)
      ensures k == path[i - 1] <==> !Shadowed(i)
      ensures Shadowed(i) ==> k == newestSerial
    {
      ChainLinked(data, path);
      assert data[path[i - 1]].newserial == path[i];
      assert path[i - 1] in data;
      var j :| 0 <= j < |path| && path[j] == k;
      if j == |path| - 1 {
        assert k == newestSerial && EndSerial() == path[i];
      } else {
        assert data[k].newserial == path[j + 1];
        assert j == i - 1;
      }
      if Shadowed(i) {
        assert newestSerial in data && data[newestSerial].newserial == path[i];
      }
    }

    /** One step of a walk back along the chain. */
    method StepBack(cur: IxfrData, prevcount: nat, ghost i: nat) returns (p: Option<IxfrData>, count: nat)
      requires Valid() && i < |Entries()| && cur == Entries()[i] && |Entries()| == |path|
      requires prevcount < |data| + 12
      ensures count <= prevcount + 1
      ensures p == if i == 0 then None else if Shadowed(i) then Some(Entries()[|path| - 1]) else Some(Entries()[i - 1])
    {
      CollectAt(data, path);
      p, count := Prev(cur, prevcount, i);
      if i > 0 {
        ChainLinked(data, path);
        PrevIsPrevious(i, p.value.oldserial);
      }
    }

    /** With an end serial that starts no entry, nothing is hidden. */
    lemma FreshEndNeverShadows(i: nat)
      requires Valid() && 0 < i < |path| && EndSerial() !in data
      ensures !Shadowed(i)
    {
      ChainLinked(data, path);
      assert path[i] in data;
    }

    // ----- adding and removing

    /** `zone_ixfr_remove`. */
    method Remove(s: Serial)
      requires s in data && overhead + Bytes(data[s]) <= totalSize
      modifies this`data, this`totalSize
      ensures data == old(data) - {s} && totalSize == old(totalSize) - overhead - Bytes(old(data)[s])
    {
      totalSize := totalSize - overhead - Bytes(data[s]);
      data := data - {s};
    }

    /** `zone_ixfr_clear`. */
    method Clear()
      modifies this
      ensures Valid() && path == [] && data == map[]
    {
      data, totalSize, oldestSerial, newestSerial, path := map[], 0, 0, 0, [];
    }

    /** `zone_ixfr_remove_oldest`. */
    method RemoveOldest()
      requires Valid()
      modifies this
      ensures Valid()
      ensures old(path) == [] ==> path == [] && data == old(data)
      ensures old(path) != [] ==> path == old(path)[1..] && data == old(data) - {old(path)[0]}
    {
      ChainCount(data, path);
      if |data| > 0 {
        ChainLast(data, path);
        var oldest := data[oldestSerial];
        if |data| > 1 {
          NextIsNext(0);
          var next := Next(oldest);
          oldestSerial := next.value.oldserial;
        } else {
          oldestSerial := 0;
        }
        if newestSerial == oldest.oldserial {
          newestSerial := 0;
        }
        Remove(oldest.oldserial);
        path := path[1..];
      }
    }

    /** `zone_ixfr_add`: a newer entry continues the chain, an older one
        leads into it. */
    method Add(d: IxfrData, isnew: bool)
      requires Valid() && d.oldserial !in data
      requires path != [] && isnew ==> d.oldserial == EndSerial()
      requires path != [] && !isnew ==> d.newserial == oldestSerial
      modifies this
      ensures Valid() && data == old(data)[d.oldserial := d]
      ensures totalSize == old(totalSize) + overhead + Bytes(d)
      ensures path == if isnew then old(path) + [d.oldserial] else [d.oldserial] + old(path)
    {
      ChainCount(data, path);
      ChainLinked(data, path);
      if isnew {
        ChainSnoc(data, path, d, overhead);
      } else {
        ChainCons(data, path, d, overhead);
      }
      if |data| == 0 {
        oldestSerial, newestSerial := d.oldserial, d.oldserial;
      } else if isnew {
        newestSerial := d.oldserial;
      } else {
        oldestSerial := d.oldserial;
      }
      data := data[d.oldserial := d];
      totalSize := totalSize + overhead + Bytes(d);
      path := if isnew then path + [d.oldserial] else [d.oldserial] + path;
    }

    /** The oldest `r` entries are gone. */
    ghost predicate Shortened(data0: map<Serial, IxfrData>, path0: seq<Serial>, r: nat)
      reads this
    {
      r <= |path0| && path == path0[r..] && data == DropData(data0, path0, r)
    }

    /** The first loop of `zone_ixfr_make_space`. */
    method MakeSpaceByNumber(number: nat) returns (ghost r: nat)
      requires Valid() && number > 0
      modifies this
      ensures Valid() && Shortened(old(data), old(path), r)
      ensures r == if |old(path)| >= number then |old(path)| - number + 1 else 0
    {
      r := 0;
      ChainCount(data, path);
      while |data| >= number
        invariant Valid() && Shortened(old(data), old(path), r) && |data| == |path|
        invariant r > 0 ==> |old(path)| - r + 1 >= number
        decreases |path|
      {
        DropOneMore(old(data), old(path), r);
        RemoveOldest();
        ChainCount(data, path);
        r := r + 1;
      }
    }

    /** The entries after the oldest `r`, with `d`, exceed `size`. */
    static ghost predicate TooBig(data: map<Serial, IxfrData>, path: seq<Serial>, r: nat,
                                  overhead: nat, d: IxfrData, size: nat)
      requires Chain(data, path) && r <= |path|
    {
      DropOneMore(data, path, r);
      ChainBytes(DropData(data, path, r), path[r..], overhead) + overhead + Bytes(d) > size
    }

    /** The second loop of `zone_ixfr_make_space`, and its check. */
    method MakeSpaceBySize(d: IxfrData, size: nat) returns (cancelled: bool, ghost r: nat)
      requires Valid()
      modifies this
      ensures Valid() && Shortened(old(data), old(path), r)
      ensures cancelled <==> overhead + Bytes(d) > size
      ensures cancelled ==> path == []
      ensures !cancelled ==> totalSize + overhead + Bytes(d) <= size
      ensures r > 0 ==> TooBig(old(data), old(path), r - 1, overhead, d, size)
    {
      r := 0;
      ChainCount(data, path);
      while |data| > 0 && totalSize + overhead + Bytes(d) > size
        invariant Valid() && Shortened(old(data), old(path), r) && |data| == |path|
        invariant r > 0 ==> TooBig(old(data), old(path), r - 1, overhead, d, size)
        decreases |path|
      {
        DropOneMore(old(data), old(path), r);
        RemoveOldest();
        ChainCount(data, path);
        r := r + 1;
      }
      cancelled := |data| == 0 && totalSize + overhead + Bytes(d) > size;
    }

    static lemma {:induction false} DropTwice(data: map<Serial, IxfrData>, path: seq<Serial>, a: nat, b: nat)
      requires a + b <= |path|
      ensures DropData(DropData(data, path, a), path[a..], b) == DropData(data, path, a + b)
      ensures path[a..][b..] == path[a + b..]
    {
      if a == 0 {
        assert path[0..] == path;
      } else {
        DropTwice(data - {path[0]}, path[1..], a - 1, b);
        assert path[1..][a - 1..] == path[a..];
      }
    }

    /** Dropping in two rounds is dropping once. */
    static lemma TwoRounds(data0: map<Serial, IxfrData>, path0: seq<Serial>, r1: nat,
                           data1: map<Serial, IxfrData>, path1: seq<Serial>, q: nat,
                           overhead: nat, d: IxfrData, size: nat)
      requires Chain(data0, path0) && Chain(data1, path1) && r1 <= |path0| && q <= |path1|
      requires path1 == path0[r1..] && data1 == DropData(data0, path0, r1)
      ensures path1[q..] == path0[r1 + q..] && DropData(data1, path1, q) == DropData(data0, path0, r1 + q)
      ensures q > 0 && TooBig(data1, path1, q - 1, overhead, d, size) ==> TooBig(data0, path0, r1 + q - 1, overhead, d, size)
    {
      DropTwice(data0, path0, r1, q);
      if q > 0 {
        DropTwice(data0, path0, r1, q - 1);
      }
    }

    /** One entry fewer removed, and a limit is exceeded. */
    static ghost predicate Needed(data: map<Serial, IxfrData>, path: seq<Serial>, r: nat,
                                  overhead: nat, d: IxfrData, limits: Limits)
      requires Chain(data, path) && r <= |path|
    {
      || r == 0
      || |path| - (r - 1) >= limits.number
      || (limits.size != 0 && TooBig(data, path, r - 1, overhead, d, limits.size))
    }

    /** `zone_ixfr_make_space`: removes the oldest entries, no more of them
        than the limits ask for, or gives up on `d`. */
    method MakeSpace(d: IxfrData, limits: Limits) returns (cancelled: bool, ghost r: nat)
      requires Valid()
      modifies this
      ensures Valid() && Shortened(old(data), old(path), r)
      ensures limits.number == 0 ==> cancelled && r == 0
      ensures limits.number > 0 ==> (cancelled <==> limits.size != 0 && overhead + Bytes(d) > limits.size)
      ensures limits.number > 0 && cancelled ==> path == []
      ensures !cancelled ==> |path| < limits.number && (limits.size != 0 ==> totalSize + overhead + Bytes(d) <= limits.size)
      ensures Needed(old(data), old(path), r, overhead, d, limits)
    {
      r := 0;
      cancelled := false;
      if limits.number == 0 {
        return true, 0;
      }
      r := MakeSpaceByNumber(limits.number);
      if limits.size != 0 {
        cancelled, r := MakeSpaceMore(d, limits, old(data), old(path), r);
      }
    }

    /** The size limit, after the number limit. */
    method MakeSpaceMore(d: IxfrData, limits: Limits, ghost data0: map<Serial, IxfrData>, ghost path0: seq<Serial>,
                         ghost r1: nat) returns (cancelled: bool, ghost r: nat)
      requires Valid() && limits.size != 0 && |path| < limits.number
      requires Chain(data0, path0) && Shortened(data0, path0, r1) && Needed(data0, path0, r1, overhead, d, limits)
      modifies this
      ensures Valid() && Shortened(data0, path0, r) && Needed(data0, path0, r, overhead, d, limits)
      ensures cancelled <==> overhead + Bytes(d) > limits.size
      ensures cancelled ==> path == []
      ensures !cancelled ==> |path| < limits.number && totalSize + overhead + Bytes(d) <= limits.size
    {
      ghost var data1, path1 := data, path;
      cancelled, r := MakeSpaceBySize(d, limits.size);
      TwoRounds(data0, path0, r1, data1, path1, r, overhead, d, limits.size);
      r := r1 + r;
    }

    /** `ixfr_store_finish`: afterwards the new entry is the newest and the
        limits hold, or it is given up. */
    method StoreFinish(d: IxfrData, limits: Limits) returns (stored: bool, ghost r: nat)
      requires Valid() && d.oldserial !in data
      requires path != [] ==> d.oldserial == EndSerial()
      modifies this
      ensures Valid() && r <= |old(path)|
      ensures stored ==> path == old(path)[r..] + [d.oldserial]
      ensures stored ==> |path| <= limits.number && (limits.size != 0 ==> totalSize <= limits.size)
      ensures !stored ==> path == (if limits.number == 0 then old(path) else []) && d.oldserial !in data
      ensures !stored && limits.number == 0 ==> data == old(data)
      ensures Needed(old(data), old(path), r, overhead, d, limits)
      ensures stored <==> limits.number > 0 && (limits.size != 0 ==> overhead + Bytes(d) <= limits.size)
      ensures data == if stored then DropData(old(data), old(path), r)[d.oldserial := d] else DropData(old(data), old(path), r)
    {
      var cancelled;
      cancelled, r := MakeSpace(d, limits);
      DropKeeps(old(data), old(path), r);
      stored := !cancelled;
      if stored {
        Add(d, true);
      }
    }

    static lemma {:induction false} DropKeeps(data: map<Serial, IxfrData>, path: seq<Serial>, r: nat)
      requires Chain(data, path) && r <= |path|
      ensures forall s :: s in DropData(data, path, r) ==> s in data && DropData(data, path, r)[s] == data[s]
      ensures path != [] && r < |path| ==> path[r..][|path| - r - 1] == path[|path| - 1]
      ensures path != [] && r < |path| ==> path[|path| - 1] in DropData(data, path, r)
    {
      if r > 0 {
        DropKeeps(data - {path[0]}, path[1..], r - 1);
      } else {
        ChainLinked(data, path);
      }
    }

    // ----- connecting

    /** `connect_ixfrs`: from any entry the chain leads to its end. */
    method Connect(d: IxfrData, ghost i: nat) returns (connected: bool, endSerial: Serial)
      requires Valid() && i < |path| && path[i] in data && d == data[path[i]]
      ensures connected && endSerial == EndSerial()
    {
      endSerial := 0;
      var p := Some(d);
      ghost var k := i;
      while p.Some?
        invariant k <= |path|
        invariant k < |path| ==> path[k] in data
        invariant p == if k < |path| then Some(data[path[k]]) else None
        invariant k == |path| ==> endSerial == EndSerial()
        decreases |path| - k
      {
        NextIsNext(k);
        var next := Next(p.value);
        if next.Some? {
          if p.value.newserial != next.value.oldserial {
            return false, endSerial;
          }
        } else {
          endSerial := p.value.newserial;
        }
        p := next;
        k := k + 1;
      }
      connected := true;
    }
  }

  /** The entries after storing: the oldest ones may be gone. */
  lemma EntriesAfter(data: map<Serial, IxfrData>, path: seq<Serial>, r: nat, d: IxfrData,
                     data': map<Serial, IxfrData>, path': seq<Serial>)
    requires Chain(data, path) && Chain(data', path') && r <= |path| == |Collect(data, path)|
    requires path' == path[r..] + [d.oldserial] && d.oldserial !in data
    requires data' == DropData(data, path, r)[d.oldserial := d]
    ensures Collect(data', path') == Collect(data, path)[r..] + [d]
  {
    CollectAt(data, path);
    CollectAt(data', path');
    ZoneIxfr.DropKeeps(data, path, r);
    var a, b := Collect(data', path'), Collect(data, path)[r..] + [d];
    forall i | 0 <= i < |path'|
      ensures a[i] == b[i]
    {
      if i < |path| - r {
        assert path'[i] == path[r + i];
        assert path[r + i] in data;
      }
    }
  }

  /** Every update moves the serial forward. */
  ghost predicate AllForward(data: map<Serial, IxfrData>) {
    forall s :: s in data ==> CompareSerial(s, data[s].newserial) < 0
  }

  /** One more update of a history. */
  method Advance(x: ZoneIxfr, from: Serial, to: Serial)
    requires x.Valid() && from !in x.data && AllForward(x.data) && CompareSerial(from, to) < 0
    requires x.path != [] ==> from == x.EndSerial()
    modifies x
    ensures x.Valid() && x.path == old(x.path) + [from] && x.data.Keys == old(x.data.Keys) + {from}
    ensures x.EndSerial() == to && AllForward(x.data)
  {
    x.Add(IxfrData(from, to, [], [], [], []), true);
  }

  /** A history in which every update moves forward, once round all serials:
      5 to 7, on in steps of a quarter of the circle to 6, and 6 to 7. */
  method RoundTheCircle() returns (x: ZoneIxfr)
    ensures fresh(x) && x.Valid() && AllForward(x.data)
    ensures x.path == [5, 7, 0x4000_0007, 0x8000_0007, 0xC000_0007, 6] && x.EndSerial() == 7
  {
    x := new ZoneIxfr(0);
    var steps: seq<Serial> := [5, 7, 0x4000_0007, 0x8000_0007, 0xC000_0007, 6, 7];
    var i := 0;
    while i < 6
      invariant 0 <= i <= 6 && fresh(x) && x.Valid() && AllForward(x.data)
      invariant x.path == steps[..i] && (i > 0 ==> x.EndSerial() == steps[i])
      invariant forall s :: s in x.data ==> s in steps[..i]
    {
      Advance(x, steps[i], steps[i + 1]);
      i := i + 1;
    }
  }

  /** Going back from the entry at 7 then gives the entry at 6, not the one at 5. */
  method PrevCanMiss() returns (x: ZoneIxfr, p: Option<IxfrData>)
    ensures x.Valid() && AllForward(x.data) && |x.path| > 1 && x.path[0] == 5 && x.path[1] == 7
    ensures p.Some? && p.value.oldserial == 6
  {
    x := RoundTheCircle();
    CollectAt(x.data, x.path);
    ChainLinked(x.data, x.path);
    var count;
    p, count := x.StepBack(x.data[7], 0, 1);
    assert Back(7, 6) == 1;
  }
}
