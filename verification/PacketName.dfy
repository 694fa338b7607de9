/** Reading a possibly compressed domain name from a packet:
    `dname_make_wire_from_packet` against what the bytes say. */
module PacketName {
  import opened Names
  import opened Wire
  import opened Sequences

  const MAX_PACKET_SIZE := 65535

  /** No bytes are out of bounds for the reading. */
  const NONE := -2

  // ----- what the bytes say (section 4.1.4 of RFC 1035)

  datatype Item = Bad | Root | Text(to: nat) | Jump(to: nat)

  function ItemAt(pkt: Bytes, p: nat, pointers: bool): (item: Item)
    ensures item.Root? ==> p < |pkt| && pkt[p] == 0
    ensures item.Text? ==> p < item.to <= |pkt| && item.to == p + 1 + pkt[p] as int
    ensures item.Jump? ==> item.to < |pkt| && p + 2 <= |pkt| && pointers
  {
    if p >= |pkt| then Bad
    else if pkt[p] >= 192 then
      if !pointers || p + 2 > |pkt| then Bad
      else
        var to := (pkt[p] as int - 192) * 256 + pkt[p + 1] as int;
        if to >= |pkt| then Bad else Jump(to)
    else if pkt[p] >= 64 || p + 1 + pkt[p] as int > |pkt| then Bad
    else if pkt[p] == 0 then Root
    else Text(p + 1 + pkt[p] as int)
  }

  /** The bytes from `p` to `to` do not touch the two at `hole`. */
  predicate Clear(p: nat, to: nat, hole: int) {
    to <= hole || hole + 2 <= p
  }

  function Prepend(a: Bytes, f: Option<Bytes>): Option<Bytes> {
    if f.None? then None else Some(a + f.value)
  }

  /** The name, in uncompressed form, that `k` labels and pointers reach. */
  ghost function Follow(pkt: Bytes, p: nat, pointers: bool, hole: int, k: nat): Option<Bytes>
    decreases k
  {
    if k == 0 then None
    else
      match ItemAt(pkt, p, pointers)
      case Bad => None
      case Root => if Clear(p, p + 1, hole) then Some([0]) else None
      case Text(to) =>
        if Clear(p, to, hole) then Prepend(pkt[p..to], Follow(pkt, to, pointers, hole, k - 1)) else None
      case Jump(to) =>
        if Clear(p, p + 2, hole) then Follow(pkt, to, pointers, hole, k - 1) else None
  }

  /** The bytes at `p` spell the name `w`. */
  ghost predicate Spells(pkt: Bytes, p: nat, pointers: bool, hole: int, w: Bytes) {
    exists k: nat :: Follow(pkt, p, pointers, hole, k) == Some(w)
  }

  /** Where the name at `p` ends in the packet: after its first pointer, or
      after its root label. */
  function After(pkt: Bytes, p: nat): (r: Option<nat>)
    ensures r.Some? ==> p < r.value <= |pkt|
    decreases |pkt| - p
  {
    match ItemAt(pkt, p, true)
    case Bad => None
    case Root => Some(p + 1)
    case Text(to) => After(pkt, to)
    case Jump(_) => Some(p + 2)
  }

  lemma {:induction false} FollowMore(pkt: Bytes, p: nat, pointers: bool, hole: int, k: nat, l: nat)
    requires Follow(pkt, p, pointers, hole, k).Some? && k <= l
    ensures Follow(pkt, p, pointers, hole, l) == Follow(pkt, p, pointers, hole, k)
    decreases k
  {
    match ItemAt(pkt, p, pointers)
    case Bad =>
    case Root =>
    case Text(to) => FollowMore(pkt, to, pointers, hole, k - 1, l - 1);
    case Jump(to) => FollowMore(pkt, to, pointers, hole, k - 1, l - 1);
  }

  /** The bytes spell at most one name. */
  lemma SpellsOne(pkt: Bytes, p: nat, pointers: bool, hole: int, v: Bytes, w: Bytes)
    requires Spells(pkt, p, pointers, hole, v) && Spells(pkt, p, pointers, hole, w)
    ensures v == w
  {
    var k: nat :| Follow(pkt, p, pointers, hole, k) == Some(v);
    var l: nat :| Follow(pkt, p, pointers, hole, l) == Some(w);
    if k <= l {
      FollowMore(pkt, p, pointers, hole, k, l);
    } else {
      FollowMore(pkt, p, pointers, hole, l, k);
    }
  }

  // ----- walking

  /** The position after `m` labels and pointers. */
  ghost function Steps(pkt: Bytes, p: nat, pointers: bool, m: nat): Option<nat>
    decreases m
  {
    if m == 0 then Some(p)
    else
      match ItemAt(pkt, p, pointers)
      case Bad => None
      case Root => None
      case Text(to) => Steps(pkt, to, pointers, m - 1)
      case Jump(to) => Steps(pkt, to, pointers, m - 1)
  }

  /** The labels met on the way. */
  ghost function Collected(pkt: Bytes, p: nat, pointers: bool, m: nat): Bytes
    decreases m
  {
    if m == 0 then []
    else
      match ItemAt(pkt, p, pointers)
      case Bad => []
      case Root => []
      case Text(to) => pkt[p..to] + Collected(pkt, to, pointers, m - 1)
      case Jump(to) => Collected(pkt, to, pointers, m - 1)
  }

  /** One more step from where `m` steps lead. */
  ghost function Taken(pkt: Bytes, q: nat, item: Item): Bytes
    requires item.Text? ==> q <= item.to <= |pkt|
  {
    if item.Text? then pkt[q..item.to] else []
  }

  lemma {:induction false} StepOn(pkt: Bytes, p: nat, pointers: bool, m: nat, q: nat)
    requires Steps(pkt, p, pointers, m) == Some(q)
    requires ItemAt(pkt, q, pointers).Text? || ItemAt(pkt, q, pointers).Jump?
    ensures Steps(pkt, p, pointers, m + 1) == Some(ItemAt(pkt, q, pointers).to)
    ensures Collected(pkt, p, pointers, m + 1)
         == Collected(pkt, p, pointers, m) + Taken(pkt, q, ItemAt(pkt, q, pointers))
    decreases m
  {
    if m == 0 {
      var item := ItemAt(pkt, q, pointers);
      assert Steps(pkt, item.to, pointers, 0) == Some(item.to);
      assert Collected(pkt, item.to, pointers, 0) == [];
      assert Taken(pkt, q, item) + [] == Taken(pkt, q, item) == [] + Taken(pkt, q, item);
    } else {
      var item := ItemAt(pkt, p, pointers);
      StepOn(pkt, item.to, pointers, m - 1, q);
      if item.Text? {
        assert pkt[p..item.to] + (Collected(pkt, item.to, pointers, m - 1) + Taken(pkt, q, ItemAt(pkt, q, pointers)))
            == pkt[p..item.to] + Collected(pkt, item.to, pointers, m - 1) + Taken(pkt, q, ItemAt(pkt, q, pointers));
      }
    }
  }

  lemma {:induction false} FollowSteps(pkt: Bytes, p: nat, pointers: bool, m: nat, q: nat, k: nat)
    requires Steps(pkt, p, pointers, m) == Some(q)
    ensures Follow(pkt, p, pointers, NONE, m + k)
         == Prepend(Collected(pkt, p, pointers, m), Follow(pkt, q, pointers, NONE, k))
    decreases m
  {
    var f := Follow(pkt, q, pointers, NONE, k);
    if m == 0 {
      assert f.Some? ==> [] + f.value == f.value;
    } else {
      var item := ItemAt(pkt, p, pointers);
      FollowSteps(pkt, item.to, pointers, m - 1, q, k);
      if item.Text? && f.Some? {
        assert pkt[p..item.to] + (Collected(pkt, item.to, pointers, m - 1) + f.value)
            == pkt[p..item.to] + Collected(pkt, item.to, pointers, m - 1) + f.value;
      }
    }
  }

  /** Nothing is spelled by bytes whose reading comes back to its start. */
  lemma {:induction false} LoopSpellsNothing(pkt: Bytes, p: nat, pointers: bool, m: nat, k: nat)
    requires m > 0 && Steps(pkt, p, pointers, m) == Some(p)
    ensures Follow(pkt, p, pointers, NONE, k).None?
    decreases k
  {
    if k >= m {
      FollowSteps(pkt, p, pointers, m, p, k - m);
      LoopSpellsNothing(pkt, p, pointers, m, k - m);
    } else if Follow(pkt, p, pointers, NONE, k).Some? {
      FollowMore(pkt, p, pointers, NONE, k, m);
      FollowSteps(pkt, p, pointers, m, p, 0);
      assert false;
    }
  }

  /** What is spelled from `p` is what was collected and what is spelled from
      where the walk is now. */
  lemma SpellsFrom(pkt: Bytes, p: nat, pointers: bool, m: nat, q: nat, w: Bytes)
    requires Steps(pkt, p, pointers, m) == Some(q) && Spells(pkt, p, pointers, NONE, w)
    ensures exists v :: Spells(pkt, q, pointers, NONE, v) && w == Collected(pkt, p, pointers, m) + v
  {
    var k: nat :| Follow(pkt, p, pointers, NONE, k) == Some(w);
    FollowMore(pkt, p, pointers, NONE, k, m + k);
    FollowSteps(pkt, p, pointers, m, q, k);
    var v := Follow(pkt, q, pointers, NONE, k).value;
    assert Spells(pkt, q, pointers, NONE, v);
  }

  lemma SpellsAfter(pkt: Bytes, p: nat, pointers: bool, m: nat, q: nat)
    requires Steps(pkt, p, pointers, m) == Some(q) && ItemAt(pkt, q, pointers).Root?
    ensures Spells(pkt, p, pointers, NONE, Collected(pkt, p, pointers, m) + [0])
  {
    FollowSteps(pkt, p, pointers, m, q, 1);
  }

  /** A spelled name is at least its first label. */
  lemma FirstLabel(pkt: Bytes, q: nat, pointers: bool, v: Bytes)
    requires Spells(pkt, q, pointers, NONE, v)
    ensures !ItemAt(pkt, q, pointers).Bad?
    ensures ItemAt(pkt, q, pointers).Text? ==> |v| > ItemAt(pkt, q, pointers).to - q
    ensures ItemAt(pkt, q, pointers).Root? ==> v == [0]
    ensures |v| > 0
  {
    var k: nat :| Follow(pkt, q, pointers, NONE, k) == Some(v);
    SpelledNotEmpty(pkt, q, pointers, NONE, k);
    var item := ItemAt(pkt, q, pointers);
    if item.Text? {
      SpelledNotEmpty(pkt, item.to, pointers, NONE, k - 1);
    }
  }

  lemma {:induction false} SpelledNotEmpty(pkt: Bytes, p: nat, pointers: bool, hole: int, k: nat)
    requires Follow(pkt, p, pointers, hole, k).Some?
    ensures |Follow(pkt, p, pointers, hole, k).value| > 0
    decreases k
  {
    match ItemAt(pkt, p, pointers)
    case Bad =>
    case Root =>
    case Text(to) => SpelledNotEmpty(pkt, to, pointers, hole, k - 1);
    case Jump(to) => SpelledNotEmpty(pkt, to, pointers, hole, k - 1);
  }

  // ----- the decoder

  /** The walk along `path` has come to `p` with the labels `wire`. */
  ghost predicate Walked(pkt: Bytes, pos: nat, pointers: bool, path: seq<nat>, p: nat, wire: Bytes) {
    && Steps(pkt, pos, pointers, |path|) == Some(p)
    && wire == Collected(pkt, pos, pointers, |path|)
    && forall j :: 0 <= j < |path| ==> Steps(pkt, path[j], pointers, |path| - j) == Some(p)
  }

  lemma WalkOn(pkt: Bytes, pos: nat, pointers: bool, path: seq<nat>, p: nat, wire: Bytes)
    requires Walked(pkt, pos, pointers, path, p, wire)
    requires ItemAt(pkt, p, pointers).Text? || ItemAt(pkt, p, pointers).Jump?
    ensures Walked(pkt, pos, pointers, path + [p], ItemAt(pkt, p, pointers).to,
                   wire + Taken(pkt, p, ItemAt(pkt, p, pointers)))
  {
    var item := ItemAt(pkt, p, pointers);
    StepOn(pkt, pos, pointers, |path|, p);
    var path' := path + [p];
    forall j | 0 <= j < |path'|
      ensures Steps(pkt, path'[j], pointers, |path'| - j) == Some(item.to)
    {
      if j < |path| {
        assert Steps(pkt, path[j], pointers, |path| - j) == Some(p);
        StepOn(pkt, path[j], pointers, |path| - j, p);
      } else {
        StepOn(pkt, p, pointers, 0, p);
      }
    }
  }

  lemma NothingSpelled(pkt: Bytes, pos: nat, pointers: bool, path: seq<nat>, p: nat, wire: Bytes)
    requires Walked(pkt, pos, pointers, path, p, wire) && ItemAt(pkt, p, pointers).Bad?
    ensures forall w :: !Spells(pkt, pos, pointers, NONE, w)
  {
    forall w
      ensures !Spells(pkt, pos, pointers, NONE, w)
    {
      if Spells(pkt, pos, pointers, NONE, w) {
        SpellsFrom(pkt, pos, pointers, |path|, p, w);
        assert false;
      }
    }
  }

  lemma LoopFound(pkt: Bytes, pos: nat, pointers: bool, path: seq<nat>, p: nat, wire: Bytes)
    requires Walked(pkt, pos, pointers, path, p, wire) && p in path
    ensures forall w :: !Spells(pkt, pos, pointers, NONE, w)
  {
    var j :| 0 <= j < |path| && path[j] == p;
    forall w
      ensures !Spells(pkt, pos, pointers, NONE, w)
    {
      if Spells(pkt, pos, pointers, NONE, w) {
        SpellsFrom(pkt, pos, pointers, |path|, p, w);
        var v :| Spells(pkt, p, pointers, NONE, v);
        var k: nat :| Follow(pkt, p, pointers, NONE, k) == Some(v);
        LoopSpellsNothing(pkt, p, pointers, |path| - j, k);
        assert false;
      }
    }
  }

  lemma TooLong(pkt: Bytes, pos: nat, pointers: bool, path: seq<nat>, p: nat, wire: Bytes)
    requires Walked(pkt, pos, pointers, path, p, wire)
    requires ItemAt(pkt, p, pointers).Text? ==> |wire| + (ItemAt(pkt, p, pointers).to - p) > MAXDOMAINLEN
    requires ItemAt(pkt, p, pointers).Root? ==> |wire| + 1 > MAXDOMAINLEN
    requires !ItemAt(pkt, p, pointers).Jump?
    ensures forall w :: !Accepts(pkt, pos, pointers, w)
  {
    forall w
      ensures !Accepts(pkt, pos, pointers, w)
    {
      if Spells(pkt, pos, pointers, NONE, w) {
        SpellsFrom(pkt, pos, pointers, |path|, p, w);
        var v :| Spells(pkt, p, pointers, NONE, v) && w == Collected(pkt, pos, pointers, |path|) + v;
        FirstLabel(pkt, p, pointers, v);
      }
    }
  }

  lemma OnlyOne(pkt: Bytes, pos: nat, pointers: bool, wire: Bytes)
    requires Accepts(pkt, pos, pointers, wire)
    ensures forall w :: Accepts(pkt, pos, pointers, w) <==> w == wire
  {
    forall w | Accepts(pkt, pos, pointers, w)
      ensures w == wire
    {
      SpellsOne(pkt, pos, pointers, NONE, w, wire);
    }
  }

  ghost predicate Accepts(pkt: Bytes, p: nat, pointers: bool, w: Bytes) {
    Spells(pkt, p, pointers, NONE, w) && |w| <= MAXDOMAINLEN
  }

  /** The label or pointer at `p`, with the bounds the decoder checks. */
  method ReadItem(pkt: Bytes, p: nat, pointers: bool) returns (item: Item)
    requires p < |pkt|
    ensures item == ItemAt(pkt, p, pointers)
  {
    if pkt[p] >= 192 {
      if !pointers || p + 2 > |pkt| {
        return Bad;
      }
      var pointer := (pkt[p] as int - 192) * 256 + pkt[p + 1] as int;
      if pointer >= |pkt| {
        return Bad;
      }
      return Jump(pointer);
    } else if pkt[p] < 64 {
      var length := pkt[p] as int + 1;
      if p + length > |pkt| {
        return Bad;
      }
      return if pkt[p] == 0 then Root else Text(p + length);
    } else {
      return Bad;
    }
  }

  /** `dname_make_wire_from_packet`; the empty result is its failure.  It gives
      the name the bytes spell whenever they spell one of at most 255 bytes,
      and fails on everything else: truncated names, loops, bad label types,
      forbidden pointers and overlong names. */
  method MakeWireFromPacket(pkt: Bytes, pos: nat, pointers: bool) returns (wire: Bytes, next: nat)
    requires |pkt| <= MAX_PACKET_SIZE
    ensures forall w :: w != [] ==> (wire == w <==> Accepts(pkt, pos, pointers, w))
    ensures wire != [] ==> After(pkt, pos) == Some(next)
  {
    var visited := new bool[MAX_PACKET_SIZE](_ => false);
    var p: nat, mark: int := pos, -1;
    wire, next := [], pos;
    ghost var path: seq<nat> := [];
    ghost var unseen := set i | 0 <= i < |pkt| && i !in path;
    while true
      invariant Walked(pkt, pos, pointers, path, p, wire)
      invariant forall i :: 0 <= i < |pkt| ==> (visited[i] <==> i in path)
      invariant unseen == set i | 0 <= i < |pkt| && i !in path
      invariant mark == -1 || After(pkt, pos) == Some(mark)
      invariant mark == -1 ==> After(pkt, pos) == After(pkt, p)
      decreases unseen
    {
      ghost var here := p;
      if p + 1 > |pkt| {
        NothingSpelled(pkt, pos, pointers, path, p, wire);
        return [], pos;
      }
      if visited[p] {
        LoopFound(pkt, pos, pointers, path, p, wire);
        return [], pos;
      }
      visited[p] := true;
      var item := ReadItem(pkt, p, pointers);
      if item.Bad? {
        NothingSpelled(pkt, pos, pointers, path, p, wire);
        return [], pos;
      }
      if item.Jump? {
        if mark == -1 {
          mark := p + 2;
        }
        WalkOn(pkt, pos, pointers, path, p, wire);
        assert wire + [] == wire;
      } else {
        var length := pkt[p] as int + 1;
        if |wire| + length >= MAXDOMAINLEN + 1 {
          TooLong(pkt, pos, pointers, path, p, wire);
          return [], pos;
        }
        if item.Root? {
          SpellsAfter(pkt, pos, pointers, |path|, p);
          wire := wire + [0];
          p := p + 1;
          break;
        }
        WalkOn(pkt, pos, pointers, path, p, wire);
        wire := wire + pkt[p..item.to];
      }
      p := item.to;
      path := path + [here];
      unseen := unseen - {here};
    }
    next := if mark == -1 then p else mark;
    OnlyOne(pkt, pos, pointers, wire);
  }
}
