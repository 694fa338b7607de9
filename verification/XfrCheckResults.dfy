/** Which transfers are accepted: for every way to cut a reply into packets,
    the exact condition under which the check passes it. */
module XfrCheckResults {
  import opened Names
  import opened Sequences
  import opened Records
  import opened Transfer
  import opened TransferResults
  import opened XfrCheck
  import IxfrChain

  // ----- counting the SOA records of the newest serial

  predicate IsNew(r: Rr, n: nat) {
    GoodSoa(r) && Serial(r.rdata) == n
  }

  function CountNew(rs: seq<Rr>, n: nat): nat {
    if rs == [] then 0 else (if IsNew(rs[0], n) then 1 else 0) + CountNew(rs[1..], n)
  }

  /** The last record is the SOA record of the newest serial that completes
      the number needed. */
  ghost predicate Closes(rs: seq<Rr>, need: int, n: nat) {
    rs != [] && IsNew(rs[|rs| - 1], n) && CountNew(rs[..|rs| - 1], n) == need - 1
  }

  lemma {:induction false} CountConcat(a: seq<Rr>, b: seq<Rr>, n: nat)
    ensures CountNew(a + b, n) == CountNew(a, n) + CountNew(b, n)
  {
    if a == [] {
      assert a + b == b;
    } else {
      assert (a + b)[1..] == a[1..] + b;
      CountConcat(a[1..], b, n);
    }
  }

  lemma ClosesCount(rs: seq<Rr>, need: int, n: nat)
    requires Closes(rs, need, n)
    ensures CountNew(rs, n) == need
  {
    var last := rs[|rs| - 1];
    assert rs == rs[..|rs| - 1] + [last] && [last][1..] == [];
    CountConcat(rs[..|rs| - 1], [last], n);
  }

  /** Behind a part that does not complete the number, the rest has to. */
  lemma ClosesConcat(a: seq<Rr>, b: seq<Rr>, need: int, n: nat)
    requires b != []
    ensures Closes(a + b, need, n) <==> Closes(b, need - CountNew(a, n), n)
  {
    assert (a + b)[|a + b| - 1] == b[|b| - 1] && (a + b)[..|a + b| - 1] == a + b[..|b| - 1];
    CountConcat(a, b[..|b| - 1], n);
  }

  // ----- serials in the middle

  /** From position `pos` of a reply on, with `t` the last serial seen in this
      packet: the serials in the middle do not fall and do not pass `n`.  The
      record at position 1 has the serial the reply starts from. */
  ghost predicate Rising(rs: seq<Rr>, pos: nat, t: nat, n: nat)
    decreases |rs|
  {
    rs == [] ||
    if pos == 0 || !GoodSoa(rs[0]) || Serial(rs[0].rdata) == n then Rising(rs[1..], pos + 1, t, n)
    else
      && (pos == 1 || t <= Serial(rs[0].rdata) <= n)
      && Rising(rs[1..], pos + 1, Serial(rs[0].rdata), n)
  }

  /** Packet by packet. */
  ghost predicate AllRising(parts: seq<seq<Rr>>, pos: nat, n: nat)
    decreases |parts|
  {
    parts == [] || (Rising(parts[0], pos, 0, n) && AllRising(parts[1..], pos + |parts[0]|, n))
  }

  // ----- an incremental reply

  ghost predicate GoodSoas(rs: seq<Rr>) {
    forall r :: r in rs && IsSoa(r) ==> GoodSoa(r)
  }

  /** After `pos` records, `c` of them SOA records of serial `n`. */
  function Ixfr(pos: nat, c: nat, t: nat, n: nat, o: nat): Watch {
    Watch(pos, n, o, if pos < 2 then 0 else c, t, false)
  }

  /** The second record of an incremental reply is the SOA record on disk. */
  ghost predicate FromDisk(rs: seq<Rr>, pos: nat, n: nat, o: nat) {
    pos == 1 && rs != [] ==> GoodSoa(rs[0]) && Serial(rs[0].rdata) == o != n
  }

  /** One record that does not complete the transfer. */
  lemma SeeOne(r: Rr, pos: nat, c: nat, t: nat, n: nat, o: nat)
    requires pos >= 1 && 1 <= c <= 2 && (pos == 1 ==> c == 1) && (IsSoa(r) ==> GoodSoa(r)) && FromDisk([r], pos, n, o)
    requires !(IsNew(r, n) && c == 2)
    ensures var middle := GoodSoa(r) && Serial(r.rdata) != n;
            See(Ixfr(pos, c, t, n, o), r, Some(o)) ==
            if middle && pos > 1 && !(t <= Serial(r.rdata) <= n) then None
            else Some(Ixfr(pos + 1, if IsNew(r, n) then c + 1 else c, if middle then Serial(r.rdata) else t, n, o))
  {
  }

  /** The third SOA record of the newest serial completes it, and nothing may follow. */
  lemma SeeThird(rs: seq<Rr>, pos: nat, t: nat, n: nat, o: nat)
    requires pos >= 2 && rs != [] && IsNew(rs[0], n)
    ensures var w := SeeAll(Ixfr(pos, 2, t, n, o), rs, Some(o));
            w.Some? == (|rs| == 1) && (w.Some? ==> w.value.done)
  {
    var y := See(Ixfr(pos, 2, t, n, o), rs[0], Some(o));
    assert y.Some? && y.value.done;
    if |rs| > 1 {
      assert See(y.value, rs[1..][0], Some(o)) == None;
    }
  }

  lemma ClosesHead(rs: seq<Rr>, need: int, n: nat)
    requires rs != []
    ensures CountNew(rs, n) == (if IsNew(rs[0], n) then 1 else 0) + CountNew(rs[1..], n)
    ensures Closes(rs, need, n) <==>
            if |rs| == 1 then IsNew(rs[0], n) && need == 1 else Closes(rs[1..], if IsNew(rs[0], n) then need - 1 else need, n)
  {
    var front := rs[..|rs| - 1];
    if |rs| == 1 {
      assert front == [];
    } else {
      assert front[0] == rs[0] && front[1..] == rs[1..][..|rs| - 2];
    }
  }

  /** The records of one packet, or their rest. */
  lemma {:induction false} SeeMany(rs: seq<Rr>, pos: nat, c: nat, t: nat, n: nat, o: nat)
    requires pos >= 1 && 1 <= c <= 2 && (pos == 1 ==> c == 1) && GoodSoas(rs) && FromDisk(rs, pos, n, o)
    ensures var w, sum := SeeAll(Ixfr(pos, c, t, n, o), rs, Some(o)), c + CountNew(rs, n);
            && (w.Some? <==> Rising(rs, pos, t, n) && (sum < 3 || Closes(rs, 3 - c, n)))
            && (w.Some? && sum < 3 ==> w.value == Ixfr(pos + |rs|, sum, w.value.tmpSerial, n, o))
            && (w.Some? && sum >= 3 ==> w.value.done)
    decreases |rs|
  {
    if rs != [] {
      var r, rest := rs[0], rs[1..];
      assert r in rs && GoodSoas(rest);
      ClosesHead(rs, 3 - c, n);
      if IsNew(r, n) && c == 2 {
        SeeThird(rs, pos, t, n, o);
        assert |rs| > 1 ==> !Closes(rest, 0, n);
      } else {
        SeeOne(r, pos, c, t, n, o);
        var y := See(Ixfr(pos, c, t, n, o), r, Some(o));
        if y.Some? {
          SeeMany(rest, pos + 1, if IsNew(r, n) then c + 1 else c, y.value.tmpSerial, n, o);
        }
      }
    }
  }

  /** The first `j` packets are the whole transfer. */
  ghost predicate Taken(parts: seq<seq<Rr>>, pos: nat, j: int, need: int, n: nat) {
    && 0 < j <= |parts| && parts[j - 1] != []
    && AllRising(parts[..j], pos, n) && Closes(Flatten(parts[..j]), need, n)
  }

  ghost predicate AllBounded(parts: seq<seq<Rr>>) {
    forall i :: 0 <= i < |parts| ==> |parts[i]| <= MAX_ANCOUNT
  }

  lemma TakenOne(parts: seq<seq<Rr>>, pos: nat, need: int, n: nat)
    requires parts != []
    ensures Taken(parts, pos, 1, need, n) <==> Rising(parts[0], pos, 0, n) && Closes(parts[0], need, n)
  {
    var one := parts[..1];
    assert one == [parts[0]] && one[1..] == [];
    assert AllRising(one[1..], pos + |parts[0]|, n);
    assert Flatten(one) == parts[0] + Flatten(one[1..]) == parts[0];
  }

  /** Behind the first packet. */
  lemma TakenMore(parts: seq<seq<Rr>>, pos: nat, j: int, need: int, n: nat)
    requires parts != [] && j > 1
    ensures Taken(parts, pos, j, need, n) <==>
            && Rising(parts[0], pos, 0, n)
            && Taken(parts[1..], pos + |parts[0]|, j - 1, need - CountNew(parts[0], n), n)
  {
    var part, rest := parts[0], parts[1..];
    if j <= |parts| && parts[j - 1] != [] {
      assert parts[..j][0] == part && parts[..j][1..] == rest[..j - 1] && rest[j - 2] == parts[j - 1];
      FlattenNonEmpty(rest[..j - 1]);
      ClosesConcat(part, Flatten(rest[..j - 1]), need, n);
    }
  }

  /** Nothing is taken beyond what completes the number. */
  lemma NotBeyond(parts: seq<seq<Rr>>, pos: nat, j: int, need: int, n: nat)
    requires parts != [] && j > 1 && CountNew(parts[0], n) >= need
    ensures !Taken(parts, pos, j, need, n)
  {
    TakenMore(parts, pos, j, need, n);
  }

  /** One packet in the middle of a reply. */
  lemma OnePacket(part: seq<Rr>, pos: nat, c: nat, t: nat, n: nat, o: nat, k: Known)
    requires pos >= 1 && 1 <= c <= 2 && (pos == 1 ==> c == 1) && k.disk == Some(o)
    requires |part| <= MAX_ANCOUNT && GoodSoas(part) && FromDisk(part, pos, n, o)
    ensures var (v, y) := CheckPacket(Ixfr(pos, c, t, n, o), part, k);
            var sum := c + CountNew(part, n);
            && (v == Complete <==> Rising(part, pos, 0, n) && Closes(part, 3 - c, n))
            && (v == More <==> Rising(part, pos, 0, n) && sum < 3)
            && (v == More ==> y == Ixfr(pos + |part|, sum, y.tmpSerial, n, o))
            && (Closes(part, 3 - c, n) ==> sum == 3)
  {
    SeeMany(part, pos, c, 0, n, o);
    if Closes(part, 3 - c, n) {
      ClosesCount(part, 3 - c, n);
    }
  }

  lemma RestOfReply(parts: seq<seq<Rr>>, pos: nat, n: nat, o: nat)
    requires parts != [] && pos >= 1 && AllBounded(parts) && GoodSoas(Flatten(parts)) && FromDisk(Flatten(parts), pos, n, o)
    ensures GoodSoas(parts[0]) && FromDisk(parts[0], pos, n, o)
    ensures AllBounded(parts[1..]) && GoodSoas(Flatten(parts[1..])) && FromDisk(Flatten(parts[1..]), pos + |parts[0]|, n, o)
  {
    assert forall r :: r in parts[0] ==> r in Flatten(parts);
    assert forall r :: r in Flatten(parts[1..]) ==> r in Flatten(parts);
  }

  lemma {:induction false} TakeRest(parts: seq<seq<Rr>>, pos: nat, c: nat, t: nat, n: nat, o: nat, k: Known, j: nat)
    requires pos >= 1 && 1 <= c <= 2 && (pos == 1 ==> c == 1) && k.disk == Some(o)
    requires AllBounded(parts) && GoodSoas(Flatten(parts)) && FromDisk(Flatten(parts), pos, n, o)
    ensures TakePackets(Ixfr(pos, c, t, n, o), parts, k) == Some(j) <==> Taken(parts, pos, j, 3 - c, n)
    decreases |parts|
  {
    if parts != [] {
      var part, rest := parts[0], parts[1..];
      RestOfReply(parts, pos, n, o);
      OnePacket(part, pos, c, t, n, o, k);
      TakenOne(parts, pos, 3 - c, n);
      var (v, y) := CheckPacket(Ixfr(pos, c, t, n, o), part, k);
      var sum := c + CountNew(part, n);
      if j > 1 {
        if sum < 3 {
          TakenMore(parts, pos, j, 3 - c, n);
        } else {
          NotBeyond(parts, pos, j, 3 - c, n);
        }
      }
      if v == More && j > 0 {
        TakeRest(rest, pos + |part|, sum, y.tmpSerial, n, o, k, j - 1);
      }
    }
  }

  /** A reply that starts with the SOA record of the newest serial `n` and that
      of the serial `o` on disk. */
  ghost predicate Reply(rs: seq<Rr>, n: nat, o: nat, k: Known) {
    && |rs| >= 2 && GoodSoas(rs) && rs[0].owner == k.apex && IsNew(rs[0], n) && IsNew(rs[1], o) && o != n
    && k.disk == Some(o) && (k.expired || IxfrChain.CompareSerial(n, o) >= 0)
  }

  /** Whatever the cut: the transfer is complete with the packet that ends with
      the third SOA record of the newest serial, if there is such a packet and
      in each packet so far the serials in the middle rise. */
  lemma TakeReply(parts: seq<seq<Rr>>, n: nat, o: nat, k: Known, j: nat)
    requires AllBounded(parts) && Reply(Flatten(parts), n, o, k)
    ensures TakePackets(Nothing(), parts, k) == Some(j) <==> parts[0] != [] && Taken(parts, 0, j, 3, n)
  {
    var part, rest := parts[0], parts[1..];
    if part != [] {
      var first, tail := part[0], part[1..];
      var parts' := [tail] + rest;
      assert parts'[1..] == rest && part == [first] + tail && [first][1..] == [];
      assert Flatten(parts)[0] == first && Flatten(parts') == Flatten(parts)[1..];
      assert forall r :: r in Flatten(parts') ==> r in Flatten(parts);
      assert SeeFirst(first, k) == (More, Ixfr(1, 1, 0, n, o));
      assert TakePackets(Nothing(), parts, k) == TakePackets(Ixfr(1, 1, 0, n, o), parts', k);
      TakeRest(parts', 1, 1, 0, n, o, k, j);
      FirstTaken(parts, parts', j, n);
    }
  }

  lemma FirstTaken(parts: seq<seq<Rr>>, parts': seq<seq<Rr>>, j: nat, n: nat)
    requires parts != [] && parts[0] != [] && IsNew(parts[0][0], n) && parts' == [parts[0][1..]] + parts[1..]
    ensures Taken(parts, 0, j, 3, n) <==> Taken(parts', 1, j, 2, n)
  {
    var part, first, tail := parts[0], parts[0][0], parts[0][1..];
    assert part == [first] + tail && [first][1..] == [] && CountNew([first], n) == 1;
    CountConcat([first], tail, n);
    assert Rising(part, 0, 0, n) == Rising(tail, 1, 0, n);
    if tail != [] {
      ClosesConcat([first], tail, 3, n);
    }
    if j == 1 {
      TakenOne(parts, 0, 3, n);
      TakenOne(parts', 1, 2, n);
    } else if j > 1 {
      assert parts'[1..] == parts[1..];
      TakenMore(parts, 0, j, 3, n);
      TakenMore(parts', 1, j, 2, n);
    }
  }

  // ----- the reply of a history

  ghost predicate NoSoa(rs: seq<Rr>) {
    forall r :: r in rs ==> !IsSoa(r)
  }

  /** The shape of a difference, as far as the check sees it. */
  ghost predicate Shaped(d: Delta) {
    GoodSoa(d.oldsoa) && GoodSoa(d.newsoa) && NoSoa(d.del) && NoSoa(d.add)
  }

  ghost predicate AllShaped(ds: seq<Delta>) {
    forall i :: 0 <= i < |ds| ==> Shaped(ds[i])
  }

  function NewSerial(d: Delta): nat
    requires GoodSoa(d.newsoa)
  {
    Serial(d.newsoa.rdata)
  }

  lemma HistoryShaped(apex: Name, vs: seq<set<Rr>>, soas: seq<Rr>, ds: seq<Delta>)
    requires History(apex, vs, soas, ds)
    ensures AllShaped(ds) && forall i :: 0 <= i < |soas| ==> GoodSoa(soas[i])
  {
    forall i | 0 <= i < |soas|
      ensures GoodSoa(soas[i])
    {
      assert IsZone(vs[i], apex, soas[i]);
    }
    forall i | 0 <= i < |ds|
      ensures Shaped(ds[i])
    {
      var d := ds[i];
      assert IsDelta(d, vs[i], vs[i + 1]);
      assert forall r :: r in d.del ==> r in Elements(d.del);
      assert forall r :: r in d.add ==> r in Elements(d.add);
    }
  }

  lemma {:induction false} NoSoaCount(rs: seq<Rr>, n: nat)
    requires NoSoa(rs)
    ensures CountNew(rs, n) == 0
  {
    if rs != [] {
      NoSoaCount(rs[1..], n);
    }
  }

  lemma BodyCount(d: Delta, n: nat)
    requires Shaped(d)
    ensures CountNew(Body(d), n) == if NewSerial(d) == n then 2 else 0
    ensures NewSerial(d) == n ==> Closes(Body(d), 2, n)
  {
    var front, soa := d.del + [d.newsoa] + d.add, [d.newsoa];
    assert Body(d) == front + soa && soa[1..] == [];
    NoSoaCount(d.del, n);
    NoSoaCount(d.add, n);
    CountConcat(d.del, soa, n);
    CountConcat(d.del + soa, d.add, n);
    CountConcat(front, soa, n);
    assert Body(d)[..|Body(d)| - 1] == front;
  }

  /** No version before the last has the serial `n`. */
  ghost predicate FirstAt(ds: seq<Delta>, m: int, n: nat)
    requires AllShaped(ds)
  {
    0 < m <= |ds| && NewSerial(ds[m - 1]) == n && forall i :: 0 <= i < m - 1 ==> NewSerial(ds[i]) != n
  }

  lemma {:induction false} BodiesClose(ds: seq<Delta>, m: nat, n: nat)
    requires AllShaped(ds) && FirstAt(ds, m, n)
    ensures Closes(Bodies(ds[..m]), 2, n)
    decreases m
  {
    var rest := ds[1..];
    BodyCount(ds[0], n);
    assert ds[..m][0] == ds[0] && ds[..m][1..] == rest[..m - 1];
    if m == 1 {
      assert Bodies(ds[..1]) == Body(ds[0]) + Bodies([]) == Body(ds[0]);
    } else {
      assert FirstAt(rest, m - 1, n) by {
        assert rest[m - 2] == ds[m - 1];
      }
      BodiesClose(rest, m - 1, n);
      ClosesConcat(Body(ds[0]), Bodies(rest[..m - 1]), 2, n);
    }
  }

  /** The version with the newest serial that comes first, or the last. */
  lemma FindFirst(ds: seq<Delta>, n: nat) returns (m: nat)
    requires AllShaped(ds) && ds != [] && NewSerial(ds[|ds| - 1]) == n
    ensures FirstAt(ds, m, n)
  {
    m := 1;
    while NewSerial(ds[m - 1]) != n
      invariant 0 < m <= |ds| && forall i :: 0 <= i < m - 1 ==> NewSerial(ds[i]) != n
      decreases |ds| - m
    {
      m := m + 1;
    }
  }

  lemma {:induction false} BodiesPrefix(ds: seq<Delta>, m: nat)
    requires m <= |ds|
    ensures Bodies(ds) == Bodies(ds[..m]) + Bodies(ds[m..])
    decreases m
  {
    if m == 0 {
      assert ds[..0] == [] && ds[0..] == ds;
    } else {
      BodiesPrefix(ds[1..], m - 1);
      assert ds[..m][0] == ds[0] && ds[..m][1..] == ds[1..][..m - 1] && ds[1..][m - 1..] == ds[m..];
    }
  }

  /** The records of the reply up to the end of version `m`. */
  function LengthTo(ds: seq<Delta>, m: nat): nat
    requires m <= |ds|
  {
    2 + |Bodies(ds[..m])|
  }

  /** Of all beginnings of the reply, one ends with the third SOA record of the
      newest serial. */
  lemma ClosesAt(ds: seq<Delta>, m: nat, n: nat, p: nat)
    requires AllShaped(ds) && ds != [] && FirstAt(ds, m, n) && NewSerial(ds[|ds| - 1]) == n
    requires Serial(ds[0].oldsoa.rdata) != n && p <= |Response(ds)|
    ensures LengthTo(ds, m) <= |Response(ds)| && Response(ds)[..LengthTo(ds, m)] == Response(ds)[..2] + Bodies(ds[..m])
    ensures Closes(Response(ds)[..p], 3, n) <==> p == LengthTo(ds, m)
  {
    var s, len := Response(ds), LengthTo(ds, m);
    var two := s[..2];
    BodiesPrefix(ds, m);
    BodiesClose(ds, m, n);
    assert s[..len] == two + Bodies(ds[..m]);
    assert two == [ds[|ds| - 1].newsoa] + [ds[0].oldsoa];
    TwoCount(ds[|ds| - 1].newsoa, ds[0].oldsoa, n);
    ClosesConcat(two, Bodies(ds[..m]), 3, n);
    if Closes(s[..p], 3, n) {
      if p < len {
        ClosesBefore(s, p, len, n);
      } else if len < p {
        ClosesBefore(s, len, p, n);
      }
    }
  }

  lemma TwoCount(a: Rr, b: Rr, n: nat)
    requires IsNew(a, n) && !IsNew(b, n)
    ensures CountNew([a] + [b], n) == 1
  {
    assert [a][1..] == [] && [b][1..] == [];
    CountConcat([a], [b], n);
  }

  lemma ClosesBefore(s: seq<Rr>, p: nat, q: nat, n: nat)
    requires p < q <= |s| && Closes(s[..p], 3, n)
    ensures !Closes(s[..q], 3, n)
  {
    var rest := s[p..q - 1];
    ClosesCount(s[..p], 3, n);
    assert s[..q][..q - 1] == s[..p] + rest;
    CountConcat(s[..p], rest, n);
  }

  // ----- serials that rise in every cut

  lemma {:induction false} RisingSplit(a: seq<Rr>, b: seq<Rr>, pos: nat, t: nat, n: nat)
    requires Rising(a + b, pos, t, n)
    ensures Rising(a, pos, t, n) && Rising(b, pos + |a|, 0, n)
    decreases |a|
  {
    if a == [] {
      assert a + b == b;
      RisingLower(b, pos, t, n);
    } else {
      assert (a + b)[0] == a[0] && (a + b)[1..] == a[1..] + b;
      var t' := if pos == 0 || !GoodSoa(a[0]) || Serial(a[0].rdata) == n then t else Serial(a[0].rdata);
      RisingSplit(a[1..], b, pos + 1, t', n);
    }
  }

  lemma {:induction false} RisingLower(rs: seq<Rr>, pos: nat, t: nat, n: nat)
    requires Rising(rs, pos, t, n)
    ensures Rising(rs, pos, 0, n)
    decreases |rs|
  {
    if rs != [] && (pos == 0 || !GoodSoa(rs[0]) || Serial(rs[0].rdata) == n) {
      RisingLower(rs[1..], pos + 1, t, n);
    }
  }

  lemma {:induction false} RisingCut(parts: seq<seq<Rr>>, pos: nat, t: nat, n: nat)
    requires Rising(Flatten(parts), pos, t, n)
    ensures AllRising(parts, pos, n)
    decreases |parts|
  {
    if parts != [] {
      RisingSplit(parts[0], Flatten(parts[1..]), pos, t, n);
      RisingLower(parts[0], pos, t, n);
      RisingCut(parts[1..], pos + |parts[0]|, 0, n);
    }
  }

  lemma {:induction false} RisingSkip(a: seq<Rr>, b: seq<Rr>, pos: nat, t: nat, n: nat)
    requires NoSoa(a)
    ensures Rising(a + b, pos, t, n) <==> Rising(b, pos + |a|, t, n)
    decreases |a|
  {
    if a == [] {
      assert a + b == b;
    } else {
      assert (a + b)[0] == a[0] && (a + b)[1..] == a[1..] + b;
      RisingSkip(a[1..], b, pos + 1, t, n);
    }
  }

  /** The serials of the versions, one after the other. */
  ghost predicate Climbs(ds: seq<Delta>, t: nat, n: nat)
    requires AllShaped(ds)
    decreases |ds|
  {
    ds == [] ||
    if NewSerial(ds[0]) == n then Climbs(ds[1..], t, n)
    else t <= NewSerial(ds[0]) <= n && Climbs(ds[1..], NewSerial(ds[0]), n)
  }

  lemma RisingBody(d: Delta, rest: seq<Rr>, pos: nat, t: nat, n: nat)
    requires Shaped(d) && pos >= 2
    ensures Rising(Body(d) + rest, pos, t, n) <==>
            if NewSerial(d) == n then Rising(rest, pos + |Body(d)|, t, n)
            else t <= NewSerial(d) <= n && Rising(rest, pos + |Body(d)|, NewSerial(d), n)
  {
    var soa, s := [d.newsoa], NewSerial(d);
    var t' := if s == n then t else s;
    var after := soa + rest;
    var behind := soa + (d.add + after);
    assert Body(d) + rest == d.del + behind;
    RisingSkip(d.del, behind, pos, t, n);
    assert behind[1..] == d.add + after && after[1..] == rest;
    RisingSkip(d.add, after, pos + |d.del| + 1, t', n);
  }

  lemma {:induction false} RisingBodies(ds: seq<Delta>, pos: nat, t: nat, n: nat)
    requires AllShaped(ds) && pos >= 2
    ensures Rising(Bodies(ds), pos, t, n) <==> Climbs(ds, t, n)
    decreases |ds|
  {
    if ds != [] {
      RisingBody(ds[0], Bodies(ds[1..]), pos, t, n);
      var t' := if NewSerial(ds[0]) == n then t else NewSerial(ds[0]);
      RisingBodies(ds[1..], pos + |Body(ds[0])|, t', n);
    }
  }

  /** As plain numbers the serials never fall, and only the last is the newest. */
  ghost predicate Steady(ss: seq<nat>) {
    && (forall i, j :: 0 <= i < j < |ss| - 1 ==> ss[i] <= ss[j])
    && forall j :: 0 < j < |ss| - 1 ==> ss[j] < ss[|ss| - 1]
  }

  ghost function Serials(soas: seq<Rr>): seq<nat> {
    seq(|soas|, i requires 0 <= i < |soas| => SerialOf(soas[i]))
  }

  ghost function NewSerials(ds: seq<Delta>): seq<nat> {
    seq(|ds|, i requires 0 <= i < |ds| => SerialOf(ds[i].newsoa))
  }

  lemma {:induction false} ClimbsSteady(ds: seq<Delta>, t: nat, n: nat)
    requires AllShaped(ds) && ds != [] && FirstAt(ds, |ds|, n)
    ensures Climbs(ds, t, n) <==> Steady([t] + NewSerials(ds))
    decreases |ds|
  {
    var d, rest := ds[0], ds[1..];
    var s := NewSerial(d);
    if rest != [] {
      assert rest[|rest| - 1] == ds[|ds| - 1];
      assert FirstAt(rest, |rest|, n);
      ClimbsSteady(rest, s, n);
      assert NewSerials(ds) == [s] + NewSerials(rest);
      SteadyCons(t, [s] + NewSerials(rest));
    }
  }

  lemma SteadyCons(t: nat, ss: seq<nat>)
    requires |ss| > 1 && ss[0] != ss[|ss| - 1]
    ensures Steady([t] + ss) <==> t <= ss[0] <= ss[|ss| - 1] && Steady(ss)
  {
    if Steady([t] + ss) {
      SteadyTail(t, ss);
    } else if t <= ss[0] <= ss[|ss| - 1] && Steady(ss) {
      SteadyMore(t, ss);
    }
  }

  lemma SteadyTail(t: nat, ss: seq<nat>)
    requires |ss| > 1 && Steady([t] + ss)
    ensures t <= ss[0] <= ss[|ss| - 1] && Steady(ss)
  {
    var all := [t] + ss;
    assert all[0] <= all[1] && all[1] < all[|all| - 1];
    forall i, j | 0 <= i < j < |ss| - 1
      ensures ss[i] <= ss[j]
    {
      assert all[i + 1] <= all[j + 1];
    }
    forall j | 0 < j < |ss| - 1
      ensures ss[j] < ss[|ss| - 1]
    {
      assert all[j + 1] < all[|all| - 1];
    }
  }

  lemma SteadyMore(t: nat, ss: seq<nat>)
    requires |ss| > 1 && t <= ss[0] < ss[|ss| - 1] && Steady(ss)
    ensures Steady([t] + ss)
  {
    var all := [t] + ss;
    forall i, j | 0 <= i < j < |all| - 1
      ensures all[i] <= all[j]
    {
      assert all[j] == ss[j - 1] && ss[0] <= ss[j - 1];
    }
  }

  // ----- the theorem

  /** What the daemon knows while it asks for what is newer than the serial of
      the first version. */
  ghost predicate Asks(k: Known, apex: Name, soas: seq<Rr>) {
    && soas != [] && k.apex == apex && k.disk == Some(SerialOf(soas[0])) && SerialOf(soas[0]) != SerialOf(soas[|soas| - 1])
    && (k.expired || IxfrChain.CompareSerial(SerialOf(soas[|soas| - 1]), SerialOf(soas[0])) >= 0)
  }

  lemma ResponseIsReply(apex: Name, vs: seq<set<Rr>>, soas: seq<Rr>, ds: seq<Delta>, k: Known)
    requires ds != [] && History(apex, vs, soas, ds) && Asks(k, apex, soas)
    ensures AllShaped(ds) && NewSerial(ds[|ds| - 1]) == SerialOf(soas[|ds|]) && ds[0].oldsoa == soas[0]
    ensures Reply(Response(ds), SerialOf(soas[|ds|]), SerialOf(soas[0]), k)
  {
    HistoryShaped(apex, vs, soas, ds);
    assert IsZone(vs[|ds|], apex, soas[|ds|]);
    forall r | r in Response(ds) && IsSoa(r)
      ensures GoodSoa(r)
    {
      if r in Bodies(ds) {
        BodiesGood(ds, r);
      }
    }
  }

  lemma {:induction false} BodiesGood(ds: seq<Delta>, r: Rr)
    requires AllShaped(ds) && r in Bodies(ds) && IsSoa(r)
    ensures GoodSoa(r)
  {
    assert Shaped(ds[0]);
    if r !in Body(ds[0]) {
      BodiesGood(ds[1..], r);
    }
  }

  /** However the reply is cut into packets: it is taken exactly when a packet
      ends where the first version with the newest serial ends, and in each
      packet so far the serials rise. */
  lemma CutDecides(apex: Name, vs: seq<set<Rr>>, soas: seq<Rr>, ds: seq<Delta>, k: Known, parts: seq<seq<Rr>>, m: nat, j: nat)
    requires ds != [] && History(apex, vs, soas, ds) && Asks(k, apex, soas)
    requires AllShaped(ds) && FirstAt(ds, m, SerialOf(soas[|ds|])) && AllBounded(parts) && Flatten(parts) == Response(ds)
    ensures parts != [] && (TakePackets(Nothing(), parts, k) == Some(j) <==>
                            && parts[0] != [] && 0 < j <= |parts| && parts[j - 1] != []
                            && |Flatten(parts[..j])| == LengthTo(ds, m) && AllRising(parts[..j], 0, SerialOf(soas[|ds|])))
  {
    var n, o := SerialOf(soas[|ds|]), SerialOf(soas[0]);
    ResponseIsReply(apex, vs, soas, ds, k);
    TakeReply(parts, n, o, k, j);
    if 0 < j <= |parts| {
      FlattenPrefix(parts, j);
      ClosesAt(ds, m, n, |Flatten(parts[..j])|);
    }
  }

  lemma RisingResponse(apex: Name, vs: seq<set<Rr>>, soas: seq<Rr>, ds: seq<Delta>)
    requires ds != [] && History(apex, vs, soas, ds) && SerialOf(soas[0]) != SerialOf(soas[|ds|])
    requires AllShaped(ds) && FirstAt(ds, |ds|, SerialOf(soas[|ds|]))
    ensures Rising(Response(ds), 0, 0, SerialOf(soas[|ds|])) <==> Steady(Serials(soas))
  {
    var s, n := Response(ds), SerialOf(soas[|ds|]);
    HistoryShaped(apex, vs, soas, ds);
    assert s[1..][1..] == Bodies(ds);
    assert Rising(s, 0, 0, n) == Rising(s[1..], 1, 0, n) == Rising(Bodies(ds), 2, SerialOf(soas[0]), n);
    RisingBodies(ds, 2, SerialOf(soas[0]), n);
    ClimbsSteady(ds, SerialOf(soas[0]), n);
    SerialsOf(soas, ds);
  }

  lemma SerialsOf(soas: seq<Rr>, ds: seq<Delta>)
    requires |soas| == |ds| + 1 && forall i :: 0 <= i < |ds| ==> ds[i].newsoa == soas[i + 1]
    ensures [SerialOf(soas[0])] + NewSerials(ds) == Serials(soas)
  {
    var a, b := [SerialOf(soas[0])] + NewSerials(ds), Serials(soas);
    forall i | 0 <= i < |soas|
      ensures a[i] == b[i]
    {
      assert i > 0 ==> ds[i - 1].newsoa == soas[i];
    }
  }

  /** With steady serials every cut arrives. */
  lemma SteadyArrives(apex: Name, vs: seq<set<Rr>>, soas: seq<Rr>, ds: seq<Delta>, k: Known, parts: seq<seq<Rr>>)
    requires ds != [] && History(apex, vs, soas, ds) && Asks(k, apex, soas) && Steady(Serials(soas))
    requires AllBounded(parts) && Flatten(parts) == Response(ds) && parts != [] && parts[0] != [] && parts[|parts| - 1] != []
    ensures TakePackets(Nothing(), parts, k) == Some(|parts|) && AllShaped(ds) && FirstAt(ds, |ds|, SerialOf(soas[|ds|]))
  {
    HistoryShaped(apex, vs, soas, ds);
    OnlyLast(soas, ds, SerialOf(soas[|ds|]));
    RisingResponse(apex, vs, soas, ds);
    RisingCut(parts, 0, 0, SerialOf(soas[|ds|]));
    assert parts[..|parts|] == parts && ds[..|ds|] == ds;
    CutDecides(apex, vs, soas, ds, k, parts, |ds|, |parts|);
  }

  lemma OnlyLast(soas: seq<Rr>, ds: seq<Delta>, n: nat)
    requires ds != [] && AllShaped(ds) && |soas| == |ds| + 1 && Steady(Serials(soas)) && n == SerialOf(soas[|ds|])
    requires forall i :: 0 <= i < |ds| ==> ds[i].newsoa == soas[i + 1]
    ensures FirstAt(ds, |ds|, n)
  {
    var ss := Serials(soas);
    forall i | 0 <= i < |ds| - 1
      ensures NewSerial(ds[i]) != n
    {
      assert ss[i + 1] < ss[|ss| - 1];
    }
  }

  /** In one packet nothing else arrives. */
  lemma OnePacketDecides(apex: Name, vs: seq<set<Rr>>, soas: seq<Rr>, ds: seq<Delta>, k: Known)
    requires ds != [] && History(apex, vs, soas, ds) && Asks(k, apex, soas) && |Response(ds)| <= MAX_ANCOUNT
    ensures TakePackets(Nothing(), [Response(ds)], k) == Some(1) <==> Steady(Serials(soas))
  {
    var s, n := Response(ds), SerialOf(soas[|ds|]);
    assert Flatten([s]) == s + Flatten([s][1..]) == s;
    HistoryShaped(apex, vs, soas, ds);
    if Steady(Serials(soas)) {
      SteadyArrives(apex, vs, soas, ds, k, [s]);
    } else {
      var m := FindFirst(ds, n);
      CutDecides(apex, vs, soas, ds, k, [s], m, 1);
      assert [s][..1] == [s];
      BodiesLonger(ds, m);
      if m == |ds| {
        RisingResponse(apex, vs, soas, ds);
      }
    }
  }

  lemma BodiesLonger(ds: seq<Delta>, m: nat)
    requires m <= |ds|
    ensures m < |ds| ==> |Bodies(ds[..m])| < |Bodies(ds)|
    ensures m == |ds| ==> ds[..m] == ds
  {
    BodiesPrefix(ds, m);
  }

  /** A serial in the middle that is above the newest is refused in every cut. */
  lemma AboveIsRefused(apex: Name, vs: seq<set<Rr>>, soas: seq<Rr>, ds: seq<Delta>, k: Known, parts: seq<seq<Rr>>, m: nat, i: nat)
    requires ds != [] && History(apex, vs, soas, ds) && Asks(k, apex, soas)
    requires AllShaped(ds) && FirstAt(ds, m, SerialOf(soas[|ds|])) && i < m && SerialOf(soas[i + 1]) > SerialOf(soas[|ds|])
    requires AllBounded(parts) && Flatten(parts) == Response(ds)
    ensures TakePackets(Nothing(), parts, k) == None
  {
    var n, taken := SerialOf(soas[|ds|]), TakePackets(Nothing(), parts, k);
    if taken.Some? {
      var j := taken.value;
      CutDecides(apex, vs, soas, ds, k, parts, m, j);
      FlattenPrefix(parts, j);
      ResponseIsReply(apex, vs, soas, ds, k);
      ClosesAt(ds, m, n, LengthTo(ds, m));
      var sent := Flatten(parts[..j]);
      assert ds[..m][i] == ds[i];
      var q := BodyIn(ds[..m], i);
      assert sent[q + 2] == soas[i + 1];
      RisingBound(parts[..j], 0, n, q + 2);
    }
  }

  /** The SOA record of a version is in the reply. */
  lemma {:induction false} BodyIn(ds: seq<Delta>, i: nat) returns (q: nat)
    requires i < |ds|
    ensures q < |Bodies(ds)| && Bodies(ds)[q] == ds[i].newsoa
    decreases i
  {
    if i == 0 {
      q := |ds[0].del|;
    } else {
      var p := BodyIn(ds[1..], i - 1);
      q := |Body(ds[0])| + p;
    }
  }

  lemma {:induction false} RisingBound(parts: seq<seq<Rr>>, pos: nat, n: nat, q: nat)
    requires AllRising(parts, pos, n) && q < |Flatten(parts)| && pos + q >= 2 && GoodSoa(Flatten(parts)[q])
    ensures Serial(Flatten(parts)[q].rdata) <= n
    decreases |parts|
  {
    if q < |parts[0]| {
      RisingAt(parts[0], pos, 0, n, q);
    } else {
      RisingBound(parts[1..], pos + |parts[0]|, n, q - |parts[0]|);
    }
  }

  lemma {:induction false} RisingAt(rs: seq<Rr>, pos: nat, t: nat, n: nat, q: nat)
    requires Rising(rs, pos, t, n) && q < |rs| && pos + q >= 2 && GoodSoa(rs[q])
    ensures Serial(rs[q].rdata) <= n
    decreases |rs|
  {
    if q > 0 {
      var t' := if pos == 0 || !GoodSoa(rs[0]) || Serial(rs[0].rdata) == n then t else Serial(rs[0].rdata);
      RisingAt(rs[1..], pos + 1, t', n, q - 1);
    }
  }

  // ----- the packet that completes a transfer

  lemma {:induction false} DoneByLast(x: Watch, rs: seq<Rr>, disk: Option<nat>)
    requires !x.done && SeeAll(x, rs, disk).Some? && SeeAll(x, rs, disk).value.done
    ensures rs != [] && IsNew(rs[|rs| - 1], x.newSerial)
    decreases |rs|
  {
    if |rs| > 0 {
      var y := See(x, rs[0], disk).value;
      if y.done {
        assert SeeAll(y, rs[1..], disk).Some?;
      } else {
        DoneByLast(y, rs[1..], disk);
      }
    }
  }

  lemma CompleteByLast(x: Watch, part: seq<Rr>, k: Known)
    requires CheckPacket(x, part, k).0 == Complete
    ensures part != [] && IsNew(part[|part| - 1], if x.rrCount == 0 then SerialOf(part[0]) else x.newSerial)
  {
    if x.rrCount == 0 {
      DoneByLast(SeeFirst(part[0], k).1, part[1..], k.disk);
    } else {
      DoneByLast(x.(tmpSerial := 0, done := false), part, k.disk);
    }
  }

  /** Any transfer that is handed on, full or incremental, ends with the SOA
      record of the serial offered: its last packet is never empty. */
  lemma {:induction false} LastPacketCloses(x: Watch, parts: seq<seq<Rr>>, k: Known, j: nat)
    requires TakePackets(x, parts, k) == Some(j)
    ensures 0 < j <= |parts| && parts[j - 1] != []
    ensures x.rrCount == 0 ==> parts[0] != []
    ensures IsNew(parts[j - 1][|parts[j - 1]| - 1], if x.rrCount == 0 then SerialOf(parts[0][0]) else x.newSerial)
    decreases |parts|
  {
    var (v, y) := CheckPacket(x, parts[0], k);
    if v == Complete {
      CompleteByLast(x, parts[0], k);
    } else {
      if x.rrCount > 0 {
        SerialsStay(x.(tmpSerial := 0, done := false), parts[0], k.disk);
      } else {
        SerialsStay(SeeFirst(parts[0][0], k).1, parts[0][1..], k.disk);
      }
      LastPacketCloses(y, parts[1..], k, j - 1);
    }
  }

  // ----- full transfers

  /** Records among which no SOA record has serial `n`, and none is malformed. */
  ghost predicate Quiet(rs: seq<Rr>, n: nat) {
    forall r :: r in rs && IsSoa(r) ==> GoodSoa(r) && Serial(r.rdata) != n
  }

  /** It shows that the transfer is a full one. */
  ghost predicate NotSoaFirst(rs: seq<Rr>, pos: nat) {
    pos == 1 && rs != [] ==> !IsSoa(rs[0])
  }

  lemma {:induction false} SeePlain(x: Watch, rs: seq<Rr>, disk: Option<nat>)
    requires !x.done && x.rrCount >= 1 && x.isIxfr == 0 && Quiet(rs, x.newSerial) && NotSoaFirst(rs, x.rrCount)
    ensures SeeAll(x, rs, disk) == Some(x.(rrCount := x.rrCount + |rs|))
    decreases |rs|
  {
    if rs != [] {
      assert rs[0] in rs;
      SeePlain(x.(rrCount := x.rrCount + 1), rs[1..], disk);
    }
  }

  lemma {:induction false} SeeClosing(x: Watch, body: seq<Rr>, soa: Rr, disk: Option<nat>)
    requires !x.done && x.rrCount >= 1 && x.isIxfr == 0 && Quiet(body, x.newSerial) && NotSoaFirst(body, x.rrCount)
    requires IsNew(soa, x.newSerial)
    ensures var o := SeeAll(x, body + [soa], disk);
            o.Some? && o.value.done
    decreases |body|
  {
    var rs := body + [soa];
    if body == [] {
      assert rs[1..] == [];
    } else {
      assert rs[0] == body[0] && rs[1..] == body[1..] + [soa] && body[0] in body;
      SeeClosing(x.(rrCount := x.rrCount + 1), body[1..], soa, disk);
    }
  }

  lemma {:induction false} TakeFull(x: Watch, parts: seq<seq<Rr>>, k: Known, body: seq<Rr>, soa: Rr)
    requires x.rrCount >= 1 && x.isIxfr == 0 && Quiet(body, x.newSerial) && NotSoaFirst(body, x.rrCount) && IsNew(soa, x.newSerial)
    requires AllBounded(parts) && parts != [] && parts[|parts| - 1] != [] && Flatten(parts) == body + [soa]
    ensures TakePackets(x, parts, k) == Some(|parts|)
    decreases |parts|
  {
    var part, rest := parts[0], parts[1..];
    var y := x.(tmpSerial := 0, done := false);
    if rest == [] {
      assert Flatten(parts) == part + Flatten(rest) == part;
      SeeClosing(y, body, soa, k.disk);
    } else {
      assert rest[|rest| - 1] == parts[|parts| - 1];
      FlattenNonEmpty(rest);
      assert part == Flatten(parts)[..|part|] == body[..|part|];
      assert Flatten(rest) == Flatten(parts)[|part|..] == body[|part|..] + [soa];
      SeePlain(y, part, k.disk);
      TakeFull(y.(rrCount := x.rrCount + |part|), rest, k, body[|part|..], soa);
    }
  }

  /** A full transfer, from its SOA record to the next one with that serial, is
      taken however it is cut, unless it offers nothing newer; SOA records of
      other serials in between do not matter, but for the second record. */
  lemma FullIsTaken(parts: seq<seq<Rr>>, k: Known, first: Rr, body: seq<Rr>, last: Rr)
    requires AllBounded(parts) && parts != [] && parts[0] != [] && parts[|parts| - 1] != []
    requires Flatten(parts) == [first] + body + [last] && OwnSoa(first, k.apex) && IsNew(last, Serial(first.rdata))
    requires Quiet(body, Serial(first.rdata)) && NotSoaFirst(body, 1)
    ensures var s := Serial(first.rdata);
            TakePackets(Nothing(), parts, k) ==
            if k.disk.Some? && (k.disk.value == s || (!k.expired && IxfrChain.CompareSerial(s, k.disk.value) < 0)) then None
            else Some(|parts|)
  {
    assert parts[0][0] == Flatten(parts)[0] == first;
    if SeeFirst(first, k).0 == More {
      var parts' := BehindFirst(parts, k);
      assert Flatten(parts') == body + [last] by {
        assert [first] + body + [last] == [first] + (body + [last]);
      }
      if |parts| == 1 {
        FlattenOne(parts');
      }
      TakeFull(SeeFirst(first, k).1, parts', k, body, last);
    }
  }

  /** The first record is checked, and the others are the rest of a transfer. */
  lemma BehindFirst(parts: seq<seq<Rr>>, k: Known) returns (parts': seq<seq<Rr>>)
    requires parts != [] && parts[0] != [] && |parts[0]| <= MAX_ANCOUNT && SeeFirst(parts[0][0], k).0 == More
    ensures parts' == [parts[0][1..]] + parts[1..] && Flatten(parts') == Flatten(parts)[1..]
    ensures TakePackets(Nothing(), parts, k) == TakePackets(SeeFirst(parts[0][0], k).1, parts', k)
  {
    parts' := [parts[0][1..]] + parts[1..];
    assert parts'[1..] == parts[1..];
  }

  lemma FlattenOne<T>(parts: seq<seq<T>>)
    requires |parts| == 1
    ensures Flatten(parts) == parts[0]
  {
    assert parts[1..] == [];
  }

  // ----- what is refused

  /** A SOA record of another serial in second place starts an incremental
      transfer, and is refused unless it has the serial on disk. */
  lemma StartDecides(x: Watch, r: Rr, disk: Option<nat>)
    requires x.rrCount == 1 && !x.done && GoodSoa(r) && Serial(r.rdata) != x.newSerial
    ensures See(x, r, disk).Some? <==> disk == Some(Serial(r.rdata))
    ensures See(x, r, disk).Some? ==> See(x, r, disk).value.isIxfr == 1
  {
  }

  /** A malformed SOA record has its packet refused, wherever it is. */
  lemma {:induction false} MalformedIsRefused(x: Watch, rs: seq<Rr>, disk: Option<nat>, r: Rr)
    requires r in rs && IsSoa(r) && !GoodSoa(r)
    ensures SeeAll(x, rs, disk) == None
    decreases |rs|
  {
    if rs[0] != r && See(x, rs[0], disk).Some? {
      MalformedIsRefused(See(x, rs[0], disk).value, rs[1..], disk, r);
    }
  }

  /** A reply that starts from another serial than the one on disk is never taken. */
  lemma WrongStartIsRefused(parts: seq<seq<Rr>>, k: Known, n: nat, s: nat)
    requires Flatten(parts) != [] && |Flatten(parts)| >= 2 && IsNew(Flatten(parts)[0], n) && IsNew(Flatten(parts)[1], s)
    requires s != n && k.disk != Some(s) && parts[0] != []
    ensures TakePackets(Nothing(), parts, k) == None
  {
    var part, rest := parts[0], parts[1..];
    assert part[0] == Flatten(parts)[0];
    var o := SeeFirst(part[0], k);
    if o.0 == More {
      var tail := part[1..];
      if tail != [] {
        assert tail[0] == Flatten(parts)[1];
        StartDecides(o.1, tail[0], k.disk);
      } else {
        assert Flatten(rest) == Flatten(parts)[1..];
        WrongSecond(o.1.(tmpSerial := 0, done := false), rest, k, s);
      }
    }
  }

  lemma {:induction false} WrongSecond(x: Watch, parts: seq<seq<Rr>>, k: Known, s: nat)
    requires x.rrCount == 1 && Flatten(parts) != [] && IsNew(Flatten(parts)[0], s) && s != x.newSerial && k.disk != Some(s)
    ensures TakePackets(x, parts, k) == None
    decreases |parts|
  {
    var part := parts[0];
    var y := x.(tmpSerial := 0, done := false);
    if part == [] {
      assert SeeAll(y, part, k.disk) == Some(y);
      WrongSecond(y, parts[1..], k, s);
    } else {
      assert part[0] == Flatten(parts)[0];
      StartDecides(y, part[0], k.disk);
    }
  }

  // ----- histories of zones that have a SOA record only

  function SoaRr(apex: Name, serial: seq<Byte>): Rr {
    var zero := DataAtom([0, 0, 0, 0]);
    Rr(apex, TYPE_SOA, CLASS_IN, 0, [NameAtom(apex), NameAtom(apex), DataAtom(serial), zero, zero, zero, zero])
  }

  ghost function BareSoas(apex: Name, bs: seq<seq<Byte>>): (soas: seq<Rr>)
    ensures |soas| == |bs| && forall i :: 0 <= i < |bs| ==> soas[i] == SoaRr(apex, bs[i])
  {
    seq(|bs|, i requires 0 <= i < |bs| => SoaRr(apex, bs[i]))
  }

  ghost function BareZones(apex: Name, bs: seq<seq<Byte>>): (vs: seq<set<Rr>>)
    ensures |vs| == |bs| && forall i :: 0 <= i < |bs| ==> vs[i] == {SoaRr(apex, bs[i])}
  {
    seq(|bs|, i requires 0 <= i < |bs| => {SoaRr(apex, bs[i])})
  }

  ghost function BareDeltas(apex: Name, bs: seq<seq<Byte>>): (ds: seq<Delta>)
    requires bs != []
    ensures |ds| == |bs| - 1
    ensures forall i :: 0 <= i < |ds| ==> ds[i] == Delta(SoaRr(apex, bs[i]), SoaRr(apex, bs[i + 1]), [], [])
  {
    seq(|bs| - 1, i requires 0 <= i < |bs| - 1 => Delta(SoaRr(apex, bs[i]), SoaRr(apex, bs[i + 1]), [], []))
  }

  lemma BareZone(apex: Name, b: seq<Byte>)
    requires |b| == 4
    ensures IsZone({SoaRr(apex, b)}, apex, SoaRr(apex, b))
  {
    var soa := SoaRr(apex, b);
    forall owner: Name, typ: nat
      ensures |RrsetOf({soa}, owner, typ)| <= MAX_RR_COUNT
    {
      SubsetSize(RrsetOf({soa}, owner, typ), {soa});
    }
  }

  lemma BareHistory(apex: Name, bs: seq<seq<Byte>>)
    requires bs != [] && forall i :: 0 <= i < |bs| ==> |bs[i]| == 4
    ensures History(apex, BareZones(apex, bs), BareSoas(apex, bs), BareDeltas(apex, bs))
  {
    var vs, soas, ds := BareZones(apex, bs), BareSoas(apex, bs), BareDeltas(apex, bs);
    forall i | 0 <= i < |vs|
      ensures IsZone(vs[i], apex, soas[i])
    {
      BareZone(apex, bs[i]);
    }
    forall i | 0 <= i < |ds|
      ensures ds[i].oldsoa == soas[i] && ds[i].newsoa == soas[i + 1] && IsDelta(ds[i], vs[i], vs[i + 1])
    {
      assert NonSoa(vs[i] - vs[i + 1]) == {} && NonSoa(vs[i + 1] - vs[i]) == {};
    }
  }

  lemma {:induction false} BareLength(ds: seq<Delta>)
    requires forall i :: 0 <= i < |ds| ==> ds[i].del == [] && ds[i].add == []
    ensures |Bodies(ds)| == 2 * |ds|
  {
    if ds != [] {
      BareLength(ds[1..]);
    }
  }

  function Number(b: seq<int>): int
    requires |b| == 4
  {
    ((b[0] * 256 + b[1]) * 256 + b[2]) * 256 + b[3]
  }

  lemma BareSerial(apex: Name, bs: seq<seq<Byte>>, i: nat)
    requires i < |bs| && |bs[i]| == 4
    ensures SerialOf(BareSoas(apex, bs)[i]) == Number(bs[i])
  {
    assert SoaShaped(SoaRr(apex, bs[i]).rdata);
  }

  lemma BareFacts(apex: Name, bs: seq<seq<Byte>>)
    requires |bs| > 1 && forall i :: 0 <= i < |bs| ==> |bs[i]| == 4
    ensures var ds := BareDeltas(apex, bs);
            && History(apex, BareZones(apex, bs), BareSoas(apex, bs), ds) && AllShaped(ds)
            && |Response(ds)| == 2 * |bs| && ds[0].del == [] && ds[0].add == []
  {
    var ds := BareDeltas(apex, bs);
    BareHistory(apex, bs);
    HistoryShaped(apex, BareZones(apex, bs), BareSoas(apex, bs), ds);
    BareLength(ds);
  }

  /** Forward steps that pass the largest serial: 0xFFFFFFF0, 0xFFFFFFFF, 5.
      The reply is refused however it is cut. */
  function Wrapped(): seq<seq<Byte>> {
    [[255, 255, 255, 240], [255, 255, 255, 255], [0, 0, 0, 5]]
  }

  lemma WrapIsRefused(apex: Name, expired: bool, parts: seq<seq<Rr>>)
    requires AllBounded(parts) && Flatten(parts) == Response(BareDeltas(apex, Wrapped()))
    ensures Number(Wrapped()[0]) == 0xFFFF_FFF0 && Number(Wrapped()[1]) == 0xFFFF_FFFF && Number(Wrapped()[2]) == 5
    ensures IxfrChain.CompareSerial(0xFFFF_FFF0, 0xFFFF_FFFF) < 0 && IxfrChain.CompareSerial(0xFFFF_FFFF, 5) < 0
    ensures IxfrChain.CompareSerial(0xFFFF_FFF0, 5) < 0
    ensures History(apex, BareZones(apex, Wrapped()), BareSoas(apex, Wrapped()), BareDeltas(apex, Wrapped()))
    ensures TakePackets(Nothing(), parts, Known(apex, Some(0xFFFF_FFF0), expired)) == None
  {
    var bs := Wrapped();
    BareFacts(apex, bs);
    BareSerial(apex, bs, 0);
    BareSerial(apex, bs, 1);
    BareSerial(apex, bs, 2);
    AboveIsRefused(apex, BareZones(apex, bs), BareSoas(apex, bs), BareDeltas(apex, bs), Known(apex, Some(0xFFFF_FFF0), expired), parts, 2, 0);
  }

  /** Where the first step already has the newest serial: in one packet the
      reply is refused, and if a packet ends where that version ends, it is
      taken for the newest. */
  lemma AgainStopsEarly(apex: Name, bs: seq<seq<Byte>>, k: Known)
    requires 2 < |bs| <= 1000 && forall i :: 0 <= i < |bs| ==> |bs[i]| == 4
    requires Number(bs[1]) == Number(bs[|bs| - 1]) && Asks(k, apex, BareSoas(apex, bs))
    ensures var s := Response(BareDeltas(apex, bs));
            && TakePackets(Nothing(), [s], k) == None
            && |s| > 4 && TakePackets(Nothing(), [s[..4], s[4..]], k) == Some(1)
  {
    BareFacts(apex, bs);
    BareSerial(apex, bs, 1);
    BareSerial(apex, bs, |bs| - 1);
    FirstStepCuts(apex, BareZones(apex, bs), BareSoas(apex, bs), BareDeltas(apex, bs), k);
  }

  /** Forward steps once round the circle. */
  function Circle(): seq<seq<Byte>> {
    [[0, 0, 0, 5], [0, 0, 0, 7], [64, 0, 0, 7], [128, 0, 0, 7], [192, 0, 0, 7], [0, 0, 0, 6], [0, 0, 0, 7]]
  }

  ghost predicate AllForward(bs: seq<seq<Byte>>) {
    forall i {:trigger bs[i]} :: 0 < i < |bs| ==>
      |bs[i - 1]| == |bs[i]| == 4 && IxfrChain.CompareSerial(Number(bs[i - 1]), Number(bs[i])) < 0
  }

  lemma CircleForward() returns (bs: seq<seq<Byte>>)
    ensures bs == Circle() && AllForward(bs)
    ensures |bs| == 7 && (forall i :: 0 <= i < |bs| ==> |bs[i]| == 4) && Number(bs[0]) == 5 && Number(bs[1]) == Number(bs[6]) == 7
  {
    bs := Circle();
    var ns := [5, 7, 0x4000_0007, 0x8000_0007, 0xC000_0007, 6, 7];
    assert forall i {:trigger bs[i]} :: 0 <= i < 7 ==> |bs[i]| == 4 && Number(bs[i]) == ns[i];
    assert forall i {:trigger ns[i]} :: 0 < i < 7 ==> IxfrChain.CompareSerial(ns[i - 1], ns[i]) < 0;
  }

  lemma CircleStopsEarly(apex: Name, expired: bool) returns (bs: seq<seq<Byte>>)
    ensures bs == Circle() && AllForward(bs)
    ensures var k, s := Known(apex, Some(5), expired), Response(BareDeltas(apex, bs));
            && TakePackets(Nothing(), [s], k) == None
            && |s| > 4 && TakePackets(Nothing(), [s[..4], s[4..]], k) == Some(1)
  {
    bs := CircleForward();
    BareSerial(apex, bs, 0);
    BareSerial(apex, bs, 6);
    AgainStopsEarly(apex, bs, Known(apex, Some(5), expired));
  }

  lemma FirstStepCuts(apex: Name, vs: seq<set<Rr>>, soas: seq<Rr>, ds: seq<Delta>, k: Known)
    requires |ds| > 1 && History(apex, vs, soas, ds) && Asks(k, apex, soas) && AllShaped(ds) && |Response(ds)| <= MAX_ANCOUNT
    requires ds[0].del == [] && ds[0].add == [] && SerialOf(soas[1]) == SerialOf(soas[|ds|])
    ensures var s := Response(ds);
            && TakePackets(Nothing(), [s], k) == None
            && |s| > 4 && TakePackets(Nothing(), [s[..4], s[4..]], k) == Some(1)
  {
    var s, n := Response(ds), SerialOf(soas[|ds|]);
    assert ds[0].newsoa == soas[1] && ds[0].oldsoa == soas[0] && FirstAt(ds, 1, n);
    BodiesPrefix(ds, 1);
    assert ds[..1] == [ds[0]] && [ds[0]][1..] == [] && Bodies([ds[0]]) == Body(ds[0]);
    OneTaken(apex, vs, soas, ds, k, [s]);
    FlattenSplit(s, 4);
    OneTaken(apex, vs, soas, ds, k, [s[..4], s[4..]]);
    FirstFour(s[..4], ds[0], n);
  }

  lemma FirstFour(four: seq<Rr>, d: Delta, n: nat)
    requires |four| == 4 && Shaped(d) && NewSerial(d) == n && four[1] == d.oldsoa && four[2..] == Body(d)
    ensures Rising(four, 0, 0, n)
  {
    assert four[1..][1..] == Body(d) + [];
    RisingBody(d, [], 2, SerialOf(d.oldsoa), n);
    RisingBody(d, [], 2, 0, n);
  }

  /** The first packet alone, where the first version has the newest serial. */
  lemma OneTaken(apex: Name, vs: seq<set<Rr>>, soas: seq<Rr>, ds: seq<Delta>, k: Known, parts: seq<seq<Rr>>)
    requires ds != [] && History(apex, vs, soas, ds) && Asks(k, apex, soas) && AllShaped(ds) && FirstAt(ds, 1, SerialOf(soas[|ds|]))
    requires parts != [] && AllBounded(parts) && (parts == [Response(ds)] || Flatten(parts) == Response(ds))
    ensures TakePackets(Nothing(), parts, k) == Some(1) <==>
            |parts[0]| == LengthTo(ds, 1) && Rising(parts[0], 0, 0, SerialOf(soas[|ds|]))
    ensures |parts| == 1 && TakePackets(Nothing(), parts, k).Some? ==> TakePackets(Nothing(), parts, k) == Some(1)
  {
    var n, one := SerialOf(soas[|ds|]), parts[..1];
    if |parts| == 1 {
      assert parts[1..] == [] && Flatten(parts) == parts[0] + Flatten(parts[1..]) == parts[0];
    }
    assert one[0] == parts[0] && one[1..] == [];
    assert Flatten(one) == parts[0] + Flatten(one[1..]) == parts[0];
    assert AllRising(one[1..], |parts[0]|, n);
    CutDecides(apex, vs, soas, ds, k, parts, 1, 1);
  }
}
