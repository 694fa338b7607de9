/** What a reply does to a secondary: the packets are checked, and applied when
    the transfer is complete. */
module Arrival {
  import opened Names
  import opened Sequences
  import opened Records
  import opened Apply
  import opened Transfer
  import opened TransferResults
  import opened XfrCheck
  import opened XfrCheckResults

  /** However the records that lead from version `i` to version `m` are cut into
      packets, applying them to version `i` gives exactly version `m`, without
      soft failure and without reaching the RRset limit.  The first record
      only has to have the same serial as version `m`. */
  lemma MovesToVersion(z: Rrsets, vs: seq<set<Rr>>, soas: seq<Rr>, ds: seq<Delta>, i: nat, m: nat, g: Goal, first: Rr, parts: seq<seq<Rr>>)
    requires History(g.apex, vs, soas, ds) && i < m <= |ds| && Valid(z) && Contents(z) == vs[i]
    requires ZoneSoa(first, g.apex) && g.serialno == Serial(first.rdata) != SerialOf(soas[i])
    requires Flatten(parts) == [first, soas[i]] + Bodies(ds[i..m]) && forall j :: 0 <= j < |parts| ==> |parts[j]| <= MAX_ANCOUNT
    requires parts != [] && parts[|parts| - 1] != []
    ensures var o := RunParts(Start(z), parts, g);
            o.Continue? && !o.x.softfail && Valid(o.x.zone) && Contents(o.x.zone) == vs[m]
  {
    PartsDoNotMatter(Start(z), parts, g);
    HistoryBetween(g.apex, vs, soas, ds, i, m);
    CollatedApplies(z, first, vs[i..m + 1], soas[i..m + 1], ds[i..m], g, true);
  }

  lemma HistoryBetween(apex: Name, vs: seq<set<Rr>>, soas: seq<Rr>, ds: seq<Delta>, i: nat, m: nat)
    requires History(apex, vs, soas, ds) && i < m <= |ds|
    ensures History(apex, vs[i..m + 1], soas[i..m + 1], ds[i..m])
    ensures vs[i..m + 1][0] == vs[i] && vs[i..m + 1][m - i] == vs[m]
    ensures soas[i..m + 1][0] == soas[i] && ds[i..m][0].oldsoa == soas[i] && SoaShaped(soas[i].rdata)
  {
    assert IsZone(vs[i], apex, soas[i]);
  }

  /** However the response for version `i` is cut into packets, applying all of
      it to version `i` gives exactly the newest version. */
  lemma MovesToNewest(z: Rrsets, vs: seq<set<Rr>>, soas: seq<Rr>, ds: seq<Delta>, i: nat, g: Goal, parts: seq<seq<Rr>>)
    requires History(g.apex, vs, soas, ds) && i < |ds|
    requires Valid(z) && Contents(z) == vs[i]
    requires g.serialno == Serial(soas[|ds|].rdata) != Serial(soas[i].rdata)
    requires Flatten(parts) == Response(ds[i..]) && forall j :: 0 <= j < |parts| ==> 0 < |parts[j]| <= MAX_ANCOUNT
    ensures var o := RunParts(Start(z), parts, g);
            o.Continue? && !o.x.softfail && Valid(o.x.zone) && Contents(o.x.zone) == vs[|ds|]
  {
    assert parts != [] by {
      assert |Response(ds[i..])| > 0;
    }
    assert IsZone(vs[|ds|], g.apex, soas[|ds|]);
    assert ds[i..|ds|] == ds[i..];
    MovesToVersion(z, vs, soas, ds, i, |ds|, g, soas[|ds|], parts);
  }

  /** Of all ways to cut the response, exactly those with a record in the last
      packet are applied in full: after an empty last packet the zone is left
      without its SOA record. */
  lemma LastPacketDecides(z: Rrsets, vs: seq<set<Rr>>, soas: seq<Rr>, ds: seq<Delta>, g: Goal, parts: seq<seq<Rr>>)
    requires ds != [] && History(g.apex, vs, soas, ds) && Valid(z) && Contents(z) == vs[0]
    requires g.serialno == Serial(soas[|ds|].rdata) != Serial(soas[0].rdata)
    requires Flatten(parts) == Response(ds) && forall j :: 0 <= j < |parts| ==> |parts[j]| <= MAX_ANCOUNT
    ensures var o := RunParts(Start(z), parts, g);
            && o.Continue? && parts != []
            && (Contents(o.x.zone) == vs[|ds|] <==> parts[|parts| - 1] != [])
            && (parts[|parts| - 1] == [] ==> Contents(o.x.zone) == vs[|ds|] - {soas[|ds|]})
  {
    assert parts != [] by {
      assert |Response(ds)| > 0;
    }
    var whole := parts[|parts| - 1] != [];
    if whole {
      PartsDoNotMatter(Start(z), parts, g);
    } else {
      EmptyLastPart(Start(z), parts, g);
    }
    ResponseApplies(z, vs, soas, ds, g, whole);
    assert soas[|ds|] in vs[|ds|];
  }

  lemma HistoryFrom(apex: Name, vs: seq<set<Rr>>, soas: seq<Rr>, ds: seq<Delta>, i: nat)
    requires History(apex, vs, soas, ds) && i <= |ds|
    ensures History(apex, vs[i..], soas[i..], ds[i..])
    ensures vs[i..][0] == vs[i] && vs[i..][|ds| - i] == vs[|ds|]
    ensures soas[i..][0] == soas[i] && soas[i..][|ds| - i] == soas[|ds|]
  {
  }

  /** The first version after `i` with the newest serial. */
  ghost predicate FirstNewest(soas: seq<Rr>, i: nat, m: nat) {
    && i < m < |soas| && SerialOf(soas[m]) == SerialOf(soas[|soas| - 1])
    && forall k :: i < k < m ==> SerialOf(soas[k]) != SerialOf(soas[|soas| - 1])
  }

  /** Some packet ends where that version ends, and in no packet so far a
      serial falls or passes the newest. */
  ghost predicate Passes(parts: seq<seq<Rr>>, length: nat, serial: nat) {
    exists j :: 0 < j <= |parts| && |Flatten(parts[..j])| == length && AllRising(parts[..j], 0, serial)
  }

  /** The packets are taken exactly if they pass, and then lead to contents `w`. */
  ghost predicate Arrives(z: Rrsets, apex: Name, w: set<Rr>, k: Known, parts: seq<seq<Rr>>, length: nat, serial: nat) {
    var n := TakePackets(Nothing(), parts, k);
    && (n.Some? <==> Passes(parts, length, serial))
    && (n.Some? ==>
          && parts[0] != [] && SerialOf(parts[0][0]) == serial
          && var o := RunParts(Start(z), parts[..n.value], Goal(apex, SerialOf(parts[0][0])));
             o.Continue? && !o.x.softfail && Contents(o.x.zone) == w)
  }

  lemma FirstVersion(apex: Name, vs: seq<set<Rr>>, soas: seq<Rr>, ds: seq<Delta>, i: nat) returns (m: nat)
    requires History(apex, vs, soas, ds) && i < |ds|
    ensures FirstNewest(soas, i, m) && AllShaped(ds[i..]) && FirstAt(ds[i..], m - i, SerialOf(soas[|ds|]))
  {
    HistoryFrom(apex, vs, soas, ds, i);
    HistoryShaped(apex, vs[i..], soas[i..], ds[i..]);
    var n := FindFirst(ds[i..], SerialOf(soas[|ds|]));
    m := i + n;
    forall k | i < k < m
      ensures SerialOf(soas[k]) != SerialOf(soas[|ds|])
    {
      assert ds[i..][k - i - 1].newsoa == soas[k];
    }
    assert ds[i..][n - 1].newsoa == soas[m];
  }

  /** The check, for each number of packets. */
  lemma PassesDecides(apex: Name, vs: seq<set<Rr>>, soas: seq<Rr>, ds: seq<Delta>, k: Known, parts: seq<seq<Rr>>, m: nat)
    requires ds != [] && History(apex, vs, soas, ds) && Asks(k, apex, soas)
    requires AllShaped(ds) && FirstAt(ds, m, SerialOf(soas[|ds|]))
    requires Flatten(parts) == Response(ds) && forall j :: 0 <= j < |parts| ==> 0 < |parts[j]| <= MAX_ANCOUNT
    ensures var n := TakePackets(Nothing(), parts, k);
            && (n.Some? <==> Passes(parts, LengthTo(ds, m), SerialOf(soas[|ds|])))
            && (n.Some? ==> |Flatten(parts[..n.value])| == LengthTo(ds, m))
  {
    var n := TakePackets(Nothing(), parts, k);
    if n.Some? {
      CutDecides(apex, vs, soas, ds, k, parts, m, n.value);
    }
    if Passes(parts, LengthTo(ds, m), SerialOf(soas[|ds|])) {
      var j :| 0 < j <= |parts| && |Flatten(parts[..j])| == LengthTo(ds, m) && AllRising(parts[..j], 0, SerialOf(soas[|ds|]));
      CutDecides(apex, vs, soas, ds, k, parts, m, j);
    }
  }

  /** What is taken leads to the first version with the newest serial. */
  lemma TakenLeads(z: Rrsets, apex: Name, vs: seq<set<Rr>>, soas: seq<Rr>, ds: seq<Delta>, parts: seq<seq<Rr>>, m: nat, j: nat)
    requires ds != [] && History(apex, vs, soas, ds) && Valid(z) && Contents(z) == vs[0] && SerialOf(soas[0]) != SerialOf(soas[|ds|])
    requires AllShaped(ds) && FirstAt(ds, m, SerialOf(soas[|ds|]))
    requires Flatten(parts) == Response(ds) && forall j :: 0 <= j < |parts| ==> 0 < |parts[j]| <= MAX_ANCOUNT
    requires 0 < j <= |parts| && |Flatten(parts[..j])| == LengthTo(ds, m)
    ensures SerialOf(parts[0][0]) == SerialOf(soas[|ds|])
    ensures var o := RunParts(Start(z), parts[..j], Goal(apex, SerialOf(parts[0][0])));
            o.Continue? && !o.x.softfail && Contents(o.x.zone) == vs[m]
  {
    var newest, oldest := soas[|ds|], soas[0];
    assert IsZone(vs[|ds|], apex, newest) && IsZone(vs[0], apex, oldest);
    FlattenPrefix(parts, j);
    ClosesAt(ds, m, SerialOf(newest), LengthTo(ds, m));
    assert Response(ds)[..2] == [newest, oldest] && ds[0..m] == ds[..m];
    assert parts[0][0] == Flatten(parts)[0];
    MovesToVersion(z, vs, soas, ds, 0, m, Goal(apex, SerialOf(newest)), newest, parts[..j]);
  }

  /** The same for the oldest version. */
  lemma ReplyArrives(z: Rrsets, apex: Name, vs: seq<set<Rr>>, soas: seq<Rr>, ds: seq<Delta>, k: Known, parts: seq<seq<Rr>>, m: nat)
    requires ds != [] && History(apex, vs, soas, ds) && Asks(k, apex, soas) && Valid(z) && Contents(z) == vs[0]
    requires AllShaped(ds) && FirstAt(ds, m, SerialOf(soas[|ds|]))
    requires Flatten(parts) == Response(ds) && forall j :: 0 <= j < |parts| ==> 0 < |parts[j]| <= MAX_ANCOUNT
    ensures Arrives(z, apex, vs[m], k, parts, LengthTo(ds, m), SerialOf(soas[|ds|]))
    ensures Steady(Serials(soas)) ==> TakePackets(Nothing(), parts, k).Some? && m == |ds|
  {
    PassesDecides(apex, vs, soas, ds, k, parts, m);
    var n := TakePackets(Nothing(), parts, k);
    if n.Some? {
      TakenLeads(z, apex, vs, soas, ds, parts, m, n.value);
    }
    if Steady(Serials(soas)) {
      assert parts != [] by {
        assert |Response(ds)| > 0;
      }
      SteadyArrives(apex, vs, soas, ds, k, parts);
    }
  }

  /** What the packets of the response do to version `i`: they are taken exactly
      if they pass, and then lead to the first version with the newest serial;
      if the serials are steady, that is the newest version, however the
      response is cut. */
  lemma ResponseArrives(z: Rrsets, apex: Name, vs: seq<set<Rr>>, soas: seq<Rr>, ds: seq<Delta>, i: nat, k: Known, parts: seq<seq<Rr>>)
    returns (m: nat)
    requires History(apex, vs, soas, ds) && i < |ds| && Valid(z) && Contents(z) == vs[i]
    requires Asks(k, apex, soas[i..]) && Flatten(parts) == Response(ds[i..])
    requires forall j :: 0 <= j < |parts| ==> 0 < |parts[j]| <= MAX_ANCOUNT
    ensures FirstNewest(soas, i, m) && Arrives(z, apex, vs[m], k, parts, LengthTo(ds[i..], m - i), SerialOf(soas[|ds|]))
    ensures Steady(Serials(soas[i..])) ==> TakePackets(Nothing(), parts, k).Some? && m == |ds|
  {
    m := FirstVersion(apex, vs, soas, ds, i);
    HistoryFrom(apex, vs, soas, ds, i);
    var vs', soas', ds' := vs[i..], soas[i..], ds[i..];
    assert vs'[m - i] == vs[m] && soas'[|ds'|] == soas[|ds|];
    ReplyArrives(z, apex, vs', soas', ds', k, parts, m - i);
  }
}
