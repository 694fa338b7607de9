/** The state machine of `apply_ixfr`, which reads the records of a transfer
    part by part, and its class form. */
module Transfer {
  import opened Names
  import opened Sequences
  import opened Records
  import opened Apply

  /** `ancount` above this is refused. */
  const MAX_ANCOUNT: nat := 65530

  /** What `apply_ixfr` keeps from one record, and one part, to the next. */
  datatype Xfr = Xfr(zone: Rrsets, isAxfr: bool, deleteMode: bool, rrCount: nat, softfail: bool)

  /** Return values 1 (go on), 2 (drop the rest) and 0 (fatal). */
  datatype Outcome = Continue(x: Xfr) | SkipRest(x: Xfr) | Failed(x: Xfr)

  /** The zone being updated and the serial announced for it. */
  datatype Goal = Goal(apex: Name, serialno: nat)

  function Start(z: Rrsets): Xfr {
    Xfr(z, false, false, 0, false)
  }

  function EditRr(x: Xfr, rr: Rr, g: Goal): Outcome {
    if IsPseudo(rr) then Continue(x.(rrCount := x.rrCount + 1))
    else
      match if x.deleteMode then Delete(x.zone, g.apex, rr) else Add(x.zone, rr)
      case Edited(z, sf) => Continue(x.(zone := z, softfail := x.softfail || sf, rrCount := x.rrCount + 1))
      case TooMany => Failed(x)
  }

  /** The second record shows a full transfer: the names of the zone are
      emptied first, from the apex down. */
  function StartAxfr(x: Xfr, apex: Name): Xfr {
    x.(isAxfr := true, zone := Outside(x.zone, apex))
  }

  /** One record; `final` marks the last record of the last part. */
  function Step(x: Xfr, rr: Rr, g: Goal, final: bool): Outcome {
    if IsSoa(rr) then
      if !SoaShaped(rr.rdata) then Failed(x)
      else if x.rrCount == 0 then
        if rr.klass != CLASS_IN || rr.owner != g.apex || Serial(rr.rdata) != g.serialno then Failed(x)
        else Continue(x.(rrCount := 1))
      else if x.rrCount == 1 then
        if Serial(rr.rdata) == g.serialno then EditRr(StartAxfr(x, g.apex), rr, g)
        else if (g.apex, TYPE_SOA) !in x.zone then SkipRest(x.(deleteMode := true))
        else EditRr(x.(deleteMode := true), rr, g)
      else if !x.isAxfr then
        if final then Continue(x.(deleteMode := false, rrCount := x.rrCount + 1))
        else EditRr(x.(deleteMode := !x.deleteMode), rr, g)
      else EditRr(x, rr, g)
    else if x.rrCount == 0 then Failed(x)
    else if x.rrCount == 1 then EditRr(StartAxfr(x, g.apex), rr, g)
    else EditRr(x, rr, g)
  }

  /** The records of a part, from its first. */
  function RunPart(x: Xfr, part: seq<Rr>, g: Goal, lastPart: bool): Outcome
    decreases |part|
  {
    if part == [] then Continue(x)
    else
      match Step(x, part[0], g, lastPart && |part| == 1)
      case Continue(y) => RunPart(y, part[1..], g, lastPart)
      case other => other
  }

  function RunParts(x: Xfr, parts: seq<seq<Rr>>, g: Goal): Outcome
    decreases |parts|
  {
    if parts == [] then Continue(x)
    else if |parts[0]| > MAX_ANCOUNT then Failed(x)
    else
      match RunPart(x, parts[0], g, |parts| == 1)
      case Continue(y) => RunParts(y, parts[1..], g)
      case other => other
  }

  // ----- packet boundaries do not matter

  ghost predicate Cut<T>(parts: seq<seq<T>>) {
    && parts != []
    && parts[|parts| - 1] != []
    && forall i :: 0 <= i < |parts| ==> |parts[i]| <= MAX_ANCOUNT
  }

  lemma {:induction false} RunPartSplit(x: Xfr, a: seq<Rr>, b: seq<Rr>, g: Goal, lastPart: bool)
    requires b != []
    ensures RunPart(x, a + b, g, lastPart) ==
            match RunPart(x, a, g, false)
            case Continue(y) => RunPart(y, b, g, lastPart)
            case other => other
    decreases |a|
  {
    if a == [] {
      assert a + b == b;
    } else {
      assert (a + b)[1..] == a[1..] + b;
      match Step(x, a[0], g, false) {
        case Continue(y) => RunPartSplit(y, a[1..], b, g, lastPart);
        case _ =>
      }
    }
  }

  /** However a transfer is cut into parts, as long as the last part is not
      empty, the outcome is that of one single part. */
  lemma {:induction false} PartsDoNotMatter(x: Xfr, parts: seq<seq<Rr>>, g: Goal)
    requires Cut(parts)
    ensures RunParts(x, parts, g) == RunPart(x, Flatten(parts), g, true)
    decreases |parts|
  {
    if |parts| == 1 {
      assert Flatten(parts) == parts[0] + Flatten([]) == parts[0];
      match RunPart(x, parts[0], g, true) {
        case Continue(y) => assert RunParts(y, [], g) == Continue(y);
        case _ =>
      }
    } else {
      assert parts[1..][|parts| - 2] == parts[|parts| - 1];
      FlattenNonEmpty(parts[1..]);
      RunPartSplit(x, parts[0], Flatten(parts[1..]), g, true);
      match RunPart(x, parts[0], g, false) {
        case Continue(y) => PartsDoNotMatter(y, parts[1..], g);
        case _ =>
      }
    }
  }

  /** With an empty last part no record is taken for the final one. */
  lemma {:induction false} EmptyLastPart(x: Xfr, parts: seq<seq<Rr>>, g: Goal)
    requires parts != [] && parts[|parts| - 1] == []
    requires forall i :: 0 <= i < |parts| ==> |parts[i]| <= MAX_ANCOUNT
    ensures RunParts(x, parts, g) == RunPart(x, Flatten(parts), g, false)
    decreases |parts|
  {
    if |parts| == 1 {
      assert Flatten(parts) == parts[0] + Flatten([]) == [];
      assert RunParts(x, [], g) == Continue(x);
    } else {
      var rest := parts[1..];
      assert rest[|rest| - 1] == parts[|parts| - 1];
      RunPartJoin(x, parts[0], Flatten(rest), g);
      match RunPart(x, parts[0], g, false) {
        case Continue(y) => EmptyLastPart(y, rest, g);
        case _ =>
      }
    }
  }

  lemma RunPartJoin(x: Xfr, a: seq<Rr>, b: seq<Rr>, g: Goal)
    ensures RunPart(x, a + b, g, false) ==
            match RunPart(x, a, g, false)
            case Continue(y) => RunPart(y, b, g, false)
            case other => other
  {
    if b == [] {
      assert a + b == a;
    } else {
      RunPartSplit(x, a, b, g, false);
    }
  }
}
