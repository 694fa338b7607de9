/** The zone in memory while a transfer is applied to it: the loops and
    updates in place of difffile.c, proved against the state machine. */
module Applier {
  import opened Names
  import opened Records
  import opened Apply
  import opened Transfer

  class ZoneInMemory {
    const apex: Name
    var rrsets: Rrsets
    var isAxfr: bool
    var deleteMode: bool
    var rrCount: nat
    var softfail: bool

    constructor (apex: Name, rrsets: Rrsets)
      ensures this.apex == apex && State() == Start(rrsets)
    {
      this.apex := apex;
      this.rrsets := rrsets;
      isAxfr, deleteMode, rrCount, softfail := false, false, 0, false;
    }

    ghost function State(): Xfr
      reads this
    {
      Xfr(rrsets, isAxfr, deleteMode, rrCount, softfail)
    }

    static ghost function ReturnValue(o: Outcome): int {
      match o
      case Failed(_) => 0
      case Continue(_) => 1
      case SkipRest(_) => 2
    }

    /** `find_rr_num`. */
    static method FindRrNum(rrs: seq<Rr>, rr: Rr) returns (i: int)
      ensures i == FindRr(rrs, rr)
    {
      i := 0;
      while i < |rrs|
        invariant 0 <= i <= |rrs|
        invariant forall j :: 0 <= j < i ==> !Same(rrs[j], rr)
      {
        if Same(rrs[i], rr) {
          FindRrIs(rrs, rr, i);
          return;
        }
        i := i + 1;
      }
      i := -1;
    }

    /** `delete_RR`. */
    method DeleteRr(rr: Rr)
      modifies this`rrsets, this`softfail
      ensures rrsets == Delete(old(rrsets), apex, rr).zone
      ensures softfail == (old(softfail) || Delete(old(rrsets), apex, rr).softfail)
    {
      var key := (rr.owner, rr.typ);
      if key !in rrsets {
        softfail := true;
        return;
      }
      var rrs := rrsets[key];
      var rrnum := FindRrNum(rrs, rr);
      if rrnum == -1 && IsSoa(rr) && rr.owner == apex && |rrs| != 0 {
        rrnum := 0;
      }
      if rrnum == -1 {
        softfail := true;
        return;
      }
      if |rrs| == 1 {
        rrsets := rrsets - {key};
      } else {
        if rrnum < |rrs| - 1 {
          rrs := rrs[rrnum := rrs[|rrs| - 1]];
        }
        rrs := rrs[..|rrs| - 1];
        assert rrs == SwapOut(old(rrsets)[key], rrnum);
        rrsets := rrsets[key := rrs];
      }
    }

    /** `add_RR`; `ok` is false when the RRset is full. */
    method AddRr(rr: Rr) returns (ok: bool)
      modifies this`rrsets, this`softfail
      ensures ok <==> Add(old(rrsets), rr).Edited?
      ensures ok ==> rrsets == Add(old(rrsets), rr).zone && softfail == (old(softfail) || Add(old(rrsets), rr).softfail)
      ensures !ok ==> rrsets == old(rrsets) && softfail == old(softfail)
    {
      var key := (rr.owner, rr.typ);
      var rrs := if key in rrsets then rrsets[key] else [];
      var rrnum := FindRrNum(rrs, rr);
      if rrnum != -1 {
        softfail := true;
        return true;
      }
      if |rrs| == MAX_RR_COUNT {
        return false;
      }
      rrsets := rrsets[key := rrs + [rr]];
      return true;
    }

    /** `delete_zone_rrs`: from the apex to the end of its block of names, all
        RRsets of the zone go; RRsets at other names stay. */
    method DeleteZoneRrs()
      modifies this`rrsets
      ensures rrsets == Outside(old(rrsets), apex)
    {
      var visit := set key | key in rrsets && IsSubdomain(key.0, apex);
      while visit != {}
        invariant forall key :: key in visit ==> key in rrsets && IsSubdomain(key.0, apex)
        invariant Outside(rrsets, apex) == Outside(old(rrsets), apex)
        invariant forall key :: key in rrsets && IsSubdomain(key.0, apex) ==> key in visit
        decreases |visit|
      {
        var key :| key in visit;
        rrsets, visit := rrsets - {key}, visit - {key};
      }
    }

    /** The body of the loop in `apply_ixfr`: one record.  Returns 0 on a
        fatal error, 1 to go on, 2 to drop the rest of the transfer. */
    method ApplyRecord(rr: Rr, serialno: nat, final: bool) returns (ret: int)
      requires rrCount < 2 ==> !isAxfr && !deleteMode
      modifies this
      ensures var o := Step(old(State()), rr, Goal(apex, serialno), final);
              State() == o.x && ret == ReturnValue(o)
      ensures ret == 1 && rrCount < 2 ==> !isAxfr && !deleteMode
    {
      var axfr := false;
      if IsSoa(rr) {
        if !SoaShaped(rr.rdata) {
          return 0;
        }
        var serial := Serial(rr.rdata);
        if rrCount == 0 {
          if rr.klass != CLASS_IN || rr.owner != apex || serial != serialno {
            return 0;
          }
          rrCount := rrCount + 1;
          return 1;
        } else if rrCount == 1 {
          if serial == serialno {
            axfr := true;
          } else {
            deleteMode := true;
            if (apex, TYPE_SOA) !in rrsets {
              return 2;
            }
          }
        } else if !isAxfr {
          if final {
            deleteMode := false;
            rrCount := rrCount + 1;
            return 1;
          }
          deleteMode := !deleteMode;
        }
      } else if rrCount == 0 {
        return 0;
      } else if rrCount == 1 {
        axfr := true;
      }
      if axfr {
        isAxfr := true;
        DeleteZoneRrs();
      }
      if !IsPseudo(rr) {
        if deleteMode {
          DeleteRr(rr);
        } else {
          var ok := AddRr(rr);
          if !ok {
            return 0;
          }
        }
      }
      rrCount := rrCount + 1;
      return 1;
    }

    /** `apply_ixfr`: one part. */
    method ApplyIxfr(part: seq<Rr>, serialno: nat, seqNr: nat, seqTotal: nat) returns (ret: int)
      requires seqNr < seqTotal
      requires rrCount < 2 ==> !isAxfr && !deleteMode
      modifies this
      ensures |part| > MAX_ANCOUNT ==> ret == 0 && State() == old(State())
      ensures |part| <= MAX_ANCOUNT ==>
                var o := RunPart(old(State()), part, Goal(apex, serialno), seqNr == seqTotal - 1);
                State() == o.x && ret == ReturnValue(o)
      ensures ret == 1 && rrCount < 2 ==> !isAxfr && !deleteMode
    {
      if |part| > MAX_ANCOUNT {
        return 0;
      }
      ghost var g := Goal(apex, serialno);
      ghost var lastPart := seqNr == seqTotal - 1;
      ghost var outcome := RunPart(State(), part, g, lastPart);
      var i := 0;
      while i < |part|
        invariant 0 <= i <= |part|
        invariant outcome == RunPart(State(), part[i..], g, lastPart)
        invariant rrCount < 2 ==> !isAxfr && !deleteMode
      {
        assert part[i..][1..] == part[i + 1..];
        ret := ApplyRecord(part[i], serialno, i == |part| - 1 && seqNr == seqTotal - 1);
        if ret != 1 {
          return;
        }
        i := i + 1;
      }
      return 1;
    }

    /** The loop over the parts in `apply_ixfr_for_zone`. */
    method ApplyParts(parts: seq<seq<Rr>>, newSerial: nat) returns (ret: int)
      requires State() == Start(rrsets)
      modifies this
      ensures var o := RunParts(old(State()), parts, Goal(apex, newSerial));
              State() == o.x && ret == ReturnValue(o)
    {
      ghost var g := Goal(apex, newSerial);
      ghost var outcome := RunParts(State(), parts, g);
      var i := 0;
      while i < |parts|
        invariant 0 <= i <= |parts|
        invariant outcome == RunParts(State(), parts[i..], g)
        invariant rrCount < 2 ==> !isAxfr && !deleteMode
      {
        assert parts[i..][1..] == parts[i + 1..];
        ret := ApplyIxfr(parts[i], newSerial, i, |parts|);
        if ret != 1 {
          return;
        }
        i := i + 1;
      }
      return 1;
    }

    /** `check_for_bad_serial`. */
    predicate BadSerial(oldSerial: nat)
      reads this
    {
      && (apex, TYPE_SOA) in rrsets && rrsets[(apex, TYPE_SOA)] != []
      && oldSerial != 0 && SerialOf(rrsets[(apex, TYPE_SOA)][0]) != oldSerial
    }

    /** `apply_ixfr_for_zone`: a file without parts, or for another serial, is
        not applied; a transfer that cannot be applied cleanly is fatal. */
    method ApplyForZone(parts: seq<seq<Rr>>, oldSerial: nat, newSerial: nat) returns (ret: int)
      requires State() == Start(rrsets)
      modifies this
      ensures var o := RunParts(old(State()), parts, Goal(apex, newSerial));
              if parts == [] then ret == 0 && State() == old(State())
              else if old(BadSerial(oldSerial)) then ret == -2 && State() == old(State())
              else
                && State() == o.x
                && ret == if o.Failed? || (softfail && !isAxfr) then -1 else 1
    {
      if parts == [] {
        return 0;
      }
      if BadSerial(oldSerial) {
        return -2;
      }
      ret := ApplyParts(parts, newSerial);
      ret := if ret == 0 || (softfail && !isAxfr) then -1 else 1;
    }
  }
}
