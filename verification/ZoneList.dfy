/** The zone list file as a store of slots: added lines, deleted lines that are
    reused by length, and compaction (options.c). */
module ZoneList {
  import opened Sequences
  import opened ZoneListText
  import opened ZoneListRead

  const HEADER := "# NSD zone list\n# name pattern\n"

  /** The free buckets: for each line length the positions, last freed first. */
  type Buckets = map<nat, seq<nat>>

  /** The buckets hold exactly the deleted lines, each once. */
  ghost predicate BucketsHold(free: Buckets, dead: set<(nat, nat)>) {
    && (forall l :: l in free ==> free[l] != [] && Distinct(free[l]))
    && (forall l, o :: (l, o) in dead <==> l in free && o in free[l])
  }

  lemma BucketInsert(free: Buckets, dead: set<(nat, nat)>, l: nat, o: nat)
    requires BucketsHold(free, dead) && (l, o) !in dead
    ensures BucketsHold(Insert(free, l, o), dead + {(l, o)})
  {
  }

  lemma BucketTake(free: Buckets, dead: set<(nat, nat)>, l: nat)
    requires BucketsHold(free, dead) && l in free
    ensures (l, free[l][0]) in dead
    ensures BucketsHold(Untake(free, l), dead - {(l, free[l][0])})
  {
    var o, rest := free[l][0], free[l][1..];
    assert o in free[l];
    assert o !in rest;
    assert free[l] == [o] + rest;
  }

  /** The zones and the buckets are those of the slots. */
  ghost predicate Indexed(start: nat, slots: seq<Slot>, zones: map<Key, Zone>, free: Buckets, n: nat, key: Keys) {
    && Uniq(slots, key) && zones == ZonesAt(slots, start, key)
    && BucketsHold(free, FreeAt(slots, start)) && n == DeadCount(slots)
  }

  function Untake(free: Buckets, l: nat): Buckets
    requires l in free && free[l] != []
  {
    if |free[l]| == 1 then free - {l} else free[l := free[l][1..]]
  }

  function Insert(free: Buckets, l: nat, o: nat): Buckets {
    free[l := [o] + if l in free then free[l] else []]
  }

  class ZoneListFile {
    /** The name that a text stands for, which names and patterns can become
        zones, and the names that come from the configuration instead. */
    const key: Keys
    const accept: (string, string) -> bool
    const config: set<Key>
    /** The first lines of the file, and how its other lines are read. */
    const header: string
    ghost const reader: Reader
    var isOpen: bool
    var file: string
    var off: nat
    var zones: map<Key, Zone>
    var free: Buckets
    var freeNumber: nat
    ghost var slots: seq<Slot>

    /** The slots tile the file; the live ones are the zones, and the others are
        in the buckets. */
    ghost predicate Valid()
      reads this
    {
      && (isOpen ==> off == |file| && file == header + Text(slots))
      && (!isOpen ==> off == 0 && slots == [])
      && Indexed(|header|, slots, zones, free, freeNumber, key)
    }

    /** Every line is one line, and every zone was accepted. */
    ghost predicate Clean()
      reads this
    {
      AllOneLine(slots) && forall n :: n in zones ==> accept(zones[n].name, zones[n].pattern) && n !in config
    }

    /** No more free lines than zones. */
    ghost predicate Compacted()
      reads this
    {
      freeNumber <= |zones| + |config|
    }

    constructor (key: Keys, accept: (string, string) -> bool, config: set<Key>)
      ensures Valid() && Clean() && Compacted() && zones == map[]
      ensures this.key == key && this.accept == accept && this.config == config
      ensures header == HEADER && reader == FileReader() && !isOpen && free == map[]
    {
      this.key, this.accept, this.config, header := key, accept, config, HEADER;
      reader := FileReader();
      isOpen, file, off, zones, free, freeNumber, slots := false, "", 0, map[], map[], 0, [];
    }

    // ----- adding

    /** Create the file with its first line. */
    method AddFirst(s: Slot)
      requires Valid() && !isOpen && s.live
      modifies this
      ensures Valid() && isOpen && slots == [s] && zones == map[key(s.name) := Zone(s.name, s.pattern, Size(s), |header|)]
      ensures freeNumber == 0
    {
      file := header + LineOf(s);
      isOpen := true;
      off := |file|;
      Append(slots, |header|, s, key);
      TextAppend(slots, s);
      assert "" + LineOf(s) == LineOf(s);
      zones := zones[key(s.name) := Zone(s.name, s.pattern, Size(s), |header|)];
      assert slots + [s] == [s];
      slots := [s];
    }

    /** No line of that length is free: append. */
    method AddLast(s: Slot)
      requires Valid() && isOpen && s.live && key(s.name) !in zones
      modifies this`file, this`off, this`zones, this`slots
      ensures Valid() && slots == old(slots) + [s]
      ensures zones == old(zones)[key(s.name) := Zone(s.name, s.pattern, Size(s), old(off))]
    {
      AppendStep(header, slots, zones, free, freeNumber, s, key);
      file := file + LineOf(s);
      zones := zones[key(s.name) := Zone(s.name, s.pattern, Size(s), off)];
      off := off + Size(s);
      slots := slots + [s];
    }

    /** Take the last freed line of that length. */
    method AddReuse(s: Slot)
      requires Valid() && isOpen && s.live && key(s.name) !in zones && Size(s) in free
      modifies this`file, this`zones, this`free, this`freeNumber, this`slots
      ensures Valid() && |file| == |old(file)| && freeNumber == old(freeNumber) - 1
      ensures old(AllOneLine(slots)) && OneLine(s) ==> AllOneLine(slots)
      ensures zones == old(zones)[key(s.name) := Zone(s.name, s.pattern, Size(s), old(free)[Size(s)][0])]
    {
      var l, o := Size(s), free[Size(s)][0];
      ghost var i := ReuseStep(header, slots, zones, free, freeNumber, s, key);
      file := WriteAt(file, o, LineOf(s));
      zones := zones[key(s.name) := Zone(s.name, s.pattern, l, o)];
      free := Untake(free, l);
      freeNumber := freeNumber - 1;
      slots := slots[i := s];
    }

    /** `zone_list_add_or_cat` for a zone that is no catalog member. */
    method Add(name: string, pattern: string) returns (ok: bool)
      requires Valid() && Clean() && OneLine(Slot(true, name, pattern))
      modifies this
      ensures Valid() && Clean()
      ensures ok <==> accept(name, pattern) && key(name) !in old(zones) && key(name) !in config
      ensures !ok ==> unchanged(this)
      ensures ok ==> zones.Keys == old(zones).Keys + {key(name)}
      ensures ok ==> zones[key(name)].name == name && zones[key(name)].pattern == pattern
      ensures ok ==> forall n :: n in old(zones) ==> zones[n] == old(zones)[n]
      ensures old(Compacted()) ==> Compacted()
    {
      if !accept(name, pattern) || key(name) in zones || key(name) in config {
        return false;
      }
      Place(Slot(true, name, pattern));
      MoreZones(old(zones), zones, key(name));
      ok := true;
    }

    /** Use a free line, append to the file, or create it. */
    method Place(s: Slot)
      requires Valid() && s.live && key(s.name) !in zones && OneLine(s) && AllOneLine(slots)
      modifies this
      ensures Valid() && AllOneLine(slots) && freeNumber <= old(freeNumber)
      ensures key(s.name) in zones && zones[key(s.name)].name == s.name && zones[key(s.name)].pattern == s.pattern
      ensures zones == old(zones)[key(s.name) := zones[key(s.name)]]
    {
      if !isOpen {
        AddFirst(s);
      } else if Size(s) !in free {
        OneLineAppend(slots, s);
        AddLast(s);
      } else {
        AddReuse(s);
      }
    }

    // ----- deleting

    /** The part of `zone_list_del` before compaction. */
    method Free(name: Key)
      requires Valid() && name in zones
      modifies this`file, this`zones, this`free, this`freeNumber, this`slots
      ensures Valid() && zones == old(zones) - {name} && freeNumber == old(freeNumber) + 1
      ensures isOpen ==> |file| == |old(file)|
      ensures old(AllOneLine(slots)) ==> AllOneLine(slots)
    {
      var zone := zones[name];
      ghost var i := FreeStep(header, slots, zones, free, freeNumber, name, key);
      file := WriteAt(file, zone.off, "del");
      free := Insert(free, zone.linesize, zone.off);
      freeNumber := freeNumber + 1;
      zones := zones - {name};
      slots := slots[i := slots[i].(live := false)];
    }

    /** `zone_list_del`. */
    method Del(name: Key)
      requires Valid() && Clean() && name in zones
      modifies this
      ensures Valid() && Clean() && Compacted()
      ensures zones.Keys == old(zones).Keys - {name}
      ensures forall n :: n in zones ==> zones[n].name == old(zones)[n].name && zones[n].pattern == old(zones)[n].pattern
    {
      Free(name);
      if freeNumber > |zones| + |config| {
        Compact();
      }
    }

    // ----- reading

    ghost function Accepted(): (string, string) -> bool {
      (n, p) => accept(n, p) && key(n) !in config
    }

    /** `parse_zone_list_file` on a file that is there. */
    method ParseFile(text: string) returns (ok: bool)
      requires !isOpen && zones == map[] && free == map[] && freeNumber == 0 && ReadsFile(reader)
      modifies this
      ensures ok <==> header <= text
      ensures ok ==> isOpen && file == text && off == |text| && slots == old(slots)
      ensures ok ==> var es := Entries(reader, text[|header|..], |header|);
                     && zones == Install(es, map[], Accepted(), key)
                     && BucketsHold(free, FreeIn(es)) && freeNumber == DelCount(es)
    {
      if |text| < |header| || text[..|header|] != header {
        return false;
      }
      var pos := |header|;
      ghost var all, dead := Entries(reader, text[pos..], pos), {};
      ghost var rest := all;
      while pos < |text|
        invariant |header| <= pos <= |text| && slots == old(slots) && rest == Entries(reader, text[pos..], pos)
        invariant Reading(all, rest, pos, zones, free, dead, freeNumber, Accepted(), key)
      {
        var next, e;
        next, e, rest := NextEntry(text, pos);
        dead := TakeEntry(e, all, rest, pos, next, dead);
        pos := next;
      }
      assert text[pos..] == "";
      assert dead + {} == dead;
      isOpen, file, off := true, text, |text|;
      ok := true;
    }

    /** One line of the file: `fgets`, and what the line says. */
    method NextEntry(text: string, pos: nat) returns (next: nat, e: Option<Entry>, ghost rest: seq<Entry>)
      requires pos < |text| && ReadsFile(reader)
      ensures pos < next <= |text| && rest == Entries(reader, text[next..], next)
      ensures Entries(reader, text[pos..], pos) == Found(e) + rest && (e.Some? ==> e.value.off == pos)
    {
      var n := Fgets(text[pos..], reader);
      var line := text[pos..][..n];
      next := pos + n;
      rest := Entries(reader, text[next..], next);
      assert text[pos..][n..] == text[next..];
      EntriesAt(reader, text[pos..], line, text[next..], pos);
      e := ParseLine(line, pos, reader);
    }

    /** Install one entry. */
    method TakeEntry(e: Option<Entry>, ghost all: seq<Entry>, ghost rest: seq<Entry>, ghost pos: nat, ghost pos': nat,
                     ghost dead: set<(nat, nat)>) returns (ghost dead': set<(nat, nat)>)
      requires Reading(all, Found(e) + rest, pos, zones, free, dead, freeNumber, Accepted(), key) && pos < pos'
      requires e.Some? ==> e.value.off == pos
      modifies this`zones, this`free, this`freeNumber
      ensures Reading(all, rest, pos', zones, free, dead', freeNumber, Accepted(), key)
    {
      dead' := dead;
      if e.None? {
        ReadNothing(all, rest, pos, pos', zones, free, dead, freeNumber, Accepted(), key);
        return;
      }
      var z := e.value;
      if z.Add? {
        ReadAdd(all, z, rest, pos, pos', zones, free, dead, freeNumber, Accepted(), key);
        if key(z.name) !in zones && accept(z.name, z.pattern) && key(z.name) !in config {
          zones := zones[key(z.name) := Zone(z.name, z.pattern, z.size, z.off)];
        }
      } else {
        ReadDel(all, z, rest, pos, pos', zones, free, dead, freeNumber, Accepted(), key);
        free := Insert(free, z.size, z.off);
        freeNumber := freeNumber + 1;
        dead' := dead + {(z.size, z.off)};
      }
    }

    // ----- compacting

    /** `zone_list_compact`: a new file with the zones alone. */
    method Compact()
      requires Valid() && isOpen && AllOneLine(slots)
      modifies this`file, this`off, this`zones, this`free, this`freeNumber, this`slots
      ensures Valid() && AllOneLine(slots) && freeNumber == 0 && FreeAt(slots, |header|) == {}
      ensures zones.Keys == old(zones).Keys
      ensures forall n :: n in zones ==> zones[n].name == old(zones)[n].name && zones[n].pattern == old(zones)[n].pattern
    {
      var out, rest := header, zones.Keys;
      var moved: map<Key, Zone> := map[];
      ghost var packed: seq<Slot> := [];
      while rest != {}
        invariant rest <= zones.Keys && zones == old(zones) && slots == old(slots)
        invariant Packed(header, packed, out, moved, key) && moved.Keys == zones.Keys - rest
        invariant forall n :: n in moved ==> moved[n].name == zones[n].name && moved[n].pattern == zones[n].pattern
        decreases rest
      {
        ghost var some := AMember(rest);
        var n :| n in rest;
        ghost var i := FindLive(slots, |header|, n, key);
        AllOneLineAt(slots, i);
        var s := Slot(true, zones[n].name, zones[n].pattern);
        PackOne(header, packed, out, moved, s, key);
        moved := moved[n := Zone(s.name, s.pattern, Size(s), |out|)];
        out := out + LineOf(s);
        packed := packed + [s];
        rest := rest - {n};
      }
      file, off, zones, free, freeNumber, slots := out, |out|, moved, map[], 0, packed;
    }
  }

  // ----- reading the file

  /** What is still to be read, and what has been installed, make up the whole. */
  ghost predicate Reading(all: seq<Entry>, rest: seq<Entry>, pos: nat, zones: map<Key, Zone>, free: Buckets,
                          dead: set<(nat, nat)>, n: nat, accept: (string, string) -> bool, key: Keys) {
    && Install(all, map[], accept, key) == Install(rest, zones, accept, key)
    && BucketsHold(free, dead) && FreeIn(all) == dead + FreeIn(rest) && DelCount(all) == n + DelCount(rest)
    && forall x :: x in dead ==> x.1 < pos
  }

  lemma ReadNothing(all: seq<Entry>, rest: seq<Entry>, pos: nat, pos': nat, zones: map<Key, Zone>, free: Buckets,
                    dead: set<(nat, nat)>, n: nat, accept: (string, string) -> bool, key: Keys)
    requires Reading(all, [] + rest, pos, zones, free, dead, n, accept, key) && pos <= pos'
    ensures Reading(all, rest, pos', zones, free, dead, n, accept, key)
  {
    assert [] + rest == rest;
  }

  lemma ReadAdd(all: seq<Entry>, e: Entry, rest: seq<Entry>, pos: nat, pos': nat, zones: map<Key, Zone>, free: Buckets,
                dead: set<(nat, nat)>, n: nat, accept: (string, string) -> bool, key: Keys)
    requires Reading(all, [e] + rest, pos, zones, free, dead, n, accept, key) && pos <= pos' && e.Add?
    ensures var zones' := if key(e.name) !in zones && accept(e.name, e.pattern) then zones[key(e.name) := Zone(e.name, e.pattern, e.size, e.off)]
                          else zones;
            Reading(all, rest, pos', zones', free, dead, n, accept, key)
  {
    assert ([e] + rest)[1..] == rest;
    FreeCons(e, rest);
  }

  lemma ReadDel(all: seq<Entry>, e: Entry, rest: seq<Entry>, pos: nat, pos': nat, zones: map<Key, Zone>, free: Buckets,
                dead: set<(nat, nat)>, n: nat, accept: (string, string) -> bool, key: Keys)
    requires Reading(all, [e] + rest, pos, zones, free, dead, n, accept, key) && pos < pos' && e.Del? && e.off == pos
    ensures Reading(all, rest, pos', zones, Insert(free, e.size, e.off), dead + {(e.size, e.off)}, n + 1, accept, key)
  {
    assert ([e] + rest)[1..] == rest;
    FreeCons(e, rest);
    BucketInsert(free, dead, e.size, e.off);
  }

  /** A file that reads back as its slots has the index of its slots. */
  lemma IndexOfSlots(start: nat, slots: seq<Slot>, zones: map<Key, Zone>, free: Buckets, n: nat, accept: (string, string) -> bool, key: Keys)
    requires var es := Entries(FileReader(), Text(slots), start);
             zones == Install(es, map[], accept, key) && BucketsHold(free, FreeIn(es)) && n == DelCount(es)
    requires AllOneLine(slots) && AllReadable(slots) && Uniq(slots, key)
    requires forall s :: s in slots && s.live ==> accept(s.name, s.pattern)
    ensures Indexed(start, slots, zones, free, n, key)
  {
    ReadsBack(slots, start);
    InstallSlots(slots, start, map[], accept, key);
    assert map[] + ZonesAt(slots, start, key) == ZonesAt(slots, start, key);
    FreeOfSlots(slots, start);
    DelCountOfSlots(slots, start);
  }

  // ----- steps

  lemma FreeStep(header: string, slots: seq<Slot>, zones: map<Key, Zone>, free: Buckets, n: nat, name: Key, key: Keys)
    returns (i: nat)
    requires Indexed(|header|, slots, zones, free, n, key) && name in zones
    ensures i < |slots|
    ensures var z, slots' := zones[name], slots[i := slots[i].(live := false)];
            && Indexed(|header|, slots', zones - {name}, Insert(free, z.linesize, z.off), n + 1, key)
            && z.off + 3 <= |header + Text(slots)|
            && WriteAt(header + Text(slots), z.off, "del") == header + Text(slots')
            && (AllOneLine(slots) ==> AllOneLine(slots'))
  {
    i := FindLive(slots, |header|, name, key);
    Kill(slots, |header|, i, key);
    KillText(header, slots, i);
    NotYetFree(slots, |header|, i);
    BucketInsert(free, FreeAt(slots, |header|), zones[name].linesize, zones[name].off);
    OneLineUpdate(slots, i, slots[i].(live := false));
  }

  lemma AppendStep(header: string, slots: seq<Slot>, zones: map<Key, Zone>, free: Buckets, n: nat, s: Slot, key: Keys)
    requires Indexed(|header|, slots, zones, free, n, key) && s.live && key(s.name) !in zones
    ensures Indexed(|header|, slots + [s], zones[key(s.name) := Zone(s.name, s.pattern, Size(s), |header + Text(slots)|)], free, n, key)
    ensures header + Text(slots) + LineOf(s) == header + Text(slots + [s])
  {
    Append(slots, |header|, s, key);
    TextAppend(slots, s);
    JoinTwo(header, Text(slots), LineOf(s));
  }

  lemma JoinTwo(a: string, b: string, c: string)
    ensures a + b + c == a + (b + c) && |a + b| == |a| + |b|
  {
  }

  lemma ReuseStep(header: string, slots: seq<Slot>, zones: map<Key, Zone>, free: Buckets, n: nat, s: Slot, key: Keys)
    returns (i: nat)
    requires Indexed(|header|, slots, zones, free, n, key) && s.live && key(s.name) !in zones && Size(s) in free
    ensures n > 0 && i < |slots|
    ensures var l, slots' := Size(s), slots[i := s];
            var o := free[l][0];
            && Indexed(|header|, slots', zones[key(s.name) := Zone(s.name, s.pattern, l, o)], Untake(free, l), n - 1, key)
            && o + l <= |header + Text(slots)|
            && WriteAt(header + Text(slots), o, LineOf(s)) == header + Text(slots')
            && (AllOneLine(slots) && OneLine(s) ==> AllOneLine(slots'))
  {
    var l := Size(s);
    BucketTake(free, FreeAt(slots, |header|), l);
    i := FindDead(slots, |header|, (l, free[l][0]));
    Reuse(slots, |header|, i, s, key);
    ReuseText(header, slots, i, s);
    OneLineUpdate(slots, i, s);
  }

  /** A file of live lines alone. */
  ghost predicate Packed(header: string, packed: seq<Slot>, out: string, moved: map<Key, Zone>, key: Keys) {
    && out == header + Text(packed) && Uniq(packed, key) && AllOneLine(packed)
    && moved == ZonesAt(packed, |header|, key) && FreeAt(packed, |header|) == {} && DeadCount(packed) == 0
  }

  lemma PackOne(header: string, packed: seq<Slot>, out: string, moved: map<Key, Zone>, s: Slot, key: Keys)
    requires Packed(header, packed, out, moved, key) && s.live && OneLine(s) && key(s.name) !in moved
    ensures Packed(header, packed + [s], out + LineOf(s), moved[key(s.name) := Zone(s.name, s.pattern, Size(s), |out|)], key)
  {
    Append(packed, |header|, s, key);
    TextAppend(packed, s);
    OneLineAppend(packed, s);
    assert header + Text(packed) + LineOf(s) == header + (Text(packed) + LineOf(s));
  }

  lemma MoreZones(zones: map<Key, Zone>, zones': map<Key, Zone>, name: Key)
    requires name !in zones && zones'.Keys == zones.Keys + {name}
    ensures |zones'| == |zones| + 1
  {
    assert |zones'.Keys| == |zones.Keys| + 1;
  }

  lemma ReuseText(pre: string, slots: seq<Slot>, i: nat, s: Slot)
    requires i < |slots| && Size(s) == Size(slots[i])
    ensures var o := |pre| + |Text(slots[..i])|;
            o + Size(s) <= |pre + Text(slots)| && WriteAt(pre + Text(slots), o, LineOf(s)) == pre + Text(slots[i := s])
  {
    assert LineOf(slots[i])[Size(s)..] == "" && LineOf(s) + "" == LineOf(s);
    Overwrite(pre, slots, i, s, LineOf(s), LineOf(slots[i]), LineOf(s));
  }

  lemma KillText(pre: string, slots: seq<Slot>, i: nat)
    requires i < |slots| && slots[i].live
    ensures var o := |pre| + |Text(slots[..i])|;
            && o + 3 <= |pre + Text(slots)|
            && WriteAt(pre + Text(slots), o, "del") == pre + Text(slots[i := slots[i].(live := false)])
  {
    var l, l' := LineOf(slots[i]), LineOf(slots[i].(live := false));
    assert l == "add " + Body(slots[i]) && l' == "del " + Body(slots[i]);
    assert l[3..] == " " + Body(slots[i]);
    assert "del" + (" " + Body(slots[i])) == l';
    Overwrite(pre, slots, i, slots[i].(live := false), "del", l, l');
  }

  /** The line of a live zone is not also a deleted line. */
  lemma {:induction false} NotYetFree(slots: seq<Slot>, off: nat, i: nat)
    requires i < |slots| && slots[i].live
    ensures (Size(slots[i]), off + |Text(slots[..i])|) !in FreeAt(slots, off)
    decreases |slots|
  {
    var o := off + Size(slots[0]);
    if i == 0 {
      assert slots[..0] == [];
      OffsetsAhead(slots[1..], o);
    } else {
      NotYetFree(slots[1..], o, i - 1);
      assert slots[..i][1..] == slots[1..][..i - 1] && slots[..i][0] == slots[0];
    }
  }

  lemma {:induction false} AllOneLineAt(slots: seq<Slot>, i: nat)
    requires AllOneLine(slots) && i < |slots|
    ensures OneLine(slots[i])
    decreases i
  {
    if i > 0 {
      AllOneLineAt(slots[1..], i - 1);
    }
  }

  lemma {:induction false} OneLineAppend(slots: seq<Slot>, s: Slot)
    requires AllOneLine(slots) && OneLine(s)
    ensures AllOneLine(slots + [s])
    decreases |slots|
  {
    if slots == [] {
      assert slots + [s] == [s] && [s][1..] == [];
    } else {
      OneLineAppend(slots[1..], s);
      assert (slots + [s])[1..] == slots[1..] + [s];
    }
  }

  lemma {:induction false} OneLineUpdate(slots: seq<Slot>, i: nat, s: Slot)
    requires i < |slots|
    ensures AllOneLine(slots) && (OneLine(slots[i]) ==> OneLine(s)) ==> AllOneLine(slots[i := s])
    decreases |slots|
  {
    if i == 0 {
      assert slots[i := s][1..] == slots[1..];
    } else {
      OneLineUpdate(slots[1..], i - 1, s);
      assert slots[i := s][1..] == slots[1..][i - 1 := s];
    }
  }

  /** Closing the file and reading it again gives the same zones with the same
      positions and the same free lines, provided every line can be read. */
  method Reopen(z: ZoneListFile) returns (w: ZoneListFile)
    requires z.Valid() && z.Clean() && z.isOpen && z.header == HEADER && AllReadable(z.slots)
    ensures fresh(w) && w.Valid() && w.isOpen && w.file == z.file && w.off == z.off
    ensures w.zones == z.zones && w.freeNumber == z.freeNumber && FreeAt(w.slots, |HEADER|) == FreeAt(z.slots, |HEADER|)
  {
    w := new ZoneListFile(z.key, z.accept, z.config);
    assert z.file[|HEADER|..] == Text(z.slots);
    NamesMatch(z.slots, |HEADER|, z.key);
    LiveAccepted(|HEADER|, z.slots, z.zones, w.Accepted(), z.key);
    FileReaderReadsFile();
    var ok := w.ParseFile(z.file);
    IndexOfSlots(|HEADER|, z.slots, w.zones, w.free, w.freeNumber, w.Accepted(), z.key);
    w.slots := z.slots;
  }

  lemma {:induction false} NamesMatch(slots: seq<Slot>, off: nat, key: Keys)
    ensures forall n :: n in ZonesAt(slots, off, key) ==> key(ZonesAt(slots, off, key)[n].name) == n
    decreases |slots|
  {
    if slots != [] {
      NamesMatch(slots[1..], off + Size(slots[0]), key);
    }
  }

  lemma LiveAccepted(start: nat, slots: seq<Slot>, zones: map<Key, Zone>, accept: (string, string) -> bool, key: Keys)
    requires Uniq(slots, key) && zones == ZonesAt(slots, start, key) && forall n :: n in zones ==> accept(zones[n].name, zones[n].pattern)
    ensures forall s :: s in slots && s.live ==> accept(s.name, s.pattern)
  {
    forall s | s in slots && s.live
      ensures accept(s.name, s.pattern)
    {
      var i :| 0 <= i < |slots| && slots[i] == s;
      ZoneOfLive(slots, start, i, key);
    }
  }

  lemma {:induction false} ZoneOfLive(slots: seq<Slot>, off: nat, i: nat, key: Keys)
    requires i < |slots| && slots[i].live && Uniq(slots, key)
    ensures key(slots[i].name) in ZonesAt(slots, off, key)
    ensures var z := ZonesAt(slots, off, key)[key(slots[i].name)]; z.name == slots[i].name && z.pattern == slots[i].pattern
    decreases |slots|
  {
    if i > 0 {
      ZoneOfLive(slots[1..], off + Size(slots[0]), i - 1, key);
      ZoneNames(slots[1..], 0, off + Size(slots[0]), key);
    }
  }
}
