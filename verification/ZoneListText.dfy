/** The text of the zone list file: slots of one line each, and what reading
    the lines gives back (options.c). */
module ZoneListText {
  import opened Sequences

  const BUFSIZE := 1024

  // ----- slots

  /** A line of the file; a deleted line keeps its text after the first word. */
  datatype Slot = Slot(live: bool, name: string, pattern: string)

  /** A parsed domain name; the text of a name stands for it. */
  type Key = seq<int>
  type Keys = string -> Key

  datatype Zone = Zone(name: string, pattern: string, linesize: nat, off: nat)

  function Size(s: Slot): nat {
    6 + |s.name| + |s.pattern|
  }

  function Word(live: bool): string {
    if live then "add " else "del "
  }

  function LineOf(s: Slot): (t: string)
    ensures |t| == Size(s)
  {
    Word(s.live) + (s.name + " " + s.pattern + "\n")
  }

  function Text(slots: seq<Slot>): string {
    if slots == [] then "" else LineOf(slots[0]) + Text(slots[1..])
  }

  /** The zones on the live lines, with where their lines are. */
  ghost function ZonesAt(slots: seq<Slot>, off: nat, key: Keys): map<Key, Zone> {
    if slots == [] then map[]
    else
      var rest, s := ZonesAt(slots[1..], off + Size(slots[0]), key), slots[0];
      if s.live then rest[key(s.name) := Zone(s.name, s.pattern, Size(s), off)] else rest
  }

  /** The deleted lines, by length and position. */
  ghost function FreeAt(slots: seq<Slot>, off: nat): set<(nat, nat)> {
    if slots == [] then {}
    else
      var rest, s := FreeAt(slots[1..], off + Size(slots[0])), slots[0];
      if s.live then rest else rest + {(Size(s), off)}
  }

  function DeadCount(slots: seq<Slot>): nat {
    if slots == [] then 0 else DeadCount(slots[1..]) + if slots[0].live then 0 else 1
  }

  /** No zone has two live lines. */
  ghost predicate Uniq(slots: seq<Slot>, key: Keys) {
    slots == [] || (Uniq(slots[1..], key) && (slots[0].live ==> key(slots[0].name) !in ZonesAt(slots[1..], 0, key)))
  }

  lemma {:induction false} ZoneNames(slots: seq<Slot>, off: nat, off': nat, key: Keys)
    ensures ZonesAt(slots, off, key).Keys == ZonesAt(slots, off', key).Keys
    decreases |slots|
  {
    if slots != [] {
      ZoneNames(slots[1..], off + Size(slots[0]), off' + Size(slots[0]), key);
    }
  }

  // ----- one slot among the others

  lemma {:induction false} TextSplit(slots: seq<Slot>, i: nat)
    requires i < |slots|
    ensures Text(slots) == Text(slots[..i]) + LineOf(slots[i]) + Text(slots[i + 1..])
    decreases i
  {
    if i == 0 {
      assert slots[..0] == [] && "" + LineOf(slots[0]) == LineOf(slots[0]);
    } else {
      TextSplit(slots[1..], i - 1);
      assert slots[1..][..i - 1] == slots[..i][1..] && slots[1..][i..] == slots[i + 1..];
      Join(LineOf(slots[0]), Text(slots[..i][1..]), LineOf(slots[i]), Text(slots[i + 1..]));
    }
  }

  lemma Join(a: string, b: string, c: string, d: string)
    ensures a + (b + c + d) == a + b + c + d
  {
  }

  lemma {:induction false} TextAppend(slots: seq<Slot>, s: Slot)
    ensures Text(slots + [s]) == Text(slots) + LineOf(s)
    decreases |slots|
  {
    if slots == [] {
      assert slots + [s] == [s] && [s][1..] == [];
      assert LineOf(s) + "" == LineOf(s) == "" + LineOf(s);
    } else {
      TextAppend(slots[1..], s);
      assert (slots + [s])[1..] == slots[1..] + [s];
      assert LineOf(slots[0]) + (Text(slots[1..]) + LineOf(s)) == LineOf(slots[0]) + Text(slots[1..]) + LineOf(s);
    }
  }

  function WriteAt(file: string, off: nat, t: string): string
    requires off + |t| <= |file|
  {
    file[..off] + t + file[off + |t|..]
  }

  /** Overwriting the start of a line changes that line alone. */
  lemma Overwrite(pre: string, slots: seq<Slot>, i: nat, s: Slot, t: string, l: string, l': string)
    requires i < |slots| && l == LineOf(slots[i]) && l' == LineOf(s)
    requires |t| <= |l| && t + l[|t|..] == l'
    ensures var off := |pre| + |Text(slots[..i])|;
            && off + |t| <= |pre + Text(slots)|
            && WriteAt(pre + Text(slots), off, t) == pre + Text(slots[i := s])
  {
    TextSplit(slots, i);
    TextChanged(slots, i, s);
    Rewritten(pre, Text(slots[..i]), l, Text(slots[i + 1..]), t, l', Text(slots), Text(slots[i := s]));
  }

  lemma Rewritten(pre: string, a: string, l: string, z: string, t: string, l': string, text: string, text': string)
    requires |t| <= |l| && t + l[|t|..] == l' && text == a + l + z && text' == a + l' + z
    ensures |pre| + |a| + |t| <= |pre + text| && WriteAt(pre + text, |pre| + |a|, t) == pre + text'
  {
    WriteInside(pre, a, l, z, t, l');
  }

  lemma TextChanged(slots: seq<Slot>, i: nat, s: Slot)
    requires i < |slots|
    ensures Text(slots[i := s]) == Text(slots[..i]) + LineOf(s) + Text(slots[i + 1..])
  {
    TextSplit(slots[i := s], i);
    assert slots[i := s][..i] == slots[..i] && slots[i := s][i + 1..] == slots[i + 1..];
  }

  lemma WriteInside(pre: string, a: string, l: string, z: string, t: string, l': string)
    requires |t| <= |l| && t + l[|t|..] == l'
    ensures WriteAt(pre + (a + l + z), |pre| + |a|, t) == pre + (a + l' + z)
  {
    var file := pre + (a + l + z);
    assert file[..|pre| + |a|] == pre + a;
    assert file[|pre| + |a| + |t|..] == l[|t|..] + z;
    assert pre + a + t + (l[|t|..] + z) == pre + (a + (t + l[|t|..]) + z);
  }

  /** Where a zone's line is. */
  lemma {:induction false} FindLive(slots: seq<Slot>, off: nat, n: Key, key: Keys) returns (i: nat)
    requires n in ZonesAt(slots, off, key)
    ensures i < |slots| && slots[i].live && key(slots[i].name) == n
    ensures ZonesAt(slots, off, key)[n] == Zone(slots[i].name, slots[i].pattern, Size(slots[i]), off + |Text(slots[..i])|)
    decreases |slots|
  {
    if slots[0].live && key(slots[0].name) == n {
      i := 0;
      assert slots[..0] == [];
    } else {
      var j := FindLive(slots[1..], off + Size(slots[0]), n, key);
      i := j + 1;
      assert slots[..i][1..] == slots[1..][..j] && slots[..i][0] == slots[0];
    }
  }

  lemma {:induction false} FindDead(slots: seq<Slot>, off: nat, x: (nat, nat)) returns (i: nat)
    requires x in FreeAt(slots, off)
    ensures i < |slots| && !slots[i].live && x == (Size(slots[i]), off + |Text(slots[..i])|)
    decreases |slots|
  {
    if !slots[0].live && x == (Size(slots[0]), off) {
      i := 0;
      assert slots[..0] == [];
    } else {
      var j := FindDead(slots[1..], off + Size(slots[0]), x);
      i := j + 1;
      assert slots[..i][1..] == slots[1..][..j] && slots[..i][0] == slots[0];
    }
  }

  lemma {:induction false} OffsetsAhead(slots: seq<Slot>, off: nat)
    ensures forall x :: x in FreeAt(slots, off) ==> off <= x.1
    decreases |slots|
  {
    if slots != [] {
      OffsetsAhead(slots[1..], off + Size(slots[0]));
    }
  }

  /** A live line becomes a deleted one. */
  lemma Kill(slots: seq<Slot>, off: nat, i: nat, key: Keys)
    requires i < |slots| && slots[i].live && Uniq(slots, key)
    ensures var slots' := slots[i := slots[i].(live := false)];
            && Uniq(slots', key)
            && ZonesAt(slots', off, key) == ZonesAt(slots, off, key) - {key(slots[i].name)}
            && FreeAt(slots', off) == FreeAt(slots, off) + {(Size(slots[i]), off + |Text(slots[..i])|)}
            && DeadCount(slots') == DeadCount(slots) + 1
  {
    KillZones(slots, off, i, key);
    KillFree(slots, off, i);
    KillUniq(slots, i, key);
  }

  lemma {:induction false} KillZones(slots: seq<Slot>, off: nat, i: nat, key: Keys)
    requires i < |slots| && slots[i].live && Uniq(slots, key)
    ensures ZonesAt(slots[i := slots[i].(live := false)], off, key) == ZonesAt(slots, off, key) - {key(slots[i].name)}
    decreases |slots|
  {
    var o := off + Size(slots[0]);
    var slots' := slots[i := slots[i].(live := false)];
    if i == 0 {
      assert slots'[1..] == slots[1..];
      ZoneNames(slots[1..], 0, o, key);
    } else {
      KillZones(slots[1..], o, i - 1, key);
      assert slots'[1..] == slots[1..][i - 1 := slots[i].(live := false)];
      LiveIsNamed(slots[1..], 0, i - 1, key);
    }
  }

  lemma {:induction false} KillFree(slots: seq<Slot>, off: nat, i: nat)
    requires i < |slots| && slots[i].live
    ensures var slots' := slots[i := slots[i].(live := false)];
            && FreeAt(slots', off) == FreeAt(slots, off) + {(Size(slots[i]), off + |Text(slots[..i])|)}
            && DeadCount(slots') == DeadCount(slots) + 1
    decreases |slots|
  {
    var s := slots[0];
    var slots' := slots[i := slots[i].(live := false)];
    if i == 0 {
      assert slots'[1..] == slots[1..] && slots[..0] == [];
    } else {
      KillFree(slots[1..], off + Size(s), i - 1);
      assert slots'[1..] == slots[1..][i - 1 := slots[i].(live := false)];
      assert slots[..i][1..] == slots[1..][..i - 1] && slots[..i][0] == s;
    }
  }

  lemma {:induction false} KillUniq(slots: seq<Slot>, i: nat, key: Keys)
    requires i < |slots| && slots[i].live && Uniq(slots, key)
    ensures Uniq(slots[i := slots[i].(live := false)], key)
    decreases |slots|
  {
    var slots' := slots[i := slots[i].(live := false)];
    if i == 0 {
      assert slots'[1..] == slots[1..];
    } else {
      KillUniq(slots[1..], i - 1, key);
      KillZones(slots[1..], 0, i - 1, key);
      assert slots'[1..] == slots[1..][i - 1 := slots[i].(live := false)];
    }
  }

  lemma {:induction false} LiveIsNamed(slots: seq<Slot>, off: nat, i: nat, key: Keys)
    requires i < |slots| && slots[i].live
    ensures key(slots[i].name) in ZonesAt(slots, off, key)
    decreases |slots|
  {
    if i > 0 {
      LiveIsNamed(slots[1..], off + Size(slots[0]), i - 1, key);
    }
  }

  /** A deleted line is used again. */
  lemma Reuse(slots: seq<Slot>, off: nat, i: nat, s: Slot, key: Keys)
    requires i < |slots| && !slots[i].live && s.live && Size(s) == Size(slots[i]) && Uniq(slots, key)
    requires key(s.name) !in ZonesAt(slots, off, key)
    ensures var slots', at := slots[i := s], off + |Text(slots[..i])|;
            && Uniq(slots', key)
            && ZonesAt(slots', off, key) == ZonesAt(slots, off, key)[key(s.name) := Zone(s.name, s.pattern, Size(s), at)]
            && FreeAt(slots', off) == FreeAt(slots, off) - {(Size(s), at)}
            && DeadCount(slots') == DeadCount(slots) - 1
  {
    ReuseZones(slots, off, i, s, key);
    ReuseFree(slots, off, i, s);
    ZoneNames(slots, 0, off, key);
    ReuseUniq(slots, i, s, key);
  }

  lemma {:induction false} ReuseZones(slots: seq<Slot>, off: nat, i: nat, s: Slot, key: Keys)
    requires i < |slots| && !slots[i].live && s.live && Size(s) == Size(slots[i])
    requires key(s.name) !in ZonesAt(slots, off, key)
    ensures ZonesAt(slots[i := s], off, key)
         == ZonesAt(slots, off, key)[key(s.name) := Zone(s.name, s.pattern, Size(s), off + |Text(slots[..i])|)]
    decreases |slots|
  {
    var slots' := slots[i := s];
    if i == 0 {
      assert slots'[1..] == slots[1..] && slots[..0] == [];
    } else {
      ReuseZones(slots[1..], off + Size(slots[0]), i - 1, s, key);
      assert slots'[1..] == slots[1..][i - 1 := s];
      assert slots[..i][1..] == slots[1..][..i - 1] && slots[..i][0] == slots[0];
    }
  }

  lemma {:induction false} ReuseFree(slots: seq<Slot>, off: nat, i: nat, s: Slot)
    requires i < |slots| && !slots[i].live && s.live && Size(s) == Size(slots[i])
    ensures FreeAt(slots[i := s], off) == FreeAt(slots, off) - {(Size(s), off + |Text(slots[..i])|)}
    ensures DeadCount(slots[i := s]) == DeadCount(slots) - 1
    decreases |slots|
  {
    var o := off + Size(slots[0]);
    var slots' := slots[i := s];
    if i == 0 {
      assert slots'[1..] == slots[1..] && slots[..0] == [];
      OffsetsAhead(slots[1..], o);
    } else {
      ReuseFree(slots[1..], o, i - 1, s);
      assert slots'[1..] == slots[1..][i - 1 := s];
      assert slots[..i][1..] == slots[1..][..i - 1] && slots[..i][0] == slots[0];
    }
  }

  lemma {:induction false} ReuseUniq(slots: seq<Slot>, i: nat, s: Slot, key: Keys)
    requires i < |slots| && !slots[i].live && s.live && Size(s) == Size(slots[i]) && Uniq(slots, key)
    requires key(s.name) !in ZonesAt(slots, 0, key)
    ensures Uniq(slots[i := s], key)
    decreases |slots|
  {
    var slots' := slots[i := s];
    ZoneNames(slots[1..], 0, Size(slots[0]), key);
    if i == 0 {
      assert slots'[1..] == slots[1..];
    } else {
      ReuseUniq(slots[1..], i - 1, s, key);
      ReuseZones(slots[1..], 0, i - 1, s, key);
      assert slots'[1..] == slots[1..][i - 1 := s];
    }
  }

  /** A new line at the end. */
  lemma {:induction false} Append(slots: seq<Slot>, off: nat, s: Slot, key: Keys)
    requires s.live && Uniq(slots, key) && key(s.name) !in ZonesAt(slots, off, key)
    ensures var slots' := slots + [s];
            && Uniq(slots', key)
            && ZonesAt(slots', off, key) == ZonesAt(slots, off, key)[key(s.name) := Zone(s.name, s.pattern, Size(s), off + |Text(slots)|)]
            && FreeAt(slots', off) == FreeAt(slots, off)
            && DeadCount(slots') == DeadCount(slots)
    decreases |slots|
  {
    if slots == [] {
      assert slots + [s] == [s] && [s][1..] == [];
    } else {
      var o := off + Size(slots[0]);
      ZoneNames(slots[1..], 0, o, key);
      Append(slots[1..], o, s, key);
      Append(slots[1..], 0, s, key);
      assert (slots + [s])[1..] == slots[1..] + [s] && (slots + [s])[0] == slots[0];
    }
  }
}
