/** Reading the zone list file again: lines of at most 1023 characters, the
    last space divides name and pattern (`parse_zone_list_file`). */
module ZoneListRead {
  import opened Sequences
  import opened ZoneListText

  datatype Entry = Add(name: string, pattern: string, size: nat, off: nat) | Del(size: nat, off: nat)

  // ----- one line

  /** Everything up to the first newline. */
  function FirstNewline(s: string): (n: nat)
    ensures n <= |s| && (n < |s| ==> s[n] == '\n') && forall i :: 0 <= i < n ==> s[i] != '\n'
  {
    if s == "" || s[0] == '\n' then 0 else 1 + FirstNewline(s[1..])
  }

  function Min(a: nat, b: nat): nat {
    if a <= b then a else b
  }

  /** How much `fgets` takes. */
  function Chunk(s: string): (n: nat)
    requires s != ""
    ensures 0 < n <= |s|
  {
    Min(Min(FirstNewline(s) + 1, BUFSIZE - 1), |s|)
  }

  function LastSpace(s: string): (r: Option<nat>)
    ensures r.Some? ==> r.value < |s| && s[r.value] == ' ' && forall i :: r.value < i < |s| ==> s[i] != ' '
    ensures r.None? ==> forall i :: 0 <= i < |s| ==> s[i] != ' '
  {
    if s == "" then None
    else if s[|s| - 1] == ' ' then Some(|s| - 1)
    else LastSpace(s[..|s| - 1])
  }

  function WithoutNewline(s: string): string {
    if s != "" && s[|s| - 1] == '\n' then s[..|s| - 1] else s
  }

  function ReadLine(line: string, off: nat): Option<Entry> {
    if "add " <= line then
      var space := LastSpace(line[4..]);
      if space.None? then None
      else
        var k := 4 + space.value;
        Some(Add(line[4..k], WithoutNewline(line[k + 1..]), |line|, off))
    else if "del " <= line then Some(Del(|line|, off))
    else None
  }

  // ----- the whole file

  /** How a line is taken from the text, and what it says. */
  datatype Reader = Reader(chunk: string -> nat, read: (string, nat) -> Option<Entry>)

  /** The reader of `parse_zone_list_file`. */
  function FileReader(): Reader {
    Reader(s => if s == "" then 0 else Chunk(s), ReadLine)
  }

  function Found(e: Option<Entry>): seq<Entry> {
    if e.Some? then [e.value] else []
  }

  function Entries(rd: Reader, s: string, off: nat): seq<Entry>
    decreases |s|
  {
    var n := rd.chunk(s);
    if n == 0 || n > |s| then []
    else Found(rd.read(s[..n], off)) + Entries(rd, s[n..], off + n)
  }

  function SlotEntry(s: Slot, off: nat): Entry {
    if s.live then Add(s.name, s.pattern, Size(s), off) else Del(Size(s), off)
  }

  function SlotEntries(slots: seq<Slot>, off: nat): seq<Entry> {
    if slots == [] then [] else [SlotEntry(slots[0], off)] + SlotEntries(slots[1..], off + Size(slots[0]))
  }

  /** Names and patterns of one line each. */
  predicate OneLine(s: Slot) {
    '\n' !in s.name && '\n' !in s.pattern
  }

  predicate Readable(s: Slot) {
    Size(s) < BUFSIZE && (s.live ==> ' ' !in s.pattern)
  }

  lemma FirstNewlineIs(s: string, n: nat)
    requires n < |s| && s[n] == '\n' && forall i :: 0 <= i < n ==> s[i] != '\n'
    ensures FirstNewline(s) == n
  {
  }

  lemma LastSpaceIs(s: string, k: nat)
    requires k < |s| && s[k] == ' ' && forall i :: k < i < |s| ==> s[i] != ' '
    ensures LastSpace(s) == Some(k)
  {
  }

  /** The line is read whole exactly when it fits the buffer. */
  lemma ChunkOfLine(s: Slot, rest: string)
    requires OneLine(s)
    ensures LineOf(s) + rest != ""
    ensures Chunk(LineOf(s) + rest) == Min(Size(s), BUFSIZE - 1)
    ensures (LineOf(s) + rest)[..Min(Size(s), BUFSIZE - 1)] <= LineOf(s)
  {
    var t := LineOf(s) + rest;
    forall i | 0 <= i < Size(s) - 1
      ensures t[i] != '\n'
    {
      assert t[i] == LineOf(s)[i];
    }
    FirstNewlineIs(t, Size(s) - 1);
  }

  /** What stands after the first word. */
  function Body(s: Slot): string {
    s.name + " " + s.pattern + "\n"
  }

  lemma LineParts(s: Slot)
    ensures Word(s.live) <= LineOf(s) && LineOf(s)[4..] == Body(s)
    ensures s.live ==> "add " <= LineOf(s)
    ensures !s.live ==> "del " <= LineOf(s) && !("add " <= LineOf(s))
  {
    var t := LineOf(s);
    assert t[0] == Word(s.live)[0];
  }

  /** A whole live line gives back its zone exactly when the pattern has no
      space; a deleted line gives back its slot. */
  lemma LineReads(s: Slot, off: nat)
    ensures ReadLine(LineOf(s), off) == Some(SlotEntry(s, off)) <==> (s.live ==> ' ' !in s.pattern)
  {
    LineParts(s);
    if s.live {
      var b := Body(s);
      assert b[|s.name|] == ' ';
      var k := LastSpace(b).value;
      var line := LineOf(s);
      if ' ' !in s.pattern {
        LastSpaceIs(b, |s.name|);
        assert line[4..4 + |s.name|] == b[..|s.name|] == s.name;
        assert line[4 + |s.name| + 1..] == b[|s.name| + 1..] == s.pattern + "\n";
        assert WithoutNewline(s.pattern + "\n") == s.pattern;
      } else {
        var j :| 0 <= j < |s.pattern| && s.pattern[j] == ' ';
        assert b[|s.name| + 1 + j] == ' ';
        assert k > |s.name|;
        assert |line[4..4 + k]| == k != |s.name|;
      }
    }
  }

  // ----- reading slots, for any reader that takes them line by line

  predicate LookLine(line: string, rest: string, off: nat) {
    true
  }

  /** Entries carry the position of their line. */
  ghost predicate Placed(rd: Reader) {
    forall line, off {:trigger rd.read(line, off)} ::
      rd.read(line, off).Some? ==> rd.read(line, off).value.off == off && rd.read(line, off).value.size == |line|
  }

  lemma {:induction false} EntriesAhead(rd: Reader, s: string, off: nat, e: Entry)
    requires Placed(rd) && e in Entries(rd, s, off)
    ensures e.off >= off
    decreases |s|
  {
    var n := rd.chunk(s);
    if !(n == 0 || n > |s|) && e in Entries(rd, s[n..], off + n) {
      EntriesAhead(rd, s[n..], off + n, e);
    }
  }

  lemma EntriesAt(rd: Reader, t: string, line: string, rest: string, off: nat)
    requires 0 < |line| <= |t| && rd.chunk(t) == |line| && t[..|line|] == line && t[|line|..] == rest
    ensures Entries(rd, t, off) == Found(rd.read(line, off)) + Entries(rd, rest, off + |line|)
  {
  }

  lemma Slices(line: string, rest: string)
    ensures (line + rest)[..|line|] == line && (line + rest)[|line|..] == rest
  {
  }

  lemma HeadAndRest(e: Option<Entry>, es: seq<Entry>, x: Entry, xs: seq<Entry>)
    requires x !in es
    ensures Found(e) + es == [x] + xs <==> e == Some(x) && es == xs
  {
    var l := Found(e) + es;
    if l == [x] + xs {
      assert l[0] == x;
      if e.Some? {
        assert es == l[1..] == xs;
      }
    }
  }

  lemma NotAhead(rd: Reader, s: string, off: nat, x: Entry)
    requires Placed(rd) && x.off < off
    ensures x !in Entries(rd, s, off)
  {
    if x in Entries(rd, s, off) {
      EntriesAhead(rd, s, off, x);
    }
  }

  /** A line that is taken whole. */
  lemma FirstLine(rd: Reader, line: string, rest: string, off: nat, x: Entry, xs: seq<Entry>)
    requires Placed(rd) && line != "" && x.off == off && rd.chunk(line + rest) == |line|
    ensures Entries(rd, line + rest, off) == [x] + xs
            <==> rd.read(line, off) == Some(x) && Entries(rd, rest, off + |line|) == xs
  {
    Slices(line, rest);
    EntriesAt(rd, line + rest, line, rest, off);
    NotAhead(rd, rest, off + |line|, x);
    HeadAndRest(rd.read(line, off), Entries(rd, rest, off + |line|), x, xs);
  }

  /** A line that is not taken whole never gives its entry. */
  lemma LongLine(rd: Reader, t: string, off: nat, x: Entry, xs: seq<Entry>)
    requires Placed(rd) && 0 < rd.chunk(t) < x.size && rd.chunk(t) <= |t| && x.off == off
    ensures Entries(rd, t, off) != [x] + xs
  {
    var n := rd.chunk(t);
    EntriesAt(rd, t, t[..n], t[n..], off);
    NotAhead(rd, t[n..], off + n, x);
    HeadAndRest(rd.read(t[..n], off), Entries(rd, t[n..], off + n), x, xs);
  }

  /** The reader takes whole every line that fits, and reads a slot's line as
      the slot exactly when its pattern has no space or it is deleted. */
  ghost predicate ReadsSlot(rd: Reader, s: Slot, line: string, rest: string, off: nat) {
    && |line| == Size(s) && rd.chunk(line + rest) == Min(|line|, BUFSIZE - 1)
    && (rd.read(line, off) == Some(SlotEntry(s, off)) <==> (s.live ==> ' ' !in s.pattern))
  }

  lemma FirstSlot(rd: Reader, s: Slot, line: string, rest: string, off: nat, xs: seq<Entry>)
    requires Placed(rd) && ReadsSlot(rd, s, line, rest, off)
    ensures Entries(rd, line + rest, off) == [SlotEntry(s, off)] + xs
            <==> Readable(s) && Entries(rd, rest, off + Size(s)) == xs
  {
    if |line| >= BUFSIZE {
      LongLine(rd, line + rest, off, SlotEntry(s, off), xs);
    } else {
      FirstLine(rd, line, rest, off, SlotEntry(s, off), xs);
    }
  }

  predicate AllOneLine(slots: seq<Slot>) {
    slots == [] || (OneLine(slots[0]) && AllOneLine(slots[1..]))
  }

  predicate AllReadable(slots: seq<Slot>) {
    slots == [] || (Readable(slots[0]) && AllReadable(slots[1..]))
  }

  ghost function Lines(line: Slot -> string, slots: seq<Slot>): string {
    if slots == [] then "" else line(slots[0]) + Lines(line, slots[1..])
  }

  /** The reader reads each slot so, whatever follows it. */
  ghost predicate ReadsSlots(rd: Reader, line: Slot -> string) {
    && Placed(rd) && rd.chunk("") == 0
    && forall s: Slot, rest, off: nat {:trigger LookLine(line(s), rest, off)} ::
         LookLine(line(s), rest, off) && OneLine(s) ==> ReadsSlot(rd, s, line(s), rest, off)
  }

  lemma {:induction false} LinesRead(rd: Reader, line: Slot -> string, slots: seq<Slot>, off: nat)
    requires ReadsSlots(rd, line) && AllOneLine(slots)
    ensures Entries(rd, Lines(line, slots), off) == SlotEntries(slots, off) <==> AllReadable(slots)
    decreases |slots|
  {
    if slots != [] {
      var s, rest := slots[0], slots[1..];
      LinesRead(rd, line, rest, off + Size(s));
      OneSlot(rd, line, s, Lines(line, rest), off, SlotEntries(rest, off + Size(s)));
    }
  }

  lemma OneSlot(rd: Reader, line: Slot -> string, s: Slot, rest: string, off: nat, xs: seq<Entry>)
    requires ReadsSlots(rd, line) && OneLine(s)
    ensures Entries(rd, line(s) + rest, off) == [SlotEntry(s, off)] + xs
            <==> Readable(s) && Entries(rd, rest, off + Size(s)) == xs
  {
    assert LookLine(line(s), rest, off);
    FirstSlot(rd, s, line(s), rest, off, xs);
  }

  lemma {:induction false} LinesAreText(line: Slot -> string, slots: seq<Slot>)
    requires forall s :: line(s) == LineOf(s)
    ensures Lines(line, slots) == Text(slots)
    decreases |slots|
  {
    if slots != [] {
      LinesAreText(line, slots[1..]);
    }
  }

  predicate LookChunk(t: string) {
    true
  }

  predicate LookRead(line: string, off: nat) {
    true
  }

  /** What `fgets` and the line parser compute. */
  ghost predicate ReadsFile(rd: Reader) {
    && Placed(rd)
    && (forall t {:trigger LookChunk(t)} :: LookChunk(t) && t != "" ==> rd.chunk(t) == Chunk(t))
    && (forall line, off: nat {:trigger LookRead(line, off)} :: LookRead(line, off) ==> rd.read(line, off) == ReadLine(line, off))
  }

  lemma FileReaderReadsFile()
    ensures ReadsFile(FileReader())
  {
  }

  /** `fgets`. */
  method Fgets(t: string, ghost rd: Reader) returns (n: nat)
    requires t != "" && ReadsFile(rd)
    ensures 0 < n <= |t| && n == rd.chunk(t)
  {
    assert LookChunk(t);
    n := Chunk(t);
  }

  /** What a line says. */
  method ParseLine(line: string, off: nat, ghost rd: Reader) returns (e: Option<Entry>)
    requires ReadsFile(rd)
    ensures e == rd.read(line, off)
  {
    assert LookRead(line, off);
    e := ReadLine(line, off);
  }

  /** The reader of the file is such a reader. */
  lemma FileReaderReads() returns (rd: Reader, line: Slot -> string)
    ensures rd == FileReader() && ReadsSlots(rd, line) && forall s :: line(s) == LineOf(s)
  {
    rd := FileReader();
    line := LineOf;
    forall s: Slot, rest, off: nat {:trigger LookLine(line(s), rest, off)} | LookLine(line(s), rest, off) && OneLine(s)
      ensures ReadsSlot(rd, s, line(s), rest, off)
    {
      ChunkOfLine(s, rest);
      LineReads(s, off);
    }
  }

  /** The file reads back as its slots exactly when every line fits the read
      buffer and no live zone's pattern has a space in it. */
  lemma ReadsBack(slots: seq<Slot>, off: nat)
    requires AllOneLine(slots)
    ensures Entries(FileReader(), Text(slots), off) == SlotEntries(slots, off) <==> AllReadable(slots)
  {
    var rd, line := FileReaderReads();
    LinesRead(rd, line, slots, off);
    LinesAreText(line, slots);
  }

  /** A line that does not fit the buffer comes back changed: a zone whose
      pattern name has 1018 letters. */
  lemma SomeLinesAreLost(off: nat)
    ensures var slots := [Slot(true, "a", seq(1018, _ => 'p'))];
            AllOneLine(slots) && Entries(FileReader(), Text(slots), off) != SlotEntries(slots, off)
  {
    ReadsBack([Slot(true, "a", seq(1018, _ => 'p'))], off);
  }

  // ----- installing what was read

  /** `zone_list_member_zone_insert` for each entry: refused names and names
      already there are skipped. */
  ghost function Install(es: seq<Entry>, zones: map<Key, Zone>, accept: (string, string) -> bool, key: Keys): map<Key, Zone> {
    if es == [] then zones
    else
      var e := es[0];
      Install(es[1..],
              if e.Add? && key(e.name) !in zones && accept(e.name, e.pattern) then zones[key(e.name) := Zone(e.name, e.pattern, e.size, e.off)]
              else zones,
              accept, key)
  }

  ghost function FreeIn(es: seq<Entry>): set<(nat, nat)> {
    set e | e in es && e.Del? :: (e.size, e.off)
  }

  /** Installing the slots gives the zones of the slots. */
  lemma {:induction false} InstallSlots(slots: seq<Slot>, off: nat, zones: map<Key, Zone>, accept: (string, string) -> bool, key: Keys)
    requires Uniq(slots, key) && forall s :: s in slots && s.live ==> accept(s.name, s.pattern)
    requires forall n :: n in ZonesAt(slots, off, key) ==> n !in zones
    ensures Install(SlotEntries(slots, off), zones, accept, key) == zones + ZonesAt(slots, off, key)
    decreases |slots|
  {
    if slots == [] {
      assert zones + map[] == zones;
    } else {
      var s, o := slots[0], off + Size(slots[0]);
      ZoneNames(slots[1..], 0, o, key);
      var es := SlotEntries(slots, off);
      assert es[0] == SlotEntry(s, off) && es[1..] == SlotEntries(slots[1..], o);
      var zones' := if s.live then zones[key(s.name) := Zone(s.name, s.pattern, Size(s), off)] else zones;
      InstallSlots(slots[1..], o, zones', accept, key);
      assert zones' + ZonesAt(slots[1..], o, key) == zones + ZonesAt(slots, off, key);
    }
  }

  lemma {:induction false} FreeOfSlots(slots: seq<Slot>, off: nat)
    ensures FreeIn(SlotEntries(slots, off)) == FreeAt(slots, off)
    decreases |slots|
  {
    if slots != [] {
      var s, o := slots[0], off + Size(slots[0]);
      FreeOfSlots(slots[1..], o);
      var rest := SlotEntries(slots[1..], o);
      FreeCons(SlotEntry(s, off), rest);
    }
  }

  lemma FreeCons(e: Entry, es: seq<Entry>)
    ensures FreeIn([e] + es) == FreeIn(es) + if e.Del? then {(e.size, e.off)} else {}
  {
    forall x | x in [e] + es
      ensures x == e || x in es
    {
    }
  }

  ghost function DelCount(es: seq<Entry>): nat {
    if es == [] then 0 else DelCount(es[1..]) + if es[0].Del? then 1 else 0
  }

  lemma {:induction false} DelCountOfSlots(slots: seq<Slot>, off: nat)
    ensures DelCount(SlotEntries(slots, off)) == DeadCount(slots)
    decreases |slots|
  {
    if slots != [] {
      DelCountOfSlots(slots[1..], off + Size(slots[0]));
      var es := SlotEntries(slots, off);
      assert es[1..] == SlotEntries(slots[1..], off + Size(slots[0]));
    }
  }
}
