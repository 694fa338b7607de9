/** Writing records into a packet with compressed names: `pktcompression_*` and
    `ixfr_write_rr_pkt`, against reading them back. */
module Compression {
  import opened Names
  import opened Wire
  import opened Sequences
  import opened PacketName

  const MAX_COMPRESSION_OFFSET := 16383

  // ----- uncompressed names

  /** The length of the uncompressed name that `data` starts with, or 0. */
  function NameLength(data: Bytes): (n: nat)
    ensures n <= |data|
  {
    var r := SkipName(data, 0);
    if r == -1 || r > MAXDOMAINLEN then 0 else r
  }

  /** `dname_length`. */
  method DnameLength(buf: Bytes) returns (l: nat)
    ensures l == NameLength(buf)
  {
    l := 0;
    while l < |buf| && buf[l] != 0
      invariant 0 <= l <= |buf| && l <= MAXDOMAINLEN
      invariant SkipName(buf, l) == SkipName(buf, 0)
    {
      if buf[l] >= 64 || l + buf[l] as int + 1 > |buf| {
        return 0;
      }
      l := l + buf[l] as int + 1;
      if l > MAXDOMAINLEN {
        return 0;
      }
    }
    if l == |buf| {
      return 0;
    }
    l := l + 1;
    if l > MAXDOMAINLEN {
      return 0;
    }
  }

  /** Between `j` and `i` are whole labels. */
  ghost predicate Labels(data: Bytes, j: nat, i: nat)
    decreases i - j
  {
    j == i || (j < i <= |data| && 0 < data[j] < 64 && Labels(data, j + 1 + data[j] as int, i))
  }

  lemma {:induction false} LabelsOn(data: Bytes, j: nat, i: nat)
    requires Labels(data, j, i) && i < |data| && 0 < data[i] < 64 && i + 1 + data[i] as int <= |data|
    ensures Labels(data, j, i + 1 + data[i] as int)
    decreases i - j
  {
    if j == i {
      assert Labels(data, i + 1 + data[i] as int, i + 1 + data[i] as int);
    } else {
      LabelsOn(data, j + 1 + data[j] as int, i);
    }
  }

  // ----- what later writing cannot change

  /** The first bytes are still there, but for the two at `hole`. */
  ghost predicate SameBut(pkt: Bytes, pkt': Bytes, hole: int) {
    |pkt| <= |pkt'| && forall i :: 0 <= i < |pkt| && i != hole && i != hole + 1 ==> pkt'[i] == pkt[i]
  }

  /** Where the label or pointer at `p` ends. */
  function ItemEnd(pkt: Bytes, p: nat): nat {
    match ItemAt(pkt, p, true)
    case Text(to) => to
    case Jump(_) => p + 2
    case _ => p + 1
  }

  lemma ItemStays(pkt: Bytes, pkt': Bytes, p: nat, hole: int)
    requires SameBut(pkt, pkt', hole) && !ItemAt(pkt, p, true).Bad? && Clear(p, ItemEnd(pkt, p), hole)
    ensures ItemAt(pkt', p, true) == ItemAt(pkt, p, true) && ItemEnd(pkt, p) <= |pkt|
    ensures pkt'[p..ItemEnd(pkt, p)] == pkt[p..ItemEnd(pkt, p)]
  {
    assert pkt'[p] == pkt[p];
    if ItemAt(pkt, p, true).Jump? {
      assert pkt'[p + 1] == pkt[p + 1];
    }
  }

  lemma {:induction false} FollowStays(pkt: Bytes, pkt': Bytes, p: nat, hole: int, hole': int, k: nat)
    requires SameBut(pkt, pkt', hole) && Follow(pkt, p, true, hole, k).Some?
    requires hole' == hole || hole' >= |pkt| || hole' == NONE
    ensures Follow(pkt', p, true, hole', k) == Follow(pkt, p, true, hole, k)
    decreases k
  {
    ItemStays(pkt, pkt', p, hole);
    var item := ItemAt(pkt, p, true);
    if item.Text? || item.Jump? {
      FollowStays(pkt, pkt', item.to, hole, hole', k - 1);
    }
  }

  lemma SpellsStays(pkt: Bytes, pkt': Bytes, p: nat, hole: int, hole': int, w: Bytes)
    requires SameBut(pkt, pkt', hole) && Spells(pkt, p, true, hole, w)
    requires hole' == hole || hole' >= |pkt| || hole' == NONE
    ensures Spells(pkt', p, true, hole', w)
  {
    var k: nat :| Follow(pkt, p, true, hole, k) == Some(w);
    FollowStays(pkt, pkt', p, hole, hole', k);
  }

  lemma {:induction false} AfterStays(pkt: Bytes, pkt': Bytes, p: nat, hole: int, k: nat)
    requires SameBut(pkt, pkt', hole) && Follow(pkt, p, true, hole, k).Some?
    ensures After(pkt', p) == After(pkt, p) && After(pkt, p).Some?
    decreases k
  {
    ItemStays(pkt, pkt', p, hole);
    var item := ItemAt(pkt, p, true);
    if item.Text? {
      AfterStays(pkt, pkt', item.to, hole, k - 1);
    }
  }

  // ----- the table

  type Table = map<Bytes, nat>

  ghost predicate GoodEntry(pkt: Bytes, w: Bytes, offset: nat, hole: int) {
    0 < offset <= MAX_COMPRESSION_OFFSET && offset < |pkt| && Spells(pkt, offset, true, hole, w)
  }

  /** Every offset in the table is where its name is. */
  ghost predicate GoodTable(pkt: Bytes, table: Table, hole: int) {
    forall w :: w in table ==> GoodEntry(pkt, w, table[w], hole)
  }

  lemma TableStays(pkt: Bytes, pkt': Bytes, table: Table, hole: int, hole': int)
    requires SameBut(pkt, pkt', hole) && GoodTable(pkt, table, hole)
    requires hole' == hole || hole' >= |pkt| || hole' == NONE
    ensures GoodTable(pkt', table, hole')
  {
    forall w | w in table
      ensures GoodEntry(pkt', w, table[w], hole')
    {
      SpellsStays(pkt, pkt', table[w], hole, hole', w);
    }
  }

  lemma SliceOf(pkt: Bytes, start: nat, stop: nat, rr: Bytes, j: nat, n: nat)
    requires start <= stop <= |pkt| && stop - start <= |rr| && pkt[start..stop] == rr[..stop - start]
    requires j <= n <= stop - start
    ensures pkt[start + j..start + n] == rr[j..n]
  {
    forall x | j <= x < n
      ensures pkt[start + x] == rr[x]
    {
      assert pkt[start..stop][x] == rr[..stop - start][x];
    }
  }

  /** Labels in front of a spelled name spell the longer name. */
  lemma {:induction false} LabelsSpell(pkt: Bytes, start: nat, rr: Bytes, j: nat, i: nat, end: nat, hole: int)
    requires Labels(rr, j, i) && i <= end <= |rr| && start + i <= |pkt| && pkt[start..start + i] == rr[..i]
    requires hole + 2 <= start
    requires Spells(pkt, start + i, true, hole, rr[i..end])
    ensures Spells(pkt, start + j, true, hole, rr[j..end])
    ensures After(pkt, start + j) == After(pkt, start + i)
    decreases i - j
  {
    if j < i {
      var n := j + 1 + rr[j] as int;
      LabelsSpell(pkt, start, rr, n, i, end, hole);
      var k: nat :| Follow(pkt, start + n, true, hole, k) == Some(rr[n..end]);
      assert pkt[start..start + i][j] == pkt[start + j];
      assert ItemAt(pkt, start + j, true) == Text(start + n);
      assert n <= i;
      SliceOf(pkt, start, start + i, rr, j, n);
      assert rr[j..n] + rr[n..end] == rr[j..end];
      assert Follow(pkt, start + j, true, hole, k + 1) == Some(rr[j..end]);
    }
  }

  lemma PointerSpells(pkt: Bytes, offset: nat, hole: int, w: Bytes)
    requires GoodEntry(pkt, w, offset, hole) && hole + 2 <= |pkt|
    ensures var pkt' := pkt + [192 + offset / 256, offset % 256];
            Spells(pkt', |pkt|, true, hole, w) && After(pkt', |pkt|) == Some(|pkt'|)
  {
    var pkt' := pkt + [192 + offset / 256, offset % 256];
    SpellsStays(pkt, pkt', offset, hole, hole, w);
    var k: nat :| Follow(pkt', offset, true, hole, k) == Some(w);
    assert pkt'[|pkt|] as int == 192 + offset / 256 && pkt'[|pkt| + 1] as int == offset % 256;
    assert ItemAt(pkt', |pkt|, true) == Jump(offset);
    assert Follow(pkt', |pkt|, true, hole, k + 1) == Some(w);
  }

  lemma RootSpells(pkt: Bytes, hole: int)
    requires hole + 2 <= |pkt|
    ensures var pkt' := pkt + [0];
            Spells(pkt', |pkt|, true, hole, [0]) && After(pkt', |pkt|) == Some(|pkt'|)
  {
    var pkt' := pkt + [0];
    assert ItemAt(pkt', |pkt|, true) == Root;
    assert Follow(pkt', |pkt|, true, hole, 1) == Some([0]);
  }

  /** An entry for a name whose end is still to be written. */
  ghost predicate Pending(rr: Bytes, start: nat, i: nat, end: nat, w: Bytes, offset: nat) {
    && 0 < offset <= MAX_COMPRESSION_OFFSET && start <= offset < start + i && i <= end <= |rr|
    && w == rr[offset - start..end] && Labels(rr, offset - start, i)
  }

  ghost predicate OpenTable(pkt: Bytes, table: Table, hole: int, rr: Bytes, start: nat, i: nat, end: nat) {
    forall w :: w in table ==>
      GoodEntry(pkt, w, table[w], hole) || Pending(rr, start, i, end, w, table[w])
  }

  /** Once the end is written, the pending entries are right. */
  lemma TableCloses(pkt: Bytes, table: Table, hole: int, rr: Bytes, start: nat, i: nat, end: nat)
    requires OpenTable(pkt, table, hole, rr, start, i, end)
    requires i <= end <= |rr| && start + i <= |pkt| && pkt[start..start + i] == rr[..i]
    requires hole + 2 <= start
    requires Spells(pkt, start + i, true, hole, rr[i..end])
    ensures GoodTable(pkt, table, hole)
  {
    forall w | w in table
      ensures GoodEntry(pkt, w, table[w], hole)
    {
      if Pending(rr, start, i, end, w, table[w]) {
        LabelsSpell(pkt, start, rr, table[w] - start, i, end, hole);
      }
    }
  }

  lemma OpenTableGrows(pkt: Bytes, pkt': Bytes, table: Table, hole: int, rr: Bytes, start: nat, i: nat, end: nat)
    requires OpenTable(pkt, table, hole, rr, start, i, end) && pkt <= pkt'
    ensures OpenTable(pkt', table, hole, rr, start, i, end)
  {
    forall w | w in table && GoodEntry(pkt, w, table[w], hole)
      ensures GoodEntry(pkt', w, table[w], hole)
    {
      SpellsStays(pkt, pkt', table[w], hole, hole, w);
    }
  }

  /** One more label: the table with the name at this label. */
  lemma OpenTableOn(pkt: Bytes, table: Table, hole: int, rr: Bytes, start: nat, i: nat, end: nat, table': Table)
    requires OpenTable(pkt, table, hole, rr, start, i, end)
    requires i < |rr| && 0 < rr[i] < 64 && i + 1 + rr[i] as int <= end <= |rr|
    requires table' == table ||
             (0 < start + i <= MAX_COMPRESSION_OFFSET && table' == table[rr[i..end] := start + i])
    ensures OpenTable(pkt, table', hole, rr, start, i + 1 + rr[i] as int, end)
  {
    var i' := i + 1 + rr[i] as int;
    forall w | w in table'
      ensures GoodEntry(pkt, w, table'[w], hole) || Pending(rr, start, i', end, w, table'[w])
    {
      if table' != table && w == rr[i..end] {
        assert Labels(rr, i, i);
        LabelsOn(rr, i, i);
      } else if Pending(rr, start, i, end, w, table[w]) {
        LabelsOn(rr, table[w] - start, i);
      }
    }
  }

  /** An uncompressed name in the packet spells itself, from each label on. */
  lemma {:induction false} PlainSpells(pkt: Bytes, at: nat, w: Bytes, i: nat)
    requires at + |w| <= |pkt| && pkt[at..at + |w|] == w && SkipName(w, i) == |w|
    ensures Spells(pkt, at + i, true, NONE, w[i..])
    decreases |w| - i
  {
    assert pkt[at..at + |w|][i] == pkt[at + i];
    if w[i] == 0 {
      assert w[i..] == [0];
      assert Follow(pkt, at + i, true, NONE, 1) == Some([0]);
    } else {
      var n := i + 1 + w[i] as int;
      PlainSpells(pkt, at, w, n);
      var k: nat :| Follow(pkt, at + n, true, NONE, k) == Some(w[n..]);
      assert w[..|w|] == w;
      SliceOf(pkt, at, at + |w|, w, i, n);
      assert ItemAt(pkt, at + i, true) == Text(at + n);
      assert w[i..n] + w[n..] == w[i..];
      assert Follow(pkt, at + i, true, NONE, k + 1) == Some(w[i..]);
    }
  }
}
