/** The difference files next to the zone file, and their numbers:
    `ixfr_write_to_file` and what it calls, over the stored differences of a
    zone.  The loops that go from newer to older differences search backwards
    with `ixfr_data_prev`. */
module IxfrFiles {
  import opened Names
  import opened Sequences
  import opened IxfrChain

  /** Files by number; the flag marks temporary names. */
  type Disk = map<(nat, bool), IxfrData>

  /** The oldest `w` differences have files, numbered so that the newest of them
      has the smallest number; the others have none. */
  ghost predicate Numbered(nums: seq<nat>, w: nat, shift: nat) {
    && w <= |nums|
    && forall i :: 0 <= i < |nums| ==> nums[i] == if i < w then shift + w - i else 0
  }

  ghost predicate InFile(disk: Disk, num: nat, temp: bool, content: IxfrData) {
    (num, temp) in disk && disk[(num, temp)] == content
  }

  /** The differences from `lo` to `hi` are in files, at their numbers. */
  ghost predicate InFiles(es: seq<IxfrData>, nums: seq<nat>, lo: nat, hi: nat, disk: Disk, temp: bool)
    requires hi <= |es| == |nums|
  {
    forall i :: lo <= i < hi ==> InFile(disk, nums[i], temp, es[i])
  }

  /** The differences from `lo` on are in final files, counted from the newest. */
  ghost predicate Filed(es: seq<IxfrData>, nums: seq<nat>, lo: nat, hi: nat, disk: Disk)
    requires hi <= |es| == |nums|
  {
    forall i :: lo <= i < hi ==> nums[i] == |es| - i && InFile(disk, |es| - i, false, es[i])
  }

  /** The differences along `path` have these numbers. */
  ghost predicate Tied(num: map<Serial, nat>, path: seq<Serial>, nums: seq<nat>)
    requires |path| == |nums|
  {
    forall i :: 0 <= i < |nums| ==> path[i] in num && num[path[i]] == nums[i]
  }

  lemma TiedTail(num: map<Serial, nat>, path: seq<Serial>, nums: seq<nat>, w: nat)
    requires |path| == |nums| > 0 && Tied(num, path, nums) && Numbered(nums, w, 0)
    ensures Tied(num, path[1..], nums[1..]) && Numbered(nums[1..], if w > 0 then w - 1 else 0, 0)
  {
    forall i | 0 <= i < |nums| - 1
      ensures path[1..][i] in num && num[path[1..][i]] == nums[1..][i]
    {
      assert path[1..][i] == path[i + 1] && nums[1..][i] == nums[i + 1];
    }
  }

  /** The oldest `r` differences go, and one without a file comes. */
  lemma Restored(num: map<Serial, nat>, path: seq<Serial>, nums: seq<nat>, es: seq<IxfrData>, w: nat, disk: Disk, r: nat, d: IxfrData)
    requires |path| == |nums| == |es| && r <= |path| && Tied(num, path, nums) && Numbered(nums, w, 0) && InFiles(es, nums, 0, w, disk, false)
    requires d.oldserial !in path
    ensures var path', nums', es', w' := path[r..] + [d.oldserial], nums[r..] + [0], es[r..] + [d], if w > r then w - r else 0;
            && Tied(num[d.oldserial := 0], path', nums') && Numbered(nums', w', 0) && InFiles(es', nums', 0, w', disk, false)
  {
    TailInFiles(es, nums, w, disk, r);
    var nums' := nums[r..] + [0];
    assert forall i :: 0 <= i < |nums| - r ==> nums'[i] == nums[r + i];
    forall i | 0 <= i < if w > r then w - r else 0
      ensures InFile(disk, nums'[i], false, (es[r..] + [d])[i])
    {
      assert InFile(disk, nums[r..][i], false, es[r..][i]);
    }
  }

  /** `ixfr_rename_it`, when it succeeds. */
  function Rename(disk: Disk, from: nat, fromTemp: bool, to: nat, toTemp: bool): Disk
    requires (from, fromTemp) in disk
  {
    (disk - {(from, fromTemp)})[(to, toTemp) := disk[(from, fromTemp)]]
  }

  /** Where a walk back from `hi - 1` to `lo` ends: at the entry whose
      predecessor is hidden, or at `lo`. */
  ghost function Stop(data: map<Serial, IxfrData>, path: seq<Serial>, lo: nat, hi: nat): (k: nat)
    requires lo <= hi <= |path|
    ensures lo <= k <= hi
    ensures k > lo ==> k < hi && Hides(data, path, k)
    ensures forall i :: k < i < hi ==> !Hides(data, path, i)
    decreases hi - lo
  {
    if hi <= lo + 1 then lo
    else if Hides(data, path, hi - 1) then hi - 1
    else Stop(data, path, lo, hi - 1)
  }

  /** From `hi - 1` back to `lo` nothing is hidden; `round` tells about `lo`. */
  ghost predicate Bounded(data: map<Serial, IxfrData>, path: seq<Serial>, lo: nat, hi: nat, round: bool) {
    && lo <= hi <= |path| && (round <==> 0 < lo < |path| && Hides(data, path, lo))
    && forall i :: lo < i < hi ==> !Hides(data, path, i)
  }

  lemma StopBounds(data: map<Serial, IxfrData>, path: seq<Serial>, from: nat, hi: nat) returns (lo: nat, round: bool)
    requires from <= hi <= |path|
    ensures lo == Stop(data, path, from, hi) && Bounded(data, path, lo, hi, round) && from <= lo && (lo > from ==> round)
  {
    lo := Stop(data, path, from, hi);
    round := 0 < lo < |path| && Hides(data, path, lo);
  }

  /** With `w` of the differences in files and the oldest `r` dropped, no walk
      back over the others is cut short. */
  ghost predicate NothingHidden(data: map<Serial, IxfrData>, path: seq<Serial>, w: nat, r: nat) {
    w == |path| || forall i :: r < i < |path| && i != w ==> !Hides(data, path, i)
  }

  class IxfrStore {
    /** `ixfr_number` of the pattern, or 0 when differences are not kept. */
    const number: nat
    const zone: ZoneIxfr
    /** `file_num` of each difference, 0 while it has no file. */
    var num: map<Serial, nat>
    var disk: Disk
    /** The numbers from the oldest to the newest difference. */
    ghost var nums: seq<nat>
    /** The differences from the oldest to the newest. */
    ghost var es: seq<IxfrData>
    /** How many of them, the oldest, have files. */
    ghost var written: nat

    ghost predicate Attached()
      reads this, zone
    {
      zone.Valid() && es == zone.Entries() && |nums| == |zone.path| == |es| && Tied(num, zone.path, nums)
    }

    ghost predicate Valid()
      reads this, zone
    {
      && Attached() && Numbered(nums, written, 0)
      && InFiles(es, nums, 0, written, disk, false)
    }

    constructor (zone: ZoneIxfr, number: nat)
      requires zone.Valid()
      ensures this.zone == zone && this.number == number && Valid() && written == 0
    {
      this.zone, this.number := zone, number;
      CollectAt(zone.data, zone.path);
      ChainLinked(zone.data, zone.path);
      num := map s | s in zone.data :: 0;
      disk, written := map[], 0;
      nums, es := seq(|zone.path|, _ => 0), zone.Entries();
    }

    /** `ixfr_store_finish`: the oldest differences make room for a new one,
        which has no file yet. */
    method StoreFinish(d: IxfrData, size: nat) returns (stored: bool, ghost r: nat)
      requires Valid() && d.oldserial !in zone.data && (zone.path != [] ==> d.oldserial == zone.EndSerial())
      modifies this`num, this`nums, this`es, this`written, zone
      ensures Valid() && r <= |old(es)|
      ensures stored <==> number > 0 && (size != 0 ==> zone.overhead + Bytes(d) <= size)
      ensures stored ==> es == old(es)[r..] + [d] && |es| <= number && (size != 0 ==> zone.totalSize <= size)
      ensures stored ==> written == if old(written) > r then old(written) - r else 0
      ensures !stored ==> es == if number == 0 then old(es) else []
    {
      ghost var data, path := zone.data, zone.path;
      CollectAt(data, path);
      stored, r := zone.StoreFinish(d, Limits(number, size));
      if stored {
        EntriesAfter(data, path, r, d, zone.data, zone.path);
        Restored(num, path, nums, es, written, disk, r, d);
        num, nums, es := num[d.oldserial := 0], nums[r..] + [0], es[r..] + [d];
        written := if written > r then written - r else 0;
      } else if number > 0 {
        nums, es, written := [], [], 0;
      }
    }

    /** The number of the difference at `i` changes. */
    method SetNum(cur: IxfrData, n: nat, ghost i: nat)
      requires Attached() && i < |nums| && cur == es[i]
      modifies this`num, this`nums
      ensures Attached() && nums == old(nums)[i := n]
    {
      CollectAt(zone.data, zone.path);
      ChainLinked(zone.data, zone.path);
      num, nums := num[cur.oldserial := n], nums[i := n];
    }

    method GetNum(cur: IxfrData, ghost i: nat) returns (n: nat)
      requires Attached() && i < |nums| && cur == es[i]
      ensures n == nums[i]
    {
      CollectAt(zone.data, zone.path);
      ChainLinked(zone.data, zone.path);
      n := num[cur.oldserial];
    }

    /** `ixfr_target_number_files`. */
    method TargetNumberFiles() returns (n: nat)
      requires zone.Valid()
      ensures n == if number < |zone.path| then number else |zone.path|
    {
      ChainCount(zone.data, zone.path);
      n := number;
      if n > |zone.data| {
        n := |zone.data|;
      }
    }

    /** `ixfr_delete_superfluous_files`. */
    method DeleteSuperfluousFiles(dest: nat)
      modifies this`disk
      ensures forall n, t :: (n, t) in disk ==> (n, t) in old(disk) && disk[(n, t)] == old(disk)[(n, t)]
      ensures forall n, t :: (n, t) in old(disk) && (t || n <= dest) ==> (n, t) in disk
      ensures (dest + 1, false) !in disk
    {
      var i := dest + 1;
      while (i, false) in disk
        invariant i > dest
        invariant forall n, t :: (n, t) in disk ==> (n, t) in old(disk) && disk[(n, t)] == old(disk)[(n, t)]
        invariant forall n, t :: (n, t) in old(disk) && (t || n <= dest) ==> (n, t) in disk
        invariant i > dest + 1 ==> (dest + 1, false) !in disk
        decreases disk.Keys
      {
        disk := disk - {(i, false)};
        i := i + 1;
      }
    }

    /** The oldest difference leaves the memory, its file stays. */
    method RemoveOldest()
      requires Attached() && Numbered(nums, written, 0) && nums != []
      modifies this`num, this`nums, this`es, this`written, zone
      ensures Attached() && Numbered(nums, written, 0) && nums == old(nums)[1..]
      ensures written == if old(written) > 0 then old(written) - 1 else 0
      ensures zone.path == old(zone.path)[1..] && es == old(es)[1..]
      ensures zone.data == old(zone.data) - {old(zone.path)[0]}
    {
      TiedTail(num, zone.path, nums, written);
      CollectTail(zone.data, zone.path);
      zone.RemoveOldest();
      nums, es := nums[1..], es[1..];
      written := if written > 0 then written - 1 else 0;
    }

    /** `ixfr_delete_memory_items`. */
    method DeleteMemoryItems(dest: nat)
      requires Attached() && Numbered(nums, written, 0) && dest <= |nums|
      requires InFiles(es, nums, |nums| - dest, written, disk, false)
      modifies this`num, this`nums, this`es, this`written, zone
      ensures Valid() && |nums| == dest
      ensures SameWalk(old(zone.data), old(zone.path), zone.data, zone.path, old(written), written, |old(nums)| - dest)
      ensures es == old(es)[|old(nums)| - dest..]
    {
      ghost var data, path, es0, nums0, w := zone.data, zone.path, es, nums, written;
      DropOldest(dest);
      AfterDrop(data, path, es0, nums0, w, |nums0| - dest, zone.data, zone.path, es, nums, written, disk);
    }

    method DropOldest(dest: nat)
      requires Attached() && Numbered(nums, written, 0) && dest <= |nums|
      modifies this`num, this`nums, this`es, this`written, zone
      ensures Attached() && Numbered(nums, written, 0) && |nums| == dest
      ensures Dropped(old(nums), old(es), old(zone.path), old(written), |old(nums)| - dest, nums, es, zone.path, written)
    {
      ChainCount(zone.data, zone.path);
      ghost var r := 0;
      while dest < |zone.data|
        invariant Attached() && Numbered(nums, written, 0) && dest <= |nums| == |zone.data| && r + |nums| == |old(nums)|
        invariant Dropped(old(nums), old(es), old(zone.path), old(written), r, nums, es, zone.path, written)
        decreases |nums|
      {
        ghost var nums1, es1, path1, w := nums, es, zone.path, written;
        RemoveOldest();
        ChainCount(zone.data, zone.path);
        DropMore(old(nums), old(es), old(zone.path), old(written), r, nums1, es1, path1, w);
        r := r + 1;
      }
    }

    /** The first loop of `ixfr_rename_files`: every file to its temporary name. */
    method ToTemporary(dest: nat) returns (start: Option<IxfrData>, destnum: int)
      requires Valid() && dest == |nums|
      modifies this`disk
      ensures start == (if written == 0 then None else Some(es[written - 1])) && destnum == dest - written
      ensures InFiles(es, nums, 0, written, disk, true)
      ensures (|nums| + 1, false) !in old(disk) ==> (|nums| + 1, false) !in disk
    {
      ghost var i := 0;
      var data := First();
      start, destnum := None, dest;
      while data.Some?
        invariant 0 <= i <= written && start == (if i == 0 then None else Some(es[i - 1])) && destnum == dest - i
        invariant data == if i < |es| then Some(es[i]) else None
        invariant (|nums| + 1, false) !in old(disk) ==> (|nums| + 1, false) !in disk
        invariant InFiles(es, nums, 0, i, disk, true) && InFiles(es, nums, i, written, disk, false)
        decreases |es| - i
      {
        var n := GetNum(data.value, i);
        if n == 0 {
          break;
        }
        TemporaryStep(es, nums, written, i, disk);
        disk := disk - {(n, true)};
        disk := Rename(disk, n, false, n, true);
        start := data;
        data := Forth(data.value, i);
        i := i + 1;
        destnum := destnum - 1;
      }
    }

    /** `ixfr_data_next`, along the chain. */
    method Forth(data: IxfrData, ghost i: nat) returns (next: Option<IxfrData>)
      requires Attached() && i < |nums| && data == es[i]
      ensures next == if i + 1 < |nums| then Some(es[i + 1]) else None
    {
      CollectAt(zone.data, zone.path);
      zone.NextIsNext(i);
      next := zone.Next(data);
    }

    /** `ixfr_data_first`. */
    method First() returns (d: Option<IxfrData>)
      requires Attached()
      ensures d == if nums == [] then None else Some(es[0])
    {
      CollectAt(zone.data, zone.path);
      ChainCount(zone.data, zone.path);
      d := if |zone.data| == 0 then None else Some(zone.data[zone.oldestSerial]);
    }

    /** `ixfr_data_last`. */
    method Last() returns (d: Option<IxfrData>)
      requires Attached()
      ensures d == if nums == [] then None else Some(es[|nums| - 1])
    {
      CollectAt(zone.data, zone.path);
      ChainCount(zone.data, zone.path);
      d := if |zone.data| == 0 then None else Some(zone.data[zone.newestSerial]);
    }

    /** The walk back stands at `i`, or has passed `lo`: nothing is older, or it
        has come out at the newest difference when `round`. */
    ghost predicate Standing(data: Option<IxfrData>, i: int, lo: nat, round: bool)
      requires lo - 1 <= i < |es|
      reads this
    {
      data == if i < lo && lo == 0 then None else Some(es[Place(i, lo, round)])
    }

    ghost function Place(i: int, lo: nat, round: bool): (k: nat)
      requires lo - 1 <= i < |es| && (i >= lo || lo > 0)
      reads this
      ensures k < |es|
    {
      if i >= lo then i else if round then |es| - 1 else lo - 1
    }

    /** One step of it. */
    method Back(data: IxfrData, prevcount: nat, ghost i: nat, ghost lo: nat, ghost hi: nat, ghost round: bool)
      returns (prev: Option<IxfrData>, count: nat)
      requires Attached() && Bounded(zone.data, zone.path, lo, hi, round)
      requires lo <= i < hi && data == es[i] && prevcount + i < |nums|
      ensures Standing(prev, i - 1, lo, round) && count <= prevcount + 1
    {
      ChainCount(zone.data, zone.path);
      prev, count := zone.StepBack(data, prevcount, i);
    }

    /** The second loop of `ixfr_rename_files`: from the newest file, to the
        final names.  A file that is still wanted is never in the way, but the
        loop ends early where the walk back is cut short. */
    method ToFinal(start: Option<IxfrData>, unwritten: nat)
      requires Attached() && Numbered(nums, written, 0) && |nums| == written + unwritten && unwritten > 0
      requires start == if written == 0 then None else Some(es[written - 1])
      requires InFiles(es, nums, 0, written, disk, true)
      modifies this`disk, this`num, this`nums
      ensures Attached()
      ensures Moving(es, old(nums), nums, written, Stop(zone.data, zone.path, 0, written) - 1, old(disk), disk)
    {
      ghost var lo, round := StopBounds(zone.data, zone.path, 0, written);
      MoveBack(start, unwritten, lo, round);
    }

    method MoveBack(start: Option<IxfrData>, unwritten: nat, ghost lo: nat, ghost round: bool)
      requires MovingAt(start, unwritten, 0, written - 1, lo, round, nums, disk)
      modifies this`disk, this`num, this`nums
      ensures Attached() && Moving(es, old(nums), nums, written, lo - 1, old(disk), disk)
    {
      var data, destnum: nat, prevcount: nat := start, unwritten, 0;
      ghost var i: int, nums0, disk0 := written - 1, nums, disk;
      while data.Some?
        invariant MovingAt(data, destnum, prevcount, i, lo, round, nums0, disk0)
        decreases i + 1
      {
        var go;
        data, prevcount, go := FinalOne(data.value, destnum + 1, prevcount, i, lo, round, nums0, disk0);
        if !go {
          break;
        }
        destnum := destnum + 1;
        i := i - 1;
      }
    }

    ghost predicate MovingAt(data: Option<IxfrData>, destnum: nat, prevcount: nat, i: int, lo: nat, round: bool,
                             nums0: seq<nat>, disk0: Disk)
      reads this, zone
    {
      && Attached() && written < |nums| && Bounded(zone.data, zone.path, lo, written, round) && (lo > 0 ==> round)
      && lo - 1 <= i < written && Standing(data, i, lo, round)
      && Moving(es, nums0, nums, written, i, disk0, disk)
      && destnum == |nums| - 1 - i && prevcount + i < |nums|
    }

    /** One turn of it. */
    method FinalOne(data: IxfrData, destnum: nat, prevcount: nat,
                    ghost i: int, ghost lo: nat, ghost round: bool, ghost nums0: seq<nat>, ghost disk0: Disk)
      returns (prev: Option<IxfrData>, count: nat, go: bool)
      requires destnum > 0 && MovingAt(Some(data), destnum - 1, prevcount, i, lo, round, nums0, disk0)
      modifies this`disk, this`num, this`nums
      ensures go <==> i >= lo
      ensures go ==> MovingAt(prev, destnum, count, i - 1, lo, round, nums0, disk0)
      ensures !go ==> nums == old(nums) && num == old(num) && disk == old(disk)
    {
      var n := GetNum(data, Place(i, lo, round));
      if n == 0 {
        return None, 0, false;
      }
      prev, count := FinalMove(data, n, destnum, prevcount, i, lo, round, nums0, disk0);
      go := true;
    }

    /** The file gets its final name. */
    method FinalMove(data: IxfrData, n: nat, destnum: nat, prevcount: nat,
                     ghost i: nat, ghost lo: nat, ghost round: bool, ghost nums0: seq<nat>, ghost disk0: Disk)
      returns (prev: Option<IxfrData>, count: nat)
      requires Attached() && lo <= i < written < |nums| && data == es[i] && n == nums[i] && destnum == |nums| - i
      requires Moving(es, nums0, nums, written, i, disk0, disk) && prevcount + i < |nums|
      requires Bounded(zone.data, zone.path, lo, written, round)
      modifies this`disk, this`num, this`nums
      ensures Attached() && Moving(es, nums0, nums, written, i - 1, disk0, disk)
      ensures Standing(prev, i - 1, lo, round) && count + i <= |nums|
    {
      FinalStep(es, nums0, nums, written, i, disk0, disk);
      disk := Rename(disk - {(destnum, false)}, n, true, destnum, false);
      SetNum(data, destnum, i);
      prev, count := Back(data, prevcount, i, lo, written, round);
    }

    /** `ixfr_rename_files`: room for the unwritten differences in front. */
    method RenameFiles(dest: nat)
      requires Valid() && dest == |nums|
      modifies this`disk, this`num, this`nums
      ensures Attached()
      ensures Renamed(es, old(nums), nums, written, RenameStop(zone.data, zone.path, written), disk)
      ensures (|nums| + 1, false) !in old(disk) ==> (|nums| + 1, false) !in disk
    {
      var data := First();
      if data.None? {
        return;
      }
      var n := GetNum(data.value, 0);
      if n == dest {
        return;
      }
      var start, destnum := ToTemporary(dest);
      ToFinal(start, destnum);
    }

    /** `ixfr_write_files`: the unwritten differences, from the newest, until
        one that has a file is met. */
    method WriteFiles()
      requires Attached() && written <= |nums|
      requires forall j :: 0 <= j < |nums| ==> (nums[j] == 0 <==> j >= written)
      modifies this`disk, this`num, this`nums
      ensures Attached()
      ensures Writing(es, old(nums), nums, Stop(zone.data, zone.path, written, |nums|) - 1, old(disk), disk)
    {
      ghost var lo, round := StopBounds(zone.data, zone.path, written, |nums|);
      var last := Last();
      WriteBack(last, lo, round);
    }

    method WriteBack(last: Option<IxfrData>, ghost lo: nat, ghost round: bool)
      requires WritingAt(last, 1, 0, |nums| - 1, lo, round, nums, disk)
      modifies this`disk, this`num, this`nums
      ensures Attached() && Writing(es, old(nums), nums, lo - 1, old(disk), disk)
    {
      var data, file: nat, prevcount: nat := last, 1, 0;
      ghost var i: int, nums0, disk0 := |nums| - 1, nums, disk;
      while data.Some?
        invariant WritingAt(data, file, prevcount, i, lo, round, nums0, disk0)
        decreases i + 1
      {
        var go;
        data, prevcount, go := WriteOne(data.value, file, prevcount, i, lo, round, nums0, disk0);
        if !go {
          break;
        }
        file := file + 1;
        i := i - 1;
      }
    }

    ghost predicate WritingAt(data: Option<IxfrData>, file: nat, prevcount: nat, i: int, lo: nat, round: bool,
                              nums0: seq<nat>, disk0: Disk)
      reads this, zone
    {
      && Attached() && written <= lo && Bounded(zone.data, zone.path, lo, |nums|, round) && (lo > written ==> round)
      && lo - 1 <= i < |nums| && Standing(data, i, lo, round)
      && Writing(es, nums0, nums, i, disk0, disk) && (forall j :: 0 <= j < |nums0| ==> (nums0[j] == 0 <==> j >= written))
      && file == |nums| - i && prevcount + i < |nums|
    }

    /** One turn of it: `ixfr_write_file`, when it succeeds. */
    method WriteOne(data: IxfrData, file: nat, prevcount: nat,
                    ghost i: int, ghost lo: nat, ghost round: bool, ghost nums0: seq<nat>, ghost disk0: Disk)
      returns (prev: Option<IxfrData>, count: nat, go: bool)
      requires WritingAt(Some(data), file, prevcount, i, lo, round, nums0, disk0)
      modifies this`disk, this`num, this`nums
      ensures go <==> i >= lo
      ensures go ==> WritingAt(prev, file + 1, count, i - 1, lo, round, nums0, disk0)
      ensures !go ==> nums == old(nums) && num == old(num) && disk == old(disk)
    {
      var n := GetNum(data, Place(i, lo, round));
      if n != 0 {
        return None, 0, false;
      }
      prev, count := WriteMove(data, file, prevcount, i, lo, round, nums0, disk0);
      go := true;
    }

    /** The difference gets its file. */
    method WriteMove(data: IxfrData, file: nat, prevcount: nat,
                     ghost i: nat, ghost lo: nat, ghost round: bool, ghost nums0: seq<nat>, ghost disk0: Disk)
      returns (prev: Option<IxfrData>, count: nat)
      requires Attached() && lo <= i < |nums| && data == es[i] && file == |nums| - i
      requires Writing(es, nums0, nums, i, disk0, disk) && prevcount + i < |nums|
      requires Bounded(zone.data, zone.path, lo, |nums|, round)
      modifies this`disk, this`num, this`nums
      ensures Attached() && Writing(es, nums0, nums, i - 1, disk0, disk)
      ensures Standing(prev, i - 1, lo, round) && count + i <= |nums|
    {
      WriteStep(es, nums0, nums, i, disk0, disk);
      disk := disk[(file, false) := data];
      SetNum(data, file, i);
      prev, count := Back(data, prevcount, i, lo, |nums|, round);
    }

    /** `ixfr_write_to_file`: afterwards only the newest differences, as many as
        are wanted, are kept.  They are all on disk, each in the file whose
        number counts it from the newest, exactly when the newest difference
        hid no predecessor from the loops that go back; the differences from
        there on are in their files in any case. */
    method WriteToFile()
      requires Valid()
      modifies this, zone
      ensures Attached() && |nums| == if number < |old(nums)| then number else |old(nums)|
      ensures es == old(es)[|old(nums)| - |nums|..]
      ensures Filed(es, nums, 0, |nums|, disk) <==>
              NothingHidden(old(zone.data), old(zone.path), old(written), |old(nums)| - |nums|)
      ensures Filed(es, nums, 0, |nums|, disk) ==> written == |nums| && Valid() && (|nums| + 1, false) !in disk
      ensures var r := |old(nums)| - |nums|;
              Filed(es, nums, Stop(old(zone.data), old(zone.path), r, |old(nums)|) - r, |nums|, disk)
    {
      var dest := Trim();
      FileAll(dest);
    }

    /** Drops what is not wanted any more, on disk and in memory. */
    method Trim() returns (dest: nat)
      requires Valid()
      modifies this`disk, this`num, this`nums, this`es, this`written, zone
      ensures Valid() && dest == |nums| && (dest + 1, false) !in disk
      ensures dest == if number < |old(nums)| then number else |old(nums)|
      ensures es == old(es)[|old(nums)| - dest..]
      ensures SameWalk(old(zone.data), old(zone.path), zone.data, zone.path, old(written), written, |old(nums)| - dest)
    {
      dest := TargetNumberFiles();
      DeleteSuperfluousFiles(dest);
      StillInFiles(es, nums, written, old(disk), disk, dest);
      DeleteMemoryItems(dest);
    }

    /** The differences that are kept get their files. */
    method FileAll(dest: nat)
      requires Valid() && dest == |nums| && (dest + 1, false) !in disk
      modifies this`disk, this`num, this`nums, this`written
      ensures Attached() && |nums| == |old(nums)|
      ensures Filed(es, nums, 0, |nums|, disk) <==> NothingHidden(zone.data, zone.path, old(written), 0)
      ensures Filed(es, nums, 0, |nums|, disk) ==> written == |nums| && Valid() && (|nums| + 1, false) !in disk
      ensures Filed(es, nums, Stop(zone.data, zone.path, 0, |nums|), |nums|, disk)
    {
      ghost var nums0 := nums;
      RenameFiles(dest);
      ghost var nums1, disk1 := nums, disk;
      WriteFiles();
      Outcome(zone.data, zone.path, es, nums0, nums1, nums, written, disk1, disk);
      if Filed(es, nums, 0, |nums|, disk) {
        written := |nums|;
      }
    }
  }

  lemma Outcome(data: map<Serial, IxfrData>, path: seq<Serial>, es: seq<IxfrData>,
                nums0: seq<nat>, nums1: seq<nat>, nums: seq<nat>, w: nat, disk1: Disk, disk: Disk)
    requires Chain(data, path) && |path| == |es| == |nums0| && w <= |path|
    requires Renamed(es, nums0, nums1, w, RenameStop(data, path, w), disk1)
    requires Writing(es, nums1, nums, Stop(data, path, w, |path|) - 1, disk1, disk)
    ensures Filed(es, nums, 0, |es|, disk) <==> NothingHidden(data, path, w, 0)
    ensures Filed(es, nums, Stop(data, path, 0, |path|), |es|, disk)
    ensures Filed(es, nums, 0, |es|, disk) ==> Numbered(nums, |nums|, 0) && InFiles(es, nums, 0, |nums|, disk, false)
    ensures (|es| + 1, false) !in disk1 ==> (|es| + 1, false) !in disk
  {
    ChainLinked(data, path);
    StopsAgree(data, path, w);
    AllFiled(es, nums0, nums1, nums, w, RenameStop(data, path, w), Stop(data, path, w, |path|), disk1, disk);
  }

  /** A walk is cut short exactly where something is hidden. */
  lemma StopsAgree(data: map<Serial, IxfrData>, path: seq<Serial>, w: nat)
    requires w <= |path|
    ensures NothingHidden(data, path, w, 0) <==> RenameStop(data, path, w) == 0 && Stop(data, path, w, |path|) == w
    ensures Linked(data, path) ==>
              var k := Stop(data, path, 0, |path|);
              RenameStop(data, path, w) <= k && (Stop(data, path, w, |path|) > w ==> Stop(data, path, w, |path|) == k)
  {
  }

  /** The walks back over the shorter chain end where they would have ended. */
  ghost predicate SameWalk(data0: map<Serial, IxfrData>, path0: seq<Serial>, data: map<Serial, IxfrData>, path: seq<Serial>,
                           w0: nat, w: nat, r: nat) {
    && r + |path| == |path0|
    && (NothingHidden(data, path, w, 0) <==> NothingHidden(data0, path0, w0, r))
    && Stop(data, path, 0, |path|) == Stop(data0, path0, r, |path0|) - r
  }

  lemma SameWalks(data0: map<Serial, IxfrData>, path0: seq<Serial>, data: map<Serial, IxfrData>, path: seq<Serial>,
                  w0: nat, w: nat, r: nat)
    requires Shorter(data0, path0, data, path, r) && w0 <= |path0| && w == if w0 > r then w0 - r else 0
    ensures SameWalk(data0, path0, data, path, w0, w, r)
  {
    SameHidden(data0, path0, data, path, w0, r);
    SameStop(data0, path0, data, path, r, |path|);
  }

  lemma StillInFiles(es: seq<IxfrData>, nums: seq<nat>, w: nat, disk0: Disk, disk: Disk, dest: nat)
    requires |es| == |nums| && dest <= |nums| && Numbered(nums, w, 0) && InFiles(es, nums, 0, w, disk0, false)
    requires forall n, t :: (n, t) in disk ==> (n, t) in disk0 && disk[(n, t)] == disk0[(n, t)]
    requires forall n, t :: (n, t) in disk0 && (t || n <= dest) ==> (n, t) in disk
    ensures InFiles(es, nums, |nums| - dest, w, disk, false)
  {
  }

  lemma HidesLater(data0: map<Serial, IxfrData>, path0: seq<Serial>, data: map<Serial, IxfrData>, path: seq<Serial>, r: nat, i: nat)
    requires Shorter(data0, path0, data, path, r) && 0 < i < |path|
    ensures Hides(data, path, i) <==> Hides(data0, path0, r + i)
  {
    assert path[i] == path0[r + i] && path[i - 1] == path0[r + i - 1] && path[|path| - 1] == path0[|path0| - 1];
  }

  lemma {:induction false} SameStop(data0: map<Serial, IxfrData>, path0: seq<Serial>, data: map<Serial, IxfrData>, path: seq<Serial>, r: nat, hi: nat)
    requires Shorter(data0, path0, data, path, r) && hi <= |path|
    ensures Stop(data, path, 0, hi) == Stop(data0, path0, r, r + hi) - r
    decreases hi
  {
    if hi > 1 {
      HidesLater(data0, path0, data, path, r, hi - 1);
      SameStop(data0, path0, data, path, r, hi - 1);
    }
  }

  /** After the oldest differences are dropped, the same is hidden. */
  lemma SameHidden(data0: map<Serial, IxfrData>, path0: seq<Serial>, data: map<Serial, IxfrData>, path: seq<Serial>, w: nat, r: nat)
    requires Shorter(data0, path0, data, path, r) && w <= |path0|
    ensures NothingHidden(data, path, if w > r then w - r else 0, 0) <==> NothingHidden(data0, path0, w, r)
  {
    var w' := if w > r then w - r else 0;
    forall i | 0 < i < |path|
      ensures Hides(data, path, i) <==> Hides(data0, path0, r + i)
    {
      HidesLater(data0, path0, data, path, r, i);
    }
    if NothingHidden(data, path, w', 0) && w != |path0| && path != [] {
      forall i | r < i < |path0| && i != w
        ensures !Hides(data0, path0, i)
      {
        assert Hides(data, path, i - r) <==> Hides(data0, path0, r + (i - r));
      }
    }
  }

  /** Renaming and writing together file every difference exactly when neither
      was cut short. */
  lemma AllFiled(es: seq<IxfrData>, nums0: seq<nat>, nums1: seq<nat>, nums: seq<nat>, w: nat, lo1: nat, lo2: nat, disk1: Disk, disk: Disk)
    requires Renamed(es, nums0, nums1, w, lo1, disk1) && Writing(es, nums1, nums, lo2 - 1, disk1, disk)
    requires w <= lo2 <= |es| && (w == |es| ==> lo1 == 0) && (lo1 > 0 ==> lo1 < w)
    ensures Filed(es, nums, 0, |es|, disk) <==> lo1 == 0 && lo2 == w
    ensures Filed(es, nums, if lo2 > w then lo2 else lo1, |es|, disk)
  {
    if lo1 > 0 {
      assert nums[lo1 - 1] == nums1[lo1 - 1] == nums0[lo1 - 1] == w - (lo1 - 1);
    } else if lo2 > w {
      assert nums[lo2 - 1] == nums1[lo2 - 1] == nums0[lo2 - 1] == 0;
    }
  }

  /** How far back `ixfr_rename_files` gets. */
  ghost function RenameStop(data: map<Serial, IxfrData>, path: seq<Serial>, w: nat): nat
    requires w <= |path|
  {
    if w == |path| then 0 else Stop(data, path, 0, w)
  }

  /** The differences from `lo` to `w` are in their final files, and the others
      have the numbers they had. */
  ghost predicate Renamed(es: seq<IxfrData>, nums0: seq<nat>, nums: seq<nat>, w: nat, lo: nat, disk: Disk) {
    && |nums| == |nums0| == |es| && lo <= w <= |es| && Numbered(nums0, w, 0)
    && (forall j :: 0 <= j < |es| && !(lo <= j < w) ==> nums[j] == nums0[j])
    && Filed(es, nums, lo, w, disk)
  }

  /** Files of the differences after `i` have their final names; those before
      have temporary ones still. */
  ghost predicate Moving(es: seq<IxfrData>, nums0: seq<nat>, nums: seq<nat>, w: nat, i: int, disk0: Disk, disk: Disk) {
    && |nums| == |nums0| == |es| && -1 <= i < w <= |es| && Numbered(nums0, w, 0)
    && (forall j :: 0 <= j < |es| && !(i < j < w) ==> nums[j] == nums0[j])
    && Filed(es, nums, i + 1, w, disk) && InFiles(es, nums, 0, i + 1, disk, true)
    && ((|nums| + 1, false) !in disk0 ==> (|nums| + 1, false) !in disk)
  }

  lemma TemporaryStep(es: seq<IxfrData>, nums: seq<nat>, w: nat, i: nat, disk: Disk)
    requires |es| == |nums| && Numbered(nums, w, 0) && i < w
    requires InFiles(es, nums, 0, i, disk, true) && InFiles(es, nums, i, w, disk, false)
    ensures InFile(disk, nums[i], false, es[i])
    ensures var disk' := Rename(disk - {(nums[i], true)}, nums[i], false, nums[i], true);
            && InFiles(es, nums, 0, i + 1, disk', true) && InFiles(es, nums, i + 1, w, disk', false)
            && ((|nums| + 1, false) !in disk ==> (|nums| + 1, false) !in disk')
  {
    assert forall j :: 0 <= j < w && j != i ==> nums[j] != nums[i];
  }

  /** The chain without its oldest `r` entries. */
  ghost predicate Shorter(data0: map<Serial, IxfrData>, path0: seq<Serial>, data: map<Serial, IxfrData>, path: seq<Serial>, r: nat) {
    && r <= |path0| && path == path0[r..]
    && forall i :: 0 <= i < |path| ==> path[i] in data && path[i] in data0 && data[path[i]] == data0[path[i]]
  }

  /** The oldest `r` differences are gone. */
  ghost predicate Dropped(nums0: seq<nat>, es0: seq<IxfrData>, path0: seq<Serial>, w0: nat, r: nat,
                          nums: seq<nat>, es: seq<IxfrData>, path: seq<Serial>, w: nat) {
    && r <= |nums0| == |es0| == |path0| && nums == nums0[r..] && es == es0[r..] && path == path0[r..]
    && w == if w0 > r then w0 - r else 0
  }

  lemma DropMore(nums0: seq<nat>, es0: seq<IxfrData>, path0: seq<Serial>, w0: nat, r: nat,
                 nums: seq<nat>, es: seq<IxfrData>, path: seq<Serial>, w: nat)
    requires Dropped(nums0, es0, path0, w0, r, nums, es, path, w) && r < |nums0|
    ensures Dropped(nums0, es0, path0, w0, r + 1, nums[1..], es[1..], path[1..], if w > 0 then w - 1 else 0)
  {
  }

  lemma AfterDrop(data0: map<Serial, IxfrData>, path0: seq<Serial>, es0: seq<IxfrData>, nums0: seq<nat>, w0: nat, r: nat,
                  data: map<Serial, IxfrData>, path: seq<Serial>, es: seq<IxfrData>, nums: seq<nat>, w: nat, disk: Disk)
    requires Chain(data0, path0) && es0 == Collect(data0, path0) && Chain(data, path) && es == Collect(data, path)
    requires Dropped(nums0, es0, path0, w0, r, nums, es, path, w) && w0 <= |nums0|
    requires InFiles(es0, nums0, r, w0, disk, false)
    ensures w <= |es| && InFiles(es, nums, 0, w, disk, false) && SameWalk(data0, path0, data, path, w0, w, r)
  {
    TailInFiles(es0, nums0, w0, disk, r);
    TailShorter(data0, path0, es0, data, path, r);
    SameWalks(data0, path0, data, path, w0, w, r);
  }

  lemma TailShorter(data0: map<Serial, IxfrData>, path0: seq<Serial>, es0: seq<IxfrData>,
                    data: map<Serial, IxfrData>, path: seq<Serial>, r: nat)
    requires Chain(data0, path0) && Chain(data, path) && r <= |path0| && path == path0[r..]
    requires es0 == Collect(data0, path0) && |es0| == |path0| && Collect(data, path) == es0[r..]
    ensures Shorter(data0, path0, data, path, r)
  {
    CollectAt(data0, path0);
    CollectAt(data, path);
    forall i | 0 <= i < |path|
      ensures path[i] in data && path[i] in data0 && data[path[i]] == data0[path[i]]
    {
      assert es0[r..][i] == es0[r + i] && path[i] == path0[r + i];
    }
  }

  lemma TailInFiles(es: seq<IxfrData>, nums: seq<nat>, w: nat, disk: Disk, r: nat)
    requires r <= |es| == |nums| && w <= |nums| && InFiles(es, nums, r, w, disk, false)
    ensures InFiles(es[r..], nums[r..], 0, if w > r then w - r else 0, disk, false)
  {
    forall i | 0 <= i < w - r
      ensures InFile(disk, nums[r..][i], false, es[r..][i])
    {
      assert nums[r..][i] == nums[r + i] && es[r..][i] == es[r + i];
    }
  }

  lemma FinalStep(es: seq<IxfrData>, nums0: seq<nat>, nums: seq<nat>, w: nat, i: int, disk0: Disk, disk: Disk)
    requires Moving(es, nums0, nums, w, i, disk0, disk) && i >= 0 && w < |es|
    ensures InFile(disk, nums[i], true, es[i])
    ensures var to := |es| - i;
            Moving(es, nums0, nums[i := to], w, i - 1, disk0, Rename(disk - {(to, false)}, nums[i], true, to, false))
  {
    assert forall j :: 0 <= j < i ==> nums[j] != nums[i];
  }

  /** The differences after `i` have been written. */
  ghost predicate Writing(es: seq<IxfrData>, nums0: seq<nat>, nums: seq<nat>, i: int, disk0: Disk, disk: Disk) {
    && |nums| == |nums0| == |es| && -1 <= i < |es|
    && (forall j :: 0 <= j <= i ==> nums[j] == nums0[j])
    && Filed(es, nums, i + 1, |es|, disk)
    && forall m, t :: t || m > |es| - 1 - i ==>
         ((m, t) in disk <==> (m, t) in disk0) && ((m, t) in disk ==> disk[(m, t)] == disk0[(m, t)])
  }

  lemma WriteStep(es: seq<IxfrData>, nums0: seq<nat>, nums: seq<nat>, i: int, disk0: Disk, disk: Disk)
    requires Writing(es, nums0, nums, i, disk0, disk) && i >= 0
    ensures Writing(es, nums0, nums[i := |es| - i], i - 1, disk0, disk[(|es| - i, false) := es[i]])
  {
  }

  /** On a history that goes once round the circle of serials, the oldest
      difference is never written. */
  method AFileIsMissing() returns (store: IxfrStore)
    ensures store.Attached() && |store.es| == 6
    ensures forall i :: 0 <= i < 6 ==> CompareSerial(store.es[i].oldserial, store.es[i].newserial) < 0
    ensures Filed(store.es, store.nums, 1, 6, store.disk)
    ensures !Filed(store.es, store.nums, 0, 6, store.disk)
  {
    var zone := RoundTheCircle();
    store := new IxfrStore(zone, 6);
    ghost var data, path := zone.data, zone.path;
    CollectAt(data, path);
    ChainLinked(data, path);
    FirstIsHidden(data, path);
    store.WriteToFile();
  }

  lemma FirstIsHidden(data: map<Serial, IxfrData>, path: seq<Serial>)
    requires path == [5, 7, 0x4000_0007, 0x8000_0007, 0xC000_0007, 6] && 6 in data && data[6].newserial == 7
    ensures !NothingHidden(data, path, 0, 0) && Stop(data, path, 0, 6) == 1
  {
    assert Back(7, 6) == 1 && Back(7, 5) == 2;
    assert Hides(data, path, 1);
  }
}
