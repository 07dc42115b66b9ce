/** What a WasmFS disk means: a map from names to contents, allocated upwards from block 1. */
module FsLayout {
  import opened Words
  import opened Block
  import opened Directory

  /** A stored file: where it starts and what it holds. */
  datatype File = File(start: nat, data: seq<byte>)

  /** Blocks an allocation of `size` bytes takes; an empty file takes one. */
  function Span(size: nat): (n: nat)
    ensures n >= 1 && BLOCK_SIZE * n >= size
    ensures size > 0 ==> BLOCK_SIZE * (n - 1) < size
  {
    if size == 0 then 1 else (size + BLOCK_SIZE - 1) / BLOCK_SIZE
  }

  function End(f: File): nat {
    f.start + Span(|f.data|)
  }

  ghost predicate DiskShape(disk: seq<byte>) {
    |disk| >= BLOCK_SIZE && |disk| % BLOCK_SIZE == 0 && |disk| < BLOCK_SIZE * TWO32
  }

  function Entry(disk: seq<byte>, i: nat): DirEntry
    requires |disk| >= BLOCK_SIZE && i < DIR_ENTRIES
  {
    ReadEntry(disk[..BLOCK_SIZE], i)
  }

  /** `size` bytes lie on the device from block `start` on; an empty extent lies anywhere. */
  ghost predicate OnDisk(disk: seq<byte>, start: nat, size: nat) {
    size > 0 ==> BLOCK_SIZE * (start + Span(size)) <= |disk|
  }

  ghost function Content(disk: seq<byte>, start: nat, size: nat): (c: seq<byte>)
    requires OnDisk(disk, start, size)
    ensures |c| == size
  {
    if size == 0 then [] else disk[BLOCK_SIZE * start..BLOCK_SIZE * start + size]
  }

  ghost predicate Used(disk: seq<byte>, i: nat, n: seq<byte>)
    requires |disk| >= BLOCK_SIZE && i < DIR_ENTRIES
  {
    IsValid(Entry(disk, i)) && TrimName(Entry(disk, i).name) == n
  }

  ghost predicate EntryOk(disk: seq<byte>, e: DirEntry) {
    1 <= e.startBlock && e.startBlock + Span(e.size) < TWO32 && OnDisk(disk, e.startBlock, e.size)
  }

  predicate Apart(e: DirEntry, f: DirEntry) {
    e.startBlock + Span(e.size) <= f.startBlock || f.startBlock + Span(f.size) <= e.startBlock
  }

  /** Valid extents are on the device, off block 0 and pairwise disjoint; valid names are distinct. */
  ghost predicate Layout(disk: seq<byte>)
    requires DiskShape(disk)
  {
    && (forall i: nat :: i < DIR_ENTRIES && IsValid(Entry(disk, i)) ==> EntryOk(disk, Entry(disk, i)))
    && (forall i: nat, j: nat | i < j < DIR_ENTRIES && IsValid(Entry(disk, i)) && IsValid(Entry(disk, j)) ::
          Apart(Entry(disk, i), Entry(disk, j)) && TrimName(Entry(disk, i).name) != TrimName(Entry(disk, j).name))
  }

  /** `files` is exactly what the valid entries say. */
  ghost predicate Describes(disk: seq<byte>, files: map<seq<byte>, File>)
    requires DiskShape(disk) && Layout(disk)
  {
    && (forall i: nat :: i < DIR_ENTRIES && IsValid(Entry(disk, i)) ==>
          var e := Entry(disk, i);
          var n := TrimName(e.name);
          n in files && files[n] == File(e.startBlock, Content(disk, e.startBlock, e.size)))
    && (forall n :: n in files ==> exists i: nat :: i < DIR_ENTRIES && Used(disk, i, n))
  }

  /** A name that is too long or holds a NUL is never found: `fs_open` and `fs_unlink` fail on it, and every `fs_write`
      of it takes a new entry, under the name cut to 32 bytes. */
  lemma UnstorableNeverFound(disk: seq<byte>, name: seq<byte>, i: nat)
    requires |disk| >= BLOCK_SIZE && i < DIR_ENTRIES && !Storable(name)
    ensures !Used(disk, i, name)
  {
    TrimProperties(Entry(disk, i).name);
  }

  // ---- the allocation frontier ------------------------------------------------------------------------------

  function Max(a: nat, b: nat): nat {
    if a < b then b else a
  }

  /** `next_free_block` after its first `k` entries. */
  function Frontier(dir: seq<byte>, k: nat): (f: nat)
    requires |dir| == BLOCK_SIZE && k <= DIR_ENTRIES
    ensures f >= 1
  {
    if k == 0 then 1
    else
      var e := ReadEntry(dir, k - 1);
      var f := Frontier(dir, k - 1);
      if IsValid(e) then Max(f, e.startBlock + Span(e.size)) else f
  }

  lemma {:induction false} FrontierBounds(dir: seq<byte>, k: nat)
    requires |dir| == BLOCK_SIZE && k <= DIR_ENTRIES
    ensures forall i: nat :: i < k && IsValid(ReadEntry(dir, i)) ==>
              ReadEntry(dir, i).startBlock + Span(ReadEntry(dir, i).size) <= Frontier(dir, k)
    ensures Frontier(dir, k) == 1
            || exists i: nat :: i < k && IsValid(ReadEntry(dir, i))
                                && ReadEntry(dir, i).startBlock + Span(ReadEntry(dir, i).size) == Frontier(dir, k)
  {
    hide ReadEntry;
    if k > 0 { FrontierBounds(dir, k - 1); }
  }

  /** `f` is the least block above block 0 and above every file. */
  ghost predicate IsFrontier(files: map<seq<byte>, File>, f: nat) {
    && f >= 1
    && (forall n :: n in files ==> End(files[n]) <= f)
    && (f == 1 || exists n :: n in files && End(files[n]) == f)
  }

  /** What `next_free_block` computes from the directory bytes, said of the files. */
  lemma FrontierOfFiles(disk: seq<byte>, files: map<seq<byte>, File>)
    requires DiskShape(disk) && Layout(disk) && Describes(disk, files)
    ensures IsFrontier(files, Frontier(disk[..BLOCK_SIZE], DIR_ENTRIES))
  {
    hide ReadEntry, TrimName, Span, Content;
    var dir := disk[..BLOCK_SIZE];
    var f := Frontier(dir, DIR_ENTRIES);
    FrontierBounds(dir, DIR_ENTRIES);
    forall n | n in files ensures End(files[n]) <= f {
      var i: nat :| i < DIR_ENTRIES && Used(disk, i, n);
      assert Entry(disk, i) == ReadEntry(dir, i);
    }
    if f != 1 {
      var i: nat :| i < DIR_ENTRIES && IsValid(ReadEntry(dir, i))
                    && ReadEntry(dir, i).startBlock + Span(ReadEntry(dir, i).size) == f;
      var e := Entry(disk, i);
      var n := TrimName(e.name);
      assert n in files && End(files[n]) == f;
    }
  }

  // ---- the directory is full exactly with eight files -----------------------------------------------------------

  ghost function NamesUpTo(disk: seq<byte>, k: nat): set<seq<byte>>
    requires DiskShape(disk) && k <= DIR_ENTRIES
  {
    if k == 0 then {}
    else
      NamesUpTo(disk, k - 1)
      + (if IsValid(Entry(disk, k - 1)) then {TrimName(Entry(disk, k - 1).name)} else {})
  }

  ghost function ValidUpTo(disk: seq<byte>, k: nat): (c: nat)
    requires DiskShape(disk) && k <= DIR_ENTRIES
    ensures c <= k
    ensures c == k <==> forall i: nat :: i < k ==> IsValid(Entry(disk, i))
  {
    if k == 0 then 0
    else ValidUpTo(disk, k - 1) + (if IsValid(Entry(disk, k - 1)) then 1 else 0)
  }

  lemma {:induction false} NamesFound(disk: seq<byte>, k: nat, n: seq<byte>)
    requires DiskShape(disk) && k <= DIR_ENTRIES
    ensures n in NamesUpTo(disk, k) <==> exists i: nat :: i < k && Used(disk, i, n)
  {
    hide Entry, TrimName, IsValid;
    if k > 0 {
      NamesFound(disk, k - 1, n);
      assert n in NamesUpTo(disk, k) <==> n in NamesUpTo(disk, k - 1) || Used(disk, k - 1, n);
      hide NamesUpTo, Used;
    }
  }

  lemma {:induction false} CountNames(disk: seq<byte>, k: nat)
    requires DiskShape(disk) && k <= DIR_ENTRIES && Layout(disk)
    ensures |NamesUpTo(disk, k)| == ValidUpTo(disk, k)
  {
    hide Entry, TrimName, IsValid, Layout;
    if k > 0 {
      CountNames(disk, k - 1);
      if IsValid(Entry(disk, k - 1)) { LastNameIsNew(disk, k); }
    }
  }

  lemma LastNameIsNew(disk: seq<byte>, k: nat)
    requires DiskShape(disk) && 0 < k <= DIR_ENTRIES && Layout(disk) && IsValid(Entry(disk, k - 1))
    ensures TrimName(Entry(disk, k - 1).name) !in NamesUpTo(disk, k - 1)
  {
    hide Entry, TrimName, IsValid, Layout, NamesUpTo;
    var n := TrimName(Entry(disk, k - 1).name);
    NamesFound(disk, k - 1, n);
    FreshName(disk, k, n);
  }

  lemma FreshName(disk: seq<byte>, k: nat, n: seq<byte>)
    requires DiskShape(disk) && 0 < k <= DIR_ENTRIES && Layout(disk) && Used(disk, k - 1, n)
    ensures forall i: nat :: i < k - 1 ==> !Used(disk, i, n)
  {
    hide Entry, TrimName, Span, OnDisk, Apart;
  }

  lemma FullDirectory(disk: seq<byte>, files: map<seq<byte>, File>)
    requires DiskShape(disk) && Layout(disk) && Describes(disk, files)
    ensures |files| <= DIR_ENTRIES
    ensures |files| == DIR_ENTRIES <==> forall i: nat :: i < DIR_ENTRIES ==> IsValid(Entry(disk, i))
  {
    hide Entry, TrimName, Span, OnDisk;
    CountNames(disk, DIR_ENTRIES);
    forall n ensures n in files <==> n in NamesUpTo(disk, DIR_ENTRIES) {
      NamesFound(disk, DIR_ENTRIES, n);
    }
    assert files.Keys == NamesUpTo(disk, DIR_ENTRIES);
    assert |files.Keys| == |files|;
  }

  // ---- directory updates --------------------------------------------------------------------------------------

  function SetEntry(disk: seq<byte>, i: nat, e: DirEntry): (r: seq<byte>)
    requires |disk| >= BLOCK_SIZE && i < DIR_ENTRIES
    ensures |r| == |disk|
  {
    Splice(disk, 0, WriteEntry(disk[..BLOCK_SIZE], i, e))
  }

  lemma SetEntryReads(disk: seq<byte>, i: nat, e: DirEntry)
    requires |disk| >= BLOCK_SIZE && i < DIR_ENTRIES
    ensures forall j: nat :: j < DIR_ENTRIES ==> Entry(SetEntry(disk, i, e), j) == if j == i then e else Entry(disk, j)
    ensures SetEntry(disk, i, e)[BLOCK_SIZE..] == disk[BLOCK_SIZE..]
  {
    hide WriteEntry, ReadEntry;
    var dir := disk[..BLOCK_SIZE];
    assert SetEntry(disk, i, e)[..BLOCK_SIZE] == WriteEntry(dir, i, e);
    forall j: nat | j < DIR_ENTRIES
      ensures Entry(SetEntry(disk, i, e), j) == if j == i then e else Entry(disk, j)
    {
      WriteReadEntry(dir, i, e, j);
    }
  }

  /** Contents depend only on the bytes of their blocks. */
  lemma ContentFrame(d: seq<byte>, d': seq<byte>, limit: nat, start: nat, size: nat)
    requires |d| == |d'| && BLOCK_SIZE <= limit <= |d| && d[BLOCK_SIZE..limit] == d'[BLOCK_SIZE..limit]
    requires start >= 1 && OnDisk(d, start, size) && (size > 0 ==> BLOCK_SIZE * start + size <= limit)
    ensures OnDisk(d', start, size) && Content(d', start, size) == Content(d, start, size)
  {
    hide Span;
    if size > 0 {
      SubSlice(d, BLOCK_SIZE, limit, BLOCK_SIZE * start, BLOCK_SIZE * start + size);
      SubSlice(d', BLOCK_SIZE, limit, BLOCK_SIZE * start, BLOCK_SIZE * start + size);
    }
  }

  lemma SubSlice(d: seq<byte>, lo: nat, hi: nat, a: nat, b: nat)
    requires lo <= a <= b <= hi <= |d|
    ensures d[lo..hi][a - lo..b - lo] == d[a..b]
  {
    var l, r := d[lo..hi][a - lo..b - lo], d[a..b];
    assert |l| == |r|;
    forall k | 0 <= k < |l| ensures l[k] == r[k] {
      assert l[k] == d[lo..hi][a - lo + k];
    }
  }

  /** The slot `fs_write` picks: the file's own entry, else the first free one. */
  ghost predicate SlotFor(disk: seq<byte>, name: seq<byte>, slot: Option<nat>)
    requires |disk| >= BLOCK_SIZE
  {
    match slot
    case None => forall i: nat :: i < DIR_ENTRIES ==> IsValid(Entry(disk, i)) && !Used(disk, i, name)
    case Some(s) =>
      && s < DIR_ENTRIES
      && (Used(disk, s, name)
          || (&& !IsValid(Entry(disk, s))
              && forall i: nat :: i < DIR_ENTRIES ==> !Used(disk, i, name)))
  }

  /** Committing the new entry over data written at the frontier updates exactly one name. */
  lemma CommitWrite(disk: seq<byte>, files: map<seq<byte>, File>, mid: seq<byte>, name: seq<byte>, slot: nat,
                    start: u32, data: seq<byte>)
    requires DiskShape(disk) && Layout(disk) && Describes(disk, files)
    requires Storable(name) && SlotFor(disk, name, Some(slot)) && |data| < TWO32
    requires IsFrontier(files, start) && start + Span(|data|) < TWO32
    requires |mid| == |disk| && OnDisk(disk, start, |data|)
    requires mid[..Min(BLOCK_SIZE * start, |disk|)] == disk[..Min(BLOCK_SIZE * start, |disk|)]
    requires Content(mid, start, |data|) == data
    ensures var e := DirEntry(PadName(name), start, |data|, 1);
            var disk' := SetEntry(mid, slot, e);
            && DiskShape(disk') && Layout(disk') && Describes(disk', files[name := File(start, data)])
  {
    hide PadName, TrimName, Entry, SetEntry, Span, Layout, Describes, SlotFor, IsFrontier, Storable, DiskShape, OnDisk,
         Content, EntryOk, Replaced, FilesKept, IsValid;
    var e := DirEntry(PadName(name), start, |data|, 1);
    CommitRange(disk, name, slot);
    var disk' := SetEntry(mid, slot, e);
    CommitFrame(disk, files, mid, name, slot, start, e);
    CommitData(disk, mid, disk', start, |data|);
    CommitLayout(disk, disk', slot, e, name);
    CommitDescribes(disk, files, disk', slot, e, name, data);
  }

  /** `e` replaces the entry in `slot`; everything else in the directory is as it was. */
  ghost predicate Replaced(disk: seq<byte>, disk': seq<byte>, slot: nat, e: DirEntry) {
    && |disk'| == |disk| >= BLOCK_SIZE
    && forall j: nat | j < DIR_ENTRIES :: Entry(disk', j) == if j == slot then e else Entry(disk, j)
  }

  /** The files in the directory end at or below `start` and keep their contents. */
  ghost predicate FilesKept(disk: seq<byte>, disk': seq<byte>, start: nat)
    requires |disk| >= BLOCK_SIZE
  {
    forall i: nat | i < DIR_ENTRIES && IsValid(Entry(disk, i)) :: FileKept(disk, disk', start, Entry(disk, i))
  }

  ghost predicate FileKept(disk: seq<byte>, disk': seq<byte>, start: nat, e: DirEntry) {
    && e.startBlock + Span(e.size) <= start
    && OnDisk(disk, e.startBlock, e.size) && OnDisk(disk', e.startBlock, e.size)
    && Content(disk', e.startBlock, e.size) == Content(disk, e.startBlock, e.size)
  }

  lemma SlotInRange(disk: seq<byte>, name: seq<byte>, slot: nat)
    requires |disk| >= BLOCK_SIZE && SlotFor(disk, name, Some(slot))
    ensures slot < DIR_ENTRIES
  {
  }

  lemma CommitRange(disk: seq<byte>, name: seq<byte>, slot: nat)
    requires DiskShape(disk) && SlotFor(disk, name, Some(slot))
    ensures |disk| >= BLOCK_SIZE && slot < DIR_ENTRIES
  {
    SlotInRange(disk, name, slot);
  }

  lemma FrontierAboveDirectory(files: map<seq<byte>, File>, start: nat, disk: seq<byte>)
    requires IsFrontier(files, start) && DiskShape(disk)
    ensures start >= 1 && |disk| >= BLOCK_SIZE && BLOCK_SIZE <= Min(BLOCK_SIZE * start, |disk|) <= |disk|
  {
  }

  lemma CommitFrame(disk: seq<byte>, files: map<seq<byte>, File>, mid: seq<byte>, name: seq<byte>, slot: nat,
                    start: u32, e: DirEntry)
    requires DiskShape(disk) && Layout(disk) && Describes(disk, files) && IsFrontier(files, start) && |mid| == |disk|
    requires Storable(name) && SlotFor(disk, name, Some(slot)) && e == DirEntry(PadName(name), start, e.size, 1)
    requires mid[..Min(BLOCK_SIZE * start, |disk|)] == disk[..Min(BLOCK_SIZE * start, |disk|)]
    ensures start >= 1 && |disk| >= BLOCK_SIZE && slot < DIR_ENTRIES && IsValid(e) && TrimName(e.name) == name
    ensures var disk' := SetEntry(mid, slot, e);
            && DiskShape(disk') && disk'[BLOCK_SIZE..] == mid[BLOCK_SIZE..]
            && Replaced(disk, disk', slot, e) && FilesKept(disk, disk', start)
  {
    assert IsValid(e) && |disk| >= BLOCK_SIZE;
    SlotInRange(disk, name, slot);
    assert DiskShape(SetEntry(mid, slot, e));
    hide *;
    NameRoundTrip(name);
    FrontierAboveDirectory(files, start, disk);
    var limit := Min(BLOCK_SIZE * start, |disk|);
    SetEntryReads(mid, slot, e);
    BelowLimit(disk, mid, SetEntry(mid, slot, e), limit);
    EntriesAfter(disk, mid, slot, e);
    OldEntriesKept(disk, files, SetEntry(mid, slot, e), start, limit);
  }

  /** The data is still where it was written. */
  lemma CommitData(disk: seq<byte>, mid: seq<byte>, disk': seq<byte>, start: u32, size: u32)
    requires |disk| == |mid| == |disk'| >= BLOCK_SIZE && disk'[BLOCK_SIZE..] == mid[BLOCK_SIZE..]
    requires start >= 1 && OnDisk(disk, start, size) && start + Span(size) < TWO32
    ensures OnDisk(mid, start, size) && OnDisk(disk', start, size)
    ensures Content(disk', start, size) == Content(mid, start, size)
    ensures forall name: Name :: EntryOk(disk', DirEntry(name, start, size, 1))
  {
    WholeDiskFrame(mid, disk', start, size);
    hide Span, Content;
  }

  lemma BelowLimit(disk: seq<byte>, mid: seq<byte>, disk': seq<byte>, limit: nat)
    requires |disk| == |mid| == |disk'| && BLOCK_SIZE <= limit <= |disk|
    requires mid[..limit] == disk[..limit] && disk'[BLOCK_SIZE..] == mid[BLOCK_SIZE..]
    ensures mid[..BLOCK_SIZE] == disk[..BLOCK_SIZE] && disk'[BLOCK_SIZE..limit] == disk[BLOCK_SIZE..limit]
  {
    SubSlice(mid, 0, limit, 0, BLOCK_SIZE);
    SubSlice(disk, 0, limit, 0, BLOCK_SIZE);
    SubSlice(disk', BLOCK_SIZE, |disk|, BLOCK_SIZE, limit);
    SubSlice(mid, BLOCK_SIZE, |disk|, BLOCK_SIZE, limit);
    SubSlice(mid, 0, limit, BLOCK_SIZE, limit);
    SubSlice(disk, 0, limit, BLOCK_SIZE, limit);
    assert mid[0..limit] == disk[0..limit];
    assert disk'[BLOCK_SIZE..|disk|] == disk'[BLOCK_SIZE..] && mid[BLOCK_SIZE..|disk|] == mid[BLOCK_SIZE..];
  }

  lemma EntriesAfter(disk: seq<byte>, mid: seq<byte>, slot: nat, e: DirEntry)
    requires |disk| == |mid| >= BLOCK_SIZE && slot < DIR_ENTRIES && mid[..BLOCK_SIZE] == disk[..BLOCK_SIZE]
    ensures Replaced(disk, SetEntry(mid, slot, e), slot, e)
  {
    SetEntryReads(mid, slot, e);
  }

  lemma OldEntriesKept(disk: seq<byte>, files: map<seq<byte>, File>, disk': seq<byte>, start: nat, limit: nat)
    requires DiskShape(disk) && Layout(disk) && Describes(disk, files) && IsFrontier(files, start)
    requires |disk'| == |disk| && limit == Min(BLOCK_SIZE * start, |disk|)
    requires disk'[BLOCK_SIZE..limit] == disk[BLOCK_SIZE..limit]
    ensures FilesKept(disk, disk', start)
  {
    hide TrimName, Entry, Content, Span;
    forall i: nat | i < DIR_ENTRIES && IsValid(Entry(disk, i)) ensures FileKept(disk, disk', start, Entry(disk, i)) {
      var e := Entry(disk, i);
      assert EntryOk(disk, e);
      var n := TrimName(e.name);
      assert files[n] == File(e.startBlock, Content(disk, e.startBlock, e.size));
      ContentFrame(disk, disk', limit, e.startBlock, e.size);
    }
  }

  lemma NameHasOneSlot(disk: seq<byte>, name: seq<byte>, slot: nat, k: nat)
    requires DiskShape(disk) && Layout(disk) && SlotFor(disk, name, Some(slot)) && k < DIR_ENTRIES && k != slot
    ensures !Used(disk, k, name)
  {
    hide Entry, TrimName, Span, OnDisk, Apart;
  }

  lemma CommitLayout(disk: seq<byte>, disk': seq<byte>, slot: nat, e: DirEntry, name: seq<byte>)
    requires DiskShape(disk) && Layout(disk) && SlotFor(disk, name, Some(slot))
    requires IsValid(e) && TrimName(e.name) == name
    requires DiskShape(disk') && Replaced(disk, disk', slot, e) && FilesKept(disk, disk', e.startBlock)
    requires EntryOk(disk', e)
    ensures Layout(disk')
  {
    hide TrimName, Entry, Span;
    forall i: nat | i < DIR_ENTRIES && IsValid(Entry(disk', i)) ensures EntryOk(disk', Entry(disk', i)) {
      if i != slot { assert EntryOk(disk, Entry(disk, i)) && FileKept(disk, disk', e.startBlock, Entry(disk, i)); }
    }
    forall i: nat, j: nat | i < DIR_ENTRIES && j < DIR_ENTRIES && i != j
                            && IsValid(Entry(disk', i)) && IsValid(Entry(disk', j))
      ensures Apart(Entry(disk', i), Entry(disk', j))
              && TrimName(Entry(disk', i).name) != TrimName(Entry(disk', j).name)
    {
      if i != slot && j != slot {
        assert Apart(Entry(disk, i), Entry(disk, j));
      } else {
        var k := if i == slot then j else i;
        NameHasOneSlot(disk, name, slot, k);
        assert FileKept(disk, disk', e.startBlock, Entry(disk, k));
      }
    }
  }

  lemma CommitDescribes(disk: seq<byte>, files: map<seq<byte>, File>, disk': seq<byte>, slot: nat, e: DirEntry,
                        name: seq<byte>, data: seq<byte>)
    requires DiskShape(disk) && Layout(disk) && DiskShape(disk') && Layout(disk') && Describes(disk, files)
    requires SlotFor(disk, name, Some(slot)) && IsValid(e) && TrimName(e.name) == name
    requires EntryOk(disk', e) && Content(disk', e.startBlock, e.size) == data
    requires Replaced(disk, disk', slot, e) && FilesKept(disk, disk', e.startBlock)
    ensures Describes(disk', files[name := File(e.startBlock, data)])
  {
    hide TrimName, Entry, Span, OnDisk, Content;
    var files' := files[name := File(e.startBlock, data)];
    forall i: nat | i < DIR_ENTRIES && IsValid(Entry(disk', i))
      ensures var x := Entry(disk', i);
              var n := TrimName(x.name);
              n in files' && files'[n] == File(x.startBlock, Content(disk', x.startBlock, x.size))
    {
      if i != slot {
        assert TrimName(Entry(disk', i).name) != TrimName(Entry(disk', slot).name);
        assert IsValid(Entry(disk, i)) && FileKept(disk, disk', e.startBlock, Entry(disk, i));
      }
    }
    forall n | n in files' ensures exists i: nat :: i < DIR_ENTRIES && Used(disk', i, n) {
      if n == name {
        assert Used(disk', slot, n);
      } else {
        var i: nat :| i < DIR_ENTRIES && Used(disk, i, n);
        assert i != slot;
        assert Used(disk', i, n);
      }
    }
  }

  /** Blanking a file's entry removes exactly that name. */
  lemma CommitUnlink(disk: seq<byte>, files: map<seq<byte>, File>, name: seq<byte>, slot: nat)
    requires DiskShape(disk) && Layout(disk) && Describes(disk, files)
    requires slot < DIR_ENTRIES && Used(disk, slot, name)
    ensures var disk' := SetEntry(disk, slot, BLANK);
            DiskShape(disk') && Layout(disk') && Describes(disk', files - {name})
  {
    hide TrimName, Entry, Span, OnDisk, SetEntry, Layout, Describes, FilesKept, Replaced, Content;
    var disk' := SetEntry(disk, slot, BLANK);
    EntriesAfter(disk, disk, slot, BLANK);
    SetEntryReads(disk, slot, BLANK);
    assert disk'[BLOCK_SIZE..|disk|] == disk[BLOCK_SIZE..|disk|];
    AllKept(disk, disk');
    UnlinkLayout(disk, disk', slot);
    UnlinkDescribes(disk, files, disk', slot, name);
  }

  lemma AllKept(disk: seq<byte>, disk': seq<byte>)
    requires DiskShape(disk) && Layout(disk) && |disk'| == |disk|
    requires disk'[BLOCK_SIZE..|disk|] == disk[BLOCK_SIZE..|disk|]
    ensures FilesKept(disk, disk', TWO32)
  {
    hide TrimName, Entry, Content, Span;
    forall i: nat | i < DIR_ENTRIES && IsValid(Entry(disk, i)) ensures FileKept(disk, disk', TWO32, Entry(disk, i)) {
      var e := Entry(disk, i);
      assert EntryOk(disk, e);
      WholeDiskFrame(disk, disk', e.startBlock, e.size);
    }
  }

  lemma UnlinkLayout(disk: seq<byte>, disk': seq<byte>, slot: nat)
    requires DiskShape(disk) && Layout(disk) && DiskShape(disk') && Replaced(disk, disk', slot, BLANK)
    requires FilesKept(disk, disk', TWO32)
    ensures Layout(disk')
  {
    hide TrimName, Entry, Span, Content, OnDisk;
    forall i: nat | i < DIR_ENTRIES && IsValid(Entry(disk', i)) ensures EntryOk(disk', Entry(disk', i)) {
      assert EntryOk(disk, Entry(disk, i)) && FileKept(disk, disk', TWO32, Entry(disk, i));
    }
  }

  lemma UnlinkDescribes(disk: seq<byte>, files: map<seq<byte>, File>, disk': seq<byte>, slot: nat, name: seq<byte>)
    requires DiskShape(disk) && Layout(disk) && DiskShape(disk') && Layout(disk') && Describes(disk, files)
    requires slot < DIR_ENTRIES && Used(disk, slot, name)
    requires Replaced(disk, disk', slot, BLANK) && FilesKept(disk, disk', TWO32)
    ensures Describes(disk', files - {name})
  {
    hide TrimName, Entry, Span, OnDisk, Content;
    forall i: nat | i < DIR_ENTRIES && IsValid(Entry(disk', i))
      ensures var x := Entry(disk', i);
              var n := TrimName(x.name);
              n in files - {name} && files[n] == File(x.startBlock, Content(disk', x.startBlock, x.size))
    {
      assert i != slot && FileKept(disk, disk', TWO32, Entry(disk, i));
    }
    forall n | n in files - {name} ensures exists i: nat :: i < DIR_ENTRIES && Used(disk', i, n) {
      var i: nat :| i < DIR_ENTRIES && Used(disk, i, n);
      assert Used(disk', i, n);
    }
  }

  lemma WholeDiskFrame(d: seq<byte>, d': seq<byte>, start: nat, size: nat)
    requires |d| == |d'| >= BLOCK_SIZE && d[BLOCK_SIZE..|d|] == d'[BLOCK_SIZE..|d|]
    requires start >= 1 && OnDisk(d, start, size)
    ensures OnDisk(d', start, size) && Content(d', start, size) == Content(d, start, size)
  {
    ContentFrame(d, d', |d|, start, size);
  }
}
