/** The WasmFS operations, and the abstract filesystem that every history of them follows. */
module WasmFilesystem {
  import opened Words
  import opened Block
  import opened Directory
  import opened FsLayout

  const MAX_OPEN_FILES: nat := 4

  // ---- the abstract filesystem ------------------------------------------------------------------------------

  /** A descriptor: the file as it was when opened, and how far it has been read. `live` says that what is left to read
      has been out of the reach of writes ever since. */
  datatype View = View(file: File, pos: nat, live: bool)

  datatype Model = Model(files: map<seq<byte>, File>, frontier: nat, views: seq<Option<View>>)

  datatype Op =
    | Write(name: seq<byte>, data: seq<byte>)
    | Unlink(name: seq<byte>)
    | Open(name: seq<byte>)
    | Read(fd: nat, len: nat)
    | Close(fd: nat)

  datatype Outcome = Done(ok: bool) | Opened(fd: Option<nat>) | Got(bytes: seq<byte>)

  predicate NoRoom(blocks: nat, m: Model, name: seq<byte>, data: seq<byte>) {
    || (name !in m.files && |m.files| == DIR_ENTRIES)
    || (data != [] && m.frontier + Span(|data|) > blocks)
  }

  predicate FirstFree(views: seq<Option<View>>, fd: Option<nat>) {
    match fd
    case None => forall k :: 0 <= k < |views| ==> views[k].Some?
    case Some(f) => f < |views| && views[f].None? && forall k :: 0 <= k < f ==> views[k].Some?
  }

  /** Out of the reach of writes: everything read already, or all blocks below the frontier. */
  predicate Guarded(v: View, frontier: nat) {
    v.pos == |v.file.data| || End(v.file) <= frontier
  }

  /** An unlink lowers the frontier; descriptors stay live while guarded. */
  function Relive(view: Option<View>, frontier: nat): Option<View> {
    match view
    case None => None
    case Some(v) => Some(v.(live := v.live && Guarded(v, frontier)))
  }

  predicate Relived(views: seq<Option<View>>, frontier: nat, views': seq<Option<View>>) {
    |views'| == |views| && forall k :: 0 <= k < |views| ==> views'[k] == Relive(views[k], frontier)
  }

  ghost predicate Step(blocks: nat, m: Model, op: Op, out: Outcome, m': Model) {
    match op
    case Write(name, data) =>
      if NoRoom(blocks, m, name, data) then out == Done(false) && m' == m
      else
        && out == Done(true)
        && m' == Model(m.files[name := File(m.frontier, data)], m.frontier + Span(|data|), m.views)
    case Unlink(name) =>
      if name !in m.files then out == Done(false) && m' == m
      else
        && out == Done(true)
        && m'.files == m.files - {name}
        && IsFrontier(m'.files, m'.frontier)
        && Relived(m.views, m'.frontier, m'.views)
    case Open(name) =>
      out.Opened?
      && if name !in m.files then out.fd == None && m' == m
         else
           && FirstFree(m.views, out.fd)
           && m' == if out.fd.None? then m
                    else m.(views := m.views[out.fd.value := Some(View(m.files[name], 0, true))])
    case Read(fd, len) =>
      out.Got?
      && if fd >= |m.views| || m.views[fd].None? then out.bytes == [] && m' == m
         else
           var v := m.views[fd].value;
           var n: nat := if v.pos <= |v.file.data| then Min(len, |v.file.data| - v.pos) else 0;
           && |out.bytes| == n
           && (v.live && v.pos <= |v.file.data| ==> out.bytes == v.file.data[v.pos..v.pos + n])
           && m' == m.(views := m.views[fd := Some(v.(pos := v.pos + n))])
    case Close(fd) =>
      && out == Done(true)
      && m' == if fd < |m.views| then m.(views := m.views[fd := None]) else m
  }

  ghost predicate Trace(blocks: nat, ms: seq<Model>, ops: seq<Op>, outs: seq<Outcome>) {
    && |ms| == |ops| + 1 && |outs| == |ops|
    && forall i :: 0 <= i < |ops| ==> Step(blocks, ms[i], ops[i], outs[i], ms[i + 1])
  }

  // ---- what every abstract history satisfies ----------------------------------------------------------------

  predicate Touches(op: Op, name: seq<byte>) {
    (op.Write? || op.Unlink?) && op.name == name
  }

  /** A name holds what was last written to it: between steps `lo` and `hi` no operation touching it succeeded. */
  lemma {:induction false} LatestContents(blocks: nat, ms: seq<Model>, ops: seq<Op>, outs: seq<Outcome>,
                                          lo: nat, hi: nat, name: seq<byte>)
    requires Trace(blocks, ms, ops, outs) && lo <= hi <= |ops|
    requires forall i :: lo <= i < hi && Touches(ops[i], name) ==> outs[i] != Done(true)
    ensures name in ms[lo].files <==> name in ms[hi].files
    ensures name in ms[lo].files ==> ms[hi].files[name] == ms[lo].files[name]
    decreases hi
  {
    hide Relived, FirstFree, NoRoom, Span, IsFrontier, End;
    if lo < hi {
      LatestContents(blocks, ms, ops, outs, lo, hi - 1, name);
      assert Step(blocks, ms[hi - 1], ops[hi - 1], outs[hi - 1], ms[hi - 1 + 1]);
    }
  }

  /** How much of `fd` an operation asks for, and what it delivered. */
  function Asked(fd: nat, op: Op): nat {
    if op.Read? && op.fd == fd then op.len else 0
  }

  function Piece(fd: nat, op: Op, out: Outcome): seq<byte> {
    if op.Read? && op.fd == fd && out.Got? then out.bytes else []
  }

  /** The same over steps `lo` to `hi`. */
  function Requested(fd: nat, ops: seq<Op>, lo: nat, hi: nat): nat
    requires lo <= hi <= |ops|
  {
    if lo == hi then 0 else Requested(fd, ops, lo, hi - 1) + Asked(fd, ops[hi - 1])
  }

  function Delivered(fd: nat, ops: seq<Op>, outs: seq<Outcome>, lo: nat, hi: nat): seq<byte>
    requires lo <= hi <= |ops| == |outs|
  {
    if lo == hi then [] else Delivered(fd, ops, outs, lo, hi - 1) + Piece(fd, ops[hi - 1], outs[hi - 1])
  }

  ghost predicate Holds(m: Model, fd: nat, file: File, pos: nat) {
    fd < |m.views| && m.views[fd] == Some(View(file, pos, true)) && pos <= |file.data|
  }

  /** An unlink that leaves the descriptor guarded. */
  predicate StaysGuarded(m: Model, fd: nat, m': Model) {
    fd < |m.views| && m.views[fd].Some? ==> Guarded(m.views[fd].value, m'.frontier)
  }

  /** While a descriptor stays open and guarded, its reads deliver consecutive pieces of the file as it was when
      opened, whatever is written meanwhile and however the reads are cut. */
  lemma {:induction false} SnapshotReads(blocks: nat, ms: seq<Model>, ops: seq<Op>, outs: seq<Outcome>,
                                         lo: nat, hi: nat, fd: nat, file: File, pos: nat)
    requires Trace(blocks, ms, ops, outs) && lo <= hi <= |ops| && Holds(ms[lo], fd, file, pos)
    requires forall i :: lo <= i < hi ==> ops[i] != Close(fd)
    requires forall i :: lo <= i < hi && ops[i].Unlink? && outs[i] == Done(true) ==> StaysGuarded(ms[i], fd, ms[i + 1])
    ensures Served(ms, ops, outs, lo, hi, fd, file, pos)
    decreases hi
  {
    hide End, Step, Holds, Served;
    if lo == hi {
      ServedNothing(ms, ops, outs, lo, fd, file, pos);
    } else {
      SnapshotReads(blocks, ms, ops, outs, lo, hi - 1, fd, file, pos);
      assert Step(blocks, ms[hi - 1], ops[hi - 1], outs[hi - 1], ms[hi - 1 + 1]);
      ServedNext(blocks, ms, ops, outs, lo, hi - 1, fd, file, pos);
    }
  }

  /** Reads of `fd` from step `lo` to `hi` delivered the piece of `file` from `pos` on that they asked for. */
  ghost predicate Served(ms: seq<Model>, ops: seq<Op>, outs: seq<Outcome>, lo: nat, hi: nat, fd: nat, file: File,
                         pos: nat)
    requires lo <= hi <= |ops| == |outs| && |ms| == |ops| + 1
  {
    var p := Min(|file.data|, pos + Requested(fd, ops, lo, hi));
    && pos <= p && Holds(ms[hi], fd, file, p) && Delivered(fd, ops, outs, lo, hi) == file.data[pos..p]
  }

  lemma ServedNothing(ms: seq<Model>, ops: seq<Op>, outs: seq<Outcome>, lo: nat, fd: nat, file: File, pos: nat)
    requires lo <= |ops| == |outs| && |ms| == |ops| + 1 && Holds(ms[lo], fd, file, pos)
    ensures Served(ms, ops, outs, lo, lo, fd, file, pos)
  {
  }

  lemma ServedNext(blocks: nat, ms: seq<Model>, ops: seq<Op>, outs: seq<Outcome>, lo: nat, k: nat, fd: nat,
                   file: File, pos: nat)
    requires lo <= k < |ops| == |outs| && |ms| == |ops| + 1 && Served(ms, ops, outs, lo, k, fd, file, pos)
    requires Step(blocks, ms[k], ops[k], outs[k], ms[k + 1]) && ops[k] != Close(fd)
    requires ops[k].Unlink? && outs[k] == Done(true) ==> StaysGuarded(ms[k], fd, ms[k + 1])
    ensures Served(ms, ops, outs, lo, k + 1, fd, file, pos)
  {
    hide End, Step, Holds, Asked, Piece;
    var r := Requested(fd, ops, lo, k);
    SnapshotStep(blocks, ms[k], ops[k], outs[k], ms[k + 1], fd, file, Min(|file.data|, pos + r));
    NextPiece(file.data, pos, r, Asked(fd, ops[k]));
  }

  /** Consecutive pieces join up. */
  lemma NextPiece(data: seq<byte>, pos: nat, r: nat, len: nat)
    requires pos <= |data|
    ensures var p := Min(|data|, pos + r);
            var q := Min(|data|, p + len);
            q == Min(|data|, pos + (r + len)) && data[pos..p] + data[p..q] == data[pos..q]
  {
  }

  lemma SnapshotStep(blocks: nat, m: Model, op: Op, out: Outcome, m': Model, fd: nat, file: File, pos: nat)
    requires Step(blocks, m, op, out, m') && Holds(m, fd, file, pos) && op != Close(fd)
    requires op.Unlink? && out == Done(true) ==> StaysGuarded(m, fd, m')
    ensures var p := Min(|file.data|, pos + Asked(fd, op));
            Holds(m', fd, file, p) && Piece(fd, op, out) == file.data[pos..p]
  {
    hide NoRoom, Span, IsFrontier, End;
  }

  /** A file read back after any history that no longer touched its name: open, then reads of any sizes. */
  lemma WriteThenRead(blocks: nat, ms: seq<Model>, ops: seq<Op>, outs: seq<Outcome>, i: nat, j: nat, hi: nat,
                      fd: nat, name: seq<byte>, data: seq<byte>)
    requires Trace(blocks, ms, ops, outs) && i < j < hi <= |ops|
    requires ops[i] == Write(name, data) && outs[i] == Done(true)
    requires forall k :: i < k < j && Touches(ops[k], name) ==> outs[k] != Done(true)
    requires ops[j] == Open(name) && outs[j] == Opened(Some(fd))
    requires forall k :: j < k < hi ==> ops[k] != Close(fd) && !ops[k].Unlink?
    ensures Delivered(fd, ops, outs, j + 1, hi) == data[..Min(|data|, Requested(fd, ops, j + 1, hi))]
  {
    hide Relived, NoRoom, Span, IsFrontier, End, Requested, Delivered;
    assert Step(blocks, ms[i], ops[i], outs[i], ms[i + 1]);
    LatestContents(blocks, ms, ops, outs, i + 1, j, name);
    assert Step(blocks, ms[j], ops[j], outs[j], ms[j + 1]);
    SnapshotReads(blocks, ms, ops, outs, j + 1, hi, fd, ms[j].files[name], 0);
    assert Served(ms, ops, outs, j + 1, hi, fd, ms[j].files[name], 0);
  }

  // ---- the class ---------------------------------------------------------------------------------------------

  datatype OpenFile = OpenFile(startBlock: u32, size: u32, pos: u32, inUse: bool)

  /** A fresh descriptor of a file. */
  ghost function Descriptor(f: File): OpenFile {
    if f.start < TWO32 && |f.data| < TWO32 then OpenFile(f.start, |f.data|, 0, true) else OpenFile(0, 0, 0, true)
  }

  ghost predicate ViewOk(disk: seq<byte>, frontier: nat, o: OpenFile, v: Option<View>) {
    match v
    case None => !o.inUse
    case Some(w) =>
      && o.inUse && o.startBlock == w.file.start && o.size == |w.file.data| && o.pos == w.pos
      && w.pos <= |w.file.data|
      && 1 <= w.file.start && End(w.file) < TWO32 && OnDisk(disk, w.file.start, |w.file.data|)
      && (w.live && w.pos < |w.file.data| ==>
            End(w.file) <= frontier && Content(disk, w.file.start, |w.file.data|) == w.file.data)
  }

  ghost predicate Inv(disk: seq<byte>, open: seq<OpenFile>, m: Model) {
    && DiskShape(disk) && Layout(disk) && Describes(disk, m.files)
    && IsFrontier(m.files, m.frontier)
    && |open| == |m.views|
    && forall k :: 0 <= k < |open| ==> ViewOk(disk, m.frontier, open[k], m.views[k])
  }

  /** A file's map entry is what its blocks hold. */
  lemma FileOnDisk(disk: seq<byte>, files: map<seq<byte>, File>, n: seq<byte>)
    requires DiskShape(disk) && Layout(disk) && Describes(disk, files) && n in files
    ensures files[n].start >= 1 && End(files[n]) < TWO32 && OnDisk(disk, files[n].start, |files[n].data|)
    ensures Content(disk, files[n].start, |files[n].data|) == files[n].data
  {
    hide Entry, TrimName, Span, Apart;
    var i: nat :| i < DIR_ENTRIES && Used(disk, i, n);
    assert EntryOk(disk, Entry(disk, i));
  }

  /** The least block above all files is unique. */
  lemma FrontierUnique(files: map<seq<byte>, File>, f: nat, g: nat)
    requires IsFrontier(files, f) && IsFrontier(files, g)
    ensures f == g
  {
    hide End;
  }

  /** A successful write raises the frontier by what it allocated. */
  lemma FrontierAfterWrite(files: map<seq<byte>, File>, f: nat, name: seq<byte>, data: seq<byte>)
    requires IsFrontier(files, f)
    ensures IsFrontier(files[name := File(f, data)], f + Span(|data|))
  {
    var files' := files[name := File(f, data)];
    assert name in files' && End(files'[name]) == f + Span(|data|);
  }

  lemma ViewFrame(d: seq<byte>, d': seq<byte>, f: nat, f': nat, limit: nat, o: OpenFile, v: Option<View>)
    requires ViewOk(d, f, o, v) && |d| == |d'| && f <= f' && f >= 1
    requires limit == Min(BLOCK_SIZE * f, |d|) && limit >= BLOCK_SIZE && d[BLOCK_SIZE..limit] == d'[BLOCK_SIZE..limit]
    ensures ViewOk(d', f', o, v)
  {
    hide Span;
    if v.Some? && v.value.live && v.value.pos < |v.value.file.data| {
      ContentFrame(d, d', limit, v.value.file.start, |v.value.file.data|);
    }
  }

  /** One more block of file data in place; nothing below the file changes. */
  lemma AppendBlock(d: seq<byte>, d': seq<byte>, start: nat, lba: nat, blk: seq<byte>, data: seq<byte>, chunk: nat)
    requires start <= lba && BLOCK_SIZE * lba + BLOCK_SIZE <= |d| && |blk| == BLOCK_SIZE
    requires d' == Splice(d, BLOCK_SIZE * lba, blk)
    requires var w := BLOCK_SIZE * (lba - start);
             && w + chunk <= |data| && chunk <= BLOCK_SIZE
             && blk[..chunk] == data[w..w + chunk]
             && d[BLOCK_SIZE * start..BLOCK_SIZE * lba] == data[..w]
    ensures d'[..BLOCK_SIZE * start] == d[..BLOCK_SIZE * start]
    ensures d'[BLOCK_SIZE * start..BLOCK_SIZE * lba + chunk] == data[..BLOCK_SIZE * (lba - start) + chunk]
  {
    var a, b := BLOCK_SIZE * start, BLOCK_SIZE * lba;
    assert d'[a..b] == d[a..b];
    assert d'[b..b + chunk] == blk[..chunk];
    assert d'[a..b + chunk] == d'[a..b] + d'[b..b + chunk];
    assert data[..b - a + chunk] == data[..b - a] + data[b - a..b - a + chunk];
  }

  lemma EntryIsRead(disk: seq<byte>, i: nat)
    requires |disk| >= BLOCK_SIZE && i < DIR_ENTRIES
    ensures Entry(disk, i) == ReadEntry(disk[..BLOCK_SIZE], i)
  {
  }

  lemma Missing(disk: seq<byte>, files: map<seq<byte>, File>, name: seq<byte>)
    requires DiskShape(disk) && Layout(disk) && Describes(disk, files)
    ensures name in files <==> exists i: nat :: i < DIR_ENTRIES && Used(disk, i, name)
  {
    hide Layout, Entry, TrimName, Span;
  }

  /** A write that fits the device lies on it and keeps block numbers within 32 bits. */
  lemma WriteFits(disk: seq<byte>, blocks: nat, start: nat, size: nat)
    requires |disk| == BLOCK_SIZE * blocks && blocks < TWO32
    requires size > 0 ==> start + Span(size) <= blocks
    requires size == 0 ==> start + 1 < TWO32
    ensures OnDisk(disk, start, size) && start + Span(size) < TWO32
  {
  }

  lemma EntryCommitted(disk: seq<byte>, mid: seq<byte>, limit: nat, slot: nat, e: DirEntry)
    requires |disk| == |mid| && BLOCK_SIZE <= limit <= |disk| && slot < DIR_ENTRIES && mid[..limit] == disk[..limit]
    ensures Splice(mid, 0, WriteEntry(disk[..BLOCK_SIZE], slot, e)) == SetEntry(mid, slot, e)
  {
    BelowLimit(disk, mid, mid, limit);
  }

  lemma SpanIsMax(size: nat)
    ensures Max((size + BLOCK_SIZE - 1) / BLOCK_SIZE, 1) == Span(size)
  {
  }

  method PaddedBlock(data: seq<byte>, at: nat, chunk: nat) returns (blk: array<byte>)
    requires at + chunk <= |data| && chunk <= BLOCK_SIZE
    ensures fresh(blk) && blk[..] == data[at..at + chunk] + seq(BLOCK_SIZE - chunk, _ => 0)
  {
    blk := new byte[BLOCK_SIZE](_ => 0);
    forall k | 0 <= k < chunk { blk[k] := data[at + k]; }
  }

  lemma SlotFull(disk: seq<byte>, files: map<seq<byte>, File>, name: seq<byte>, slot: Option<nat>)
    requires DiskShape(disk) && Layout(disk) && Describes(disk, files) && SlotFor(disk, name, slot)
    ensures slot.None? <==> name !in files && |files| == DIR_ENTRIES
  {
    hide Layout, Span, TrimName, Entry, IsValid;
    FullDirectory(disk, files);
  }

  lemma SlotAndFrontier(disk: seq<byte>, m: Model, name: seq<byte>, slot: nat)
    requires |disk| >= BLOCK_SIZE && SlotFor(disk, name, Some(slot)) && IsFrontier(m.files, m.frontier)
    ensures slot < DIR_ENTRIES && m.frontier >= 1
  {
  }

  /** Blocks written past the frontier change neither a file nor a protected descriptor. */
  lemma FailedWriteKeeps(disk: seq<byte>, mid: seq<byte>, open: seq<OpenFile>, m: Model)
    requires Inv(disk, open, m) && |mid| == |disk|
    requires mid[..Min(BLOCK_SIZE * m.frontier, |disk|)] == disk[..Min(BLOCK_SIZE * m.frontier, |disk|)]
    ensures Inv(mid, open, m)
  {
    hide Span, TrimName, Entry, ViewOk;
    var limit := Min(BLOCK_SIZE * m.frontier, |disk|);
    BelowLimit(disk, mid, mid, limit);
    forall k | 0 <= k < |open| ensures ViewOk(mid, m.frontier, open[k], m.views[k]) {
      ViewFrame(disk, mid, m.frontier, m.frontier, limit, open[k], m.views[k]);
    }
    OldEntriesKept(disk, m.files, mid, m.frontier, limit);
    assert forall i: nat | i < DIR_ENTRIES :: Entry(mid, i) == Entry(disk, i) by { SameDirectory(disk, mid); }
    SameEntriesDescribe(disk, mid, m.files, m.frontier);
  }

  lemma SameDirectory(disk: seq<byte>, mid: seq<byte>)
    requires |disk| == |mid| >= BLOCK_SIZE && mid[..BLOCK_SIZE] == disk[..BLOCK_SIZE]
    ensures forall i: nat | i < DIR_ENTRIES :: Entry(mid, i) == Entry(disk, i)
  {
  }

  lemma SameEntriesDescribe(disk: seq<byte>, mid: seq<byte>, files: map<seq<byte>, File>, frontier: nat)
    requires DiskShape(disk) && Layout(disk) && Describes(disk, files) && |mid| == |disk|
    requires forall i: nat | i < DIR_ENTRIES :: Entry(mid, i) == Entry(disk, i)
    requires FilesKept(disk, mid, frontier)
    ensures DiskShape(mid) && Layout(mid) && Describes(mid, files)
  {
    hide Span, TrimName, Entry, IsValid, Content;
    forall i: nat | i < DIR_ENTRIES && IsValid(Entry(disk, i)) ensures FileKept(disk, mid, frontier, Entry(disk, i)) {}
    assert Layout(mid);
    forall n | n in files ensures exists i: nat :: i < DIR_ENTRIES && Used(mid, i, n) {
      var i: nat :| i < DIR_ENTRIES && Used(disk, i, n);
      assert Used(mid, i, n);
    }
  }

  lemma WriteKeeps(disk: seq<byte>, mid: seq<byte>, disk': seq<byte>, open: seq<OpenFile>, m: Model,
                   name: seq<byte>, data: seq<byte>, slot: nat)
    requires Inv(disk, open, m) && |mid| == |disk| && Storable(name) && |data| < TWO32
    requires SlotFor(disk, name, Some(slot))
    requires mid[..Min(BLOCK_SIZE * m.frontier, |disk|)] == disk[..Min(BLOCK_SIZE * m.frontier, |disk|)]
    requires m.frontier + Span(|data|) < TWO32
    requires OnDisk(disk, m.frontier, |data|) && Content(mid, m.frontier, |data|) == data
    requires disk' == SetEntry(mid, slot, DirEntry(PadName(name), m.frontier, |data|, 1))
    ensures Inv(disk', open, Model(m.files[name := File(m.frontier, data)], m.frontier + Span(|data|), m.views))
  {
    assert m.frontier >= 1 && slot < DIR_ENTRIES;
    hide *;
    CommitWrite(disk, m.files, mid, name, slot, m.frontier, data);
    FrontierAfterWrite(m.files, m.frontier, name, data);
    WriteKeepsViews(disk, mid, disk', open, m, slot, DirEntry(PadName(name), m.frontier, |data|, 1),
                    m.frontier + Span(|data|));
  }

  lemma WriteKeepsViews(disk: seq<byte>, mid: seq<byte>, disk': seq<byte>, open: seq<OpenFile>, m: Model,
                        slot: nat, e: DirEntry, f': nat)
    requires Inv(disk, open, m) && |mid| == |disk| && slot < DIR_ENTRIES && f' >= m.frontier
    requires mid[..Min(BLOCK_SIZE * m.frontier, |disk|)] == disk[..Min(BLOCK_SIZE * m.frontier, |disk|)]
    requires disk' == SetEntry(mid, slot, e)
    ensures forall k :: 0 <= k < |open| ==> ViewOk(disk', f', open[k], m.views[k])
  {
    assert m.frontier >= 1;
    hide Span, TrimName, Entry, ViewOk, SetEntry, Layout, Describes, IsFrontier;
    SetEntryReads(mid, slot, e);
    var limit := Min(BLOCK_SIZE * m.frontier, |disk|);
    BelowLimit(disk, mid, disk', limit);
    forall k | 0 <= k < |open| ensures ViewOk(disk', f', open[k], m.views[k]) {
      ViewFrame(disk, disk', m.frontier, f', limit, open[k], m.views[k]);
    }
  }

  /** Blanking an entry touches no file data: descriptors keep their bytes, and stay protected exactly when they
      end at or below the new frontier. */
  lemma UnlinkKeeps(disk: seq<byte>, disk': seq<byte>, open: seq<OpenFile>, m: Model, name: seq<byte>, slot: nat)
    returns (m': Model)
    requires Inv(disk, open, m) && slot < DIR_ENTRIES && Used(disk, slot, name) && disk' == SetEntry(disk, slot, BLANK)
    ensures Inv(disk', open, m')
    ensures m'.files == m.files - {name}
    ensures IsFrontier(m'.files, m'.frontier) && Relived(m.views, m'.frontier, m'.views)
  {
    hide Span, TrimName, Entry, Used, SetEntry, Layout, Describes, IsFrontier, End, Content, OnDisk, ReadEntry, ViewOk,
         Frontier;
    CommitUnlink(disk, m.files, name, slot);
    SetEntryReads(disk, slot, BLANK);
    var files' := m.files - {name};
    FrontierOfFiles(disk', files');
    var f := Frontier(disk'[..BLOCK_SIZE], DIR_ENTRIES);
    m' := Model(files', f, seq(|m.views|, k requires 0 <= k < |m.views| => Relive(m.views[k], f)));
    forall k | 0 <= k < |open| ensures ViewOk(disk', f, open[k], m'.views[k]) {
      ReliveOk(disk, disk', m.frontier, f, open[k], m.views[k]);
    }
  }

  lemma ReliveOk(d: seq<byte>, d': seq<byte>, f: nat, f': nat, o: OpenFile, v: Option<View>)
    requires ViewOk(d, f, o, v) && |d| == |d'| >= BLOCK_SIZE && d'[BLOCK_SIZE..] == d[BLOCK_SIZE..]
    ensures ViewOk(d', f', o, Relive(v, f'))
  {
    hide Span;
    assert d'[BLOCK_SIZE..|d|] == d[BLOCK_SIZE..|d|];
    if v.Some? { WholeDiskFrame(d, d', v.value.file.start, |v.value.file.data|); }
  }

  /** The descriptor `fs_open` fills in, protected because no file reaches past the frontier. */
  lemma OpenKeeps(disk: seq<byte>, open: seq<OpenFile>, m: Model, name: seq<byte>, slot: nat, f: nat)
    requires Inv(disk, open, m) && slot < DIR_ENTRIES && Used(disk, slot, name) && f < |open|
    ensures name in m.files
    ensures var e := Entry(disk, slot);
            OpenFile(e.startBlock, e.size, 0, true) == Descriptor(m.files[name])
    ensures var e := Entry(disk, slot);
            Inv(disk, open[f := OpenFile(e.startBlock, e.size, 0, true)],
                m.(views := m.views[f := Some(View(m.files[name], 0, true))]))
  {
    var e := Entry(disk, slot);
    assert name in m.files && m.files[name].start == e.startBlock && |m.files[name].data| == e.size
           && End(m.files[name]) <= m.frontier by {
      hide Span, TrimName, Entry, Layout, ViewOk, OnDisk;
    }
    FileOnDisk(disk, m.files, name);
    hide Span, TrimName, Entry, Layout, Describes, IsFrontier, Content, OnDisk, End;
  }

  lemma InUseIffSome(disk: seq<byte>, open: seq<OpenFile>, m: Model)
    requires Inv(disk, open, m)
    ensures |open| == |m.views|
    ensures forall k :: 0 <= k < |open| ==> (m.views[k].Some? <==> open[k].inUse)
  {
    hide Layout, Describes, IsFrontier, Content, OnDisk, End, Span;
  }

  lemma ViewFacts(disk: seq<byte>, frontier: nat, o: OpenFile, view: Option<View>)
    requires ViewOk(disk, frontier, o, view) && o.inUse
    ensures view.Some? && view.value.pos == o.pos <= o.size == |view.value.file.data|
    ensures o.startBlock + Span(o.size) < TWO32 && OnDisk(disk, o.startBlock, o.size)
    ensures view.value.live && o.pos < o.size ==> Content(disk, o.startBlock, o.size) == view.value.file.data
  {
  }

  lemma ReadKeeps(disk: seq<byte>, open: seq<OpenFile>, m: Model, fd: nat, n: nat)
    requires Inv(disk, open, m) && fd < |open| && open[fd].inUse && open[fd].pos + n <= open[fd].size
    ensures fd < |m.views| && m.views[fd].Some?
    ensures var v := m.views[fd].value;
            Inv(disk, open[fd := open[fd].(pos := open[fd].pos + n)],
                m.(views := m.views[fd := Some(v.(pos := v.pos + n))]))
  {
    hide Layout, Describes, IsFrontier, Content, OnDisk, End, Span;
    ViewFacts(disk, m.frontier, open[fd], m.views[fd]);
  }

  lemma BlockInExtent(disk: seq<byte>, blocks: nat, start: nat, size: nat, pos: nat)
    requires |disk| == BLOCK_SIZE * blocks && OnDisk(disk, start, size) && pos < size
    ensures start + pos / BLOCK_SIZE < blocks
  {
  }

  lemma PieceOfContent(disk: seq<byte>, start: nat, size: nat, pos: nat, blk: seq<byte>, avail: nat)
    requires OnDisk(disk, start, size) && pos + avail <= size
    requires BLOCK_SIZE * (start + pos / BLOCK_SIZE) + BLOCK_SIZE <= |disk| && pos % BLOCK_SIZE + avail <= BLOCK_SIZE
    requires var lba := start + pos / BLOCK_SIZE; blk == disk[BLOCK_SIZE * lba..BLOCK_SIZE * lba + BLOCK_SIZE]
    ensures var off := pos % BLOCK_SIZE; blk[off..off + avail] == Content(disk, start, size)[pos..pos + avail]
  {
    hide Span;
    var off, lba := pos % BLOCK_SIZE, start + pos / BLOCK_SIZE;
    assert BLOCK_SIZE * lba + off == BLOCK_SIZE * start + pos;
    if avail > 0 {
      assert Content(disk, start, size) == disk[BLOCK_SIZE * start..BLOCK_SIZE * start + size];
      SubSlice(disk, BLOCK_SIZE * lba, BLOCK_SIZE * lba + BLOCK_SIZE, BLOCK_SIZE * lba + off,
               BLOCK_SIZE * lba + off + avail);
      SubSlice(disk, BLOCK_SIZE * start, BLOCK_SIZE * start + size, BLOCK_SIZE * start + pos,
               BLOCK_SIZE * start + pos + avail);
    }
  }

  method CopyInto(buf: array<byte>, at: nat, piece: seq<byte>)
    requires at + |piece| <= buf.Length
    modifies buf
    ensures buf[..] == Splice(old(buf[..]), at, piece)
  {
    forall k | 0 <= k < |piece| { buf[at + k] := piece[k]; }
  }

  lemma ReadIsStep(blocks: nat, disk: seq<byte>, open: seq<OpenFile>, m: Model, fd: nat, len: nat, bytes: seq<byte>)
    requires Inv(disk, open, m) && fd < |open| && open[fd].inUse
    requires var o := open[fd];
             && o.pos <= o.size && |bytes| == Min(len, o.size - o.pos) && OnDisk(disk, o.startBlock, o.size)
             && bytes == Content(disk, o.startBlock, o.size)[o.pos..o.pos + |bytes|]
    ensures fd < |m.views| && m.views[fd].Some?
    ensures var v := m.views[fd].value;
            Step(blocks, m, Read(fd, len), Got(bytes), m.(views := m.views[fd := Some(v.(pos := v.pos + |bytes|))]))
  {
    hide Layout, Describes, IsFrontier, Content, OnDisk, Span, End;
    ViewFacts(disk, m.frontier, open[fd], m.views[fd]);
  }

  lemma CopiedPiece(was: seq<byte>, n: nat, avail: nat, content: seq<byte>, from: nat, first: seq<byte>)
    requires n + avail <= |was| == |first| && from + n + avail <= |content|
    requires was[..n] == content[from..from + n] && was[n..] == first[n..]
    ensures var now := Splice(was, n, content[from + n..from + n + avail]);
            && now[..n + avail] == content[from..from + n + avail]
            && now[n + avail..] == first[n + avail..]
  {
    var piece := content[from + n..from + n + avail];
    var m := n + |piece|;
    var now := Splice(was, n, piece);
    assert now[..m] == was[..n] + piece;
    assert content[from..from + m] == content[from..from + n] + content[from + n..from + m];
    assert now[m..] == was[m..];
    SubSlice(was, n, |was|, m, |was|);
    SubSlice(first, n, |was|, m, |was|);
    assert was[n..|was|] == was[n..] && first[n..|was|] == first[n..];
  }

  /** The scan inside `next_free_block`. */
  method ScanFrontier(dir: seq<byte>) returns (next: nat)
    requires |dir| == BLOCK_SIZE
    ensures next == Frontier(dir, DIR_ENTRIES)
  {
    hide ReadEntry, Span;
    next := 1;
    for i := 0 to DIR_ENTRIES
      invariant next == Frontier(dir, i)
    {
      var e := ReadEntry(dir, i);
      if IsValid(e) {
        var blocks := Max((e.size as int + BLOCK_SIZE - 1) / BLOCK_SIZE, 1);
        SpanIsMax(e.size);
        if e.startBlock + blocks > next { next := e.startBlock + blocks; }
      }
    }
  }

  class WasmFs {
    const dev: Ramdisk
    const open: array<OpenFile>
    ghost var model: Model

    ghost predicate Valid()
      reads this, dev, dev.data, open
    {
      && dev.Valid() && 1 <= dev.blocks < TWO32
      && open.Length == MAX_OPEN_FILES
      && Inv(dev.data[..], open[..], model)
    }

    /** `new`: mount a device whose directory describes `files`; no descriptor is open. */
    constructor (dev: Ramdisk, ghost files: map<seq<byte>, File>)
      requires dev.Valid() && 1 <= dev.blocks < TWO32
      requires DiskShape(dev.data[..]) && Layout(dev.data[..]) && Describes(dev.data[..], files)
      ensures Valid() && this.dev == dev && fresh(open)
      ensures model.files == files && model.views == [None, None, None, None]
    {
      this.dev := dev;
      open := new OpenFile[MAX_OPEN_FILES](_ => OpenFile(0, 0, 0, false));
      model := Model(files, Frontier(dev.data[..][..BLOCK_SIZE], DIR_ENTRIES), [None, None, None, None]);
      new;
      FrontierOfFiles(dev.data[..], files);
    }

    method ReadDirBlock() returns (dir: array<byte>)
      requires Valid()
      ensures fresh(dir) && dir[..] == dev.data[..][..BLOCK_SIZE]
    {
      dir := new byte[BLOCK_SIZE](_ => 0);
      var ok := dev.ReadBlock(0, dir);
      assert dev.data[0..BLOCK_SIZE] == dev.data[..][..BLOCK_SIZE];
    }

    method WriteDirBlock(dir: seq<byte>)
      requires dev.Valid() && 1 <= dev.blocks && |dir| == BLOCK_SIZE
      modifies dev.data
      ensures dev.data[..] == Splice(old(dev.data[..]), 0, dir)
    {
      var buf := new byte[BLOCK_SIZE];
      forall k | 0 <= k < BLOCK_SIZE { buf[k] := dir[k]; }
      assert buf[..] == dir;
      var ok := dev.WriteBlock(0, buf);
    }

    /** `next_free_block`. */
    method NextFreeBlock() returns (next: nat)
      requires Valid()
      ensures next == model.frontier
    {
      hide Frontier, Layout, Describes, IsFrontier, ViewOk, ReadEntry;
      var dir := ReadDirBlock();
      next := ScanFrontier(dir[..]);
      FrontierOfFiles(dev.data[..], model.files);
      FrontierUnique(model.files, next, model.frontier);
    }

    /** The search loop that `fs_open` and `fs_unlink` share. */
    method FindEntry(dir: seq<byte>, name: seq<byte>) returns (slot: Option<nat>)
      requires Valid() && dir == dev.data[..][..BLOCK_SIZE]
      ensures slot.Some? <==> name in model.files
      ensures slot.Some? ==> slot.value < DIR_ENTRIES && Used(dev.data[..], slot.value, name)
    {
      hide Layout, Describes, IsFrontier, Span, TrimName, Entry, ReadEntry, ViewOk;
      ghost var disk := dev.data[..];
      Missing(disk, model.files, name);
      var i := 0;
      while i < DIR_ENTRIES
        invariant 0 <= i <= DIR_ENTRIES
        invariant forall k: nat :: k < i ==> !Used(disk, k, name)
      {
        var e := ReadEntry(dir, i);
        assert e == Entry(disk, i) by { EntryIsRead(disk, i); }
        var n := TrimNameLoop(e.name);
        if IsValid(e) && n == name {
          assert Used(disk, i, name);
          return Some(i);
        }
        i := i + 1;
      }
      return None;
    }

    /** The slot search of `fs_write`. */
    method FindSlot(dir: seq<byte>, name: seq<byte>) returns (slot: Option<nat>)
      requires Valid() && dir == dev.data[..][..BLOCK_SIZE]
      ensures SlotFor(dev.data[..], name, slot)
    {
      hide Layout, Span, TrimName, Entry, ReadEntry, ViewOk, Describes, IsFrontier, Inv;
      ghost var disk := dev.data[..];
      slot := None;
      var i := 0;
      while i < DIR_ENTRIES
        invariant 0 <= i <= DIR_ENTRIES
        invariant forall k: nat :: k < i ==> !Used(disk, k, name)
        invariant match slot
                  case None => forall k: nat :: k < i ==> IsValid(Entry(disk, k))
                  case Some(s) => s < i && !IsValid(Entry(disk, s))
      {
        var e := ReadEntry(dir, i);
        assert e == Entry(disk, i) by { EntryIsRead(disk, i); }
        var n := TrimNameLoop(e.name);
        if IsValid(e) && n == name {
          assert Used(disk, i, name);
          return Some(i);
        }
        if !IsValid(e) && slot.None? { slot := Some(i); }
        i := i + 1;
      }
    }

    /** The data loop of `fs_write`: zero-padded blocks from `start` on, stopping at the first failed block. */
    method WriteData(start: nat, data: seq<byte>) returns (ok: bool)
      requires dev.Valid() && start >= 1
      modifies dev.data
      ensures ok <==> data == [] || start + Span(|data|) <= dev.blocks
      ensures var limit := Min(BLOCK_SIZE * start, dev.data.Length);
              dev.data[..][..limit] == old(dev.data[..])[..limit]
      ensures ok ==> OnDisk(dev.data[..], start, |data|) && Content(dev.data[..], start, |data|) == data
    {
      hide Splice;
      var written, lba := 0, start;
      ghost var limit := Min(BLOCK_SIZE * start, dev.data.Length);
      while written < |data|
        invariant start <= lba && written == Min(|data|, BLOCK_SIZE * (lba - start))
        invariant lba == start || (lba <= dev.blocks && BLOCK_SIZE * (lba - start - 1) < |data|)
        invariant written > 0 ==> dev.data[..][BLOCK_SIZE * start..BLOCK_SIZE * start + written] == data[..written]
        invariant dev.data[..][..limit] == old(dev.data[..])[..limit]
        decreases |data| - written
      {
        var chunk := Min(|data| - written, BLOCK_SIZE);
        var blk := PaddedBlock(data, written, chunk);
        ghost var was := dev.data[..];
        ok := dev.WriteBlock(lba, blk);
        if !ok { return false; }
        assert was[BLOCK_SIZE * start..BLOCK_SIZE * lba] == data[..written];
        AppendBlock(was, dev.data[..], start, lba, blk[..], data, chunk);
        written := written + chunk;
        lba := lba + 1;
      }
      assert data[..|data|] == data;
      return true;
    }

    method FsWrite(name: seq<byte>, data: seq<byte>) returns (ok: bool)
      requires Valid() && Storable(name) && |data| < TWO32
      requires data == [] ==> model.frontier + 1 < TWO32
      modifies this, dev.data
      ensures Valid() && open[..] == old(open[..])
      ensures Step(dev.blocks, old(model), Write(name, data), Done(ok), model)
    {
      hide Span, TrimName, Entry, SlotFor, ViewOk, PadName, Layout, Describes, IsFrontier, Content, OnDisk, WriteEntry,
           Storable, ReadEntry;
      ghost var disk := dev.data[..];
      var dir := ReadDirBlock();
      var slot := FindSlot(dir[..], name);
      SlotFull(disk, model.files, name, slot);
      if slot.None? { return false; }
      assert slot.value < DIR_ENTRIES && model.frontier >= 1 by { SlotAndFrontier(disk, model, name, slot.value); }
      var start := NextFreeBlock();
      ok := WriteData(start, data);
      ghost var mid := dev.data[..];
      if !ok {
        FailedWriteKeeps(disk, mid, open[..], model);
        return;
      }
      WriteFits(disk, dev.blocks, start, |data|);
      var entry := DirEntry(PadName(name), start, |data|, 1);
      var dir' := WriteEntry(dir[..], slot.value, entry);
      WriteDirBlock(dir');
      EntryCommitted(disk, mid, Min(BLOCK_SIZE * start, |disk|), slot.value, entry);
      WriteKeeps(disk, mid, dev.data[..], open[..], model, name, data, slot.value);
      model := Model(model.files[name := File(start, data)], start + Span(|data|), model.views);
    }

    method FsUnlink(name: seq<byte>) returns (ok: bool)
      requires Valid()
      modifies this, dev.data
      ensures Valid() && open[..] == old(open[..])
      ensures Step(dev.blocks, old(model), Unlink(name), Done(ok), model)
    {
      hide Span, TrimName, Entry, ViewOk, Layout, Describes, IsFrontier, Content, OnDisk, WriteEntry, ReadEntry, End;
      ghost var disk := dev.data[..];
      var dir := ReadDirBlock();
      var slot := FindEntry(dir[..], name);
      if slot.None? { return false; }
      var dir' := WriteEntry(dir[..], slot.value, BLANK);
      WriteDirBlock(dir');
      model := UnlinkKeeps(disk, dev.data[..], open[..], model, name, slot.value);
      return true;
    }

    method FsOpen(name: seq<byte>) returns (fd: Option<nat>)
      requires Valid()
      modifies this, open
      ensures Valid() && dev.data[..] == old(dev.data[..])
      ensures Step(dev.blocks, old(model), Open(name), Opened(fd), model)
      ensures fd.Some? ==>
                && fd.value < MAX_OPEN_FILES && name in model.files
                && open[..] == old(open[..])[fd.value := Descriptor(model.files[name])]
    {
      hide Span, TrimName, Entry, ViewOk, Layout, Describes, IsFrontier, Content, OnDisk, ReadEntry, End;
      ghost var disk := dev.data[..];
      var dir := ReadDirBlock();
      var slot := FindEntry(dir[..], name);
      if slot.None? { return None; }
      var e := ReadEntry(dir[..], slot.value);
      assert e == Entry(disk, slot.value) by { EntryIsRead(disk, slot.value); }
      var f := 0;
      while f < MAX_OPEN_FILES
        invariant 0 <= f <= MAX_OPEN_FILES
        invariant forall k :: 0 <= k < f ==> open[k].inUse
      {
        if !open[f].inUse {
          InUseIffSome(disk, open[..], model);
          OpenKeeps(disk, open[..], model, name, slot.value, f);
          open[f] := OpenFile(e.startBlock, e.size, 0, true);
          model := model.(views := model.views[f := Some(View(model.files[name], 0, true))]);
          return Some(f);
        }
        f := f + 1;
      }
      InUseIffSome(disk, open[..], model);
      return None;
    }

    method FsClose(fd: nat)
      requires Valid()
      modifies this, open
      ensures Valid() && dev.data[..] == old(dev.data[..])
      ensures Step(dev.blocks, old(model), Close(fd), Done(true), model)
    {
      hide Layout, Describes, IsFrontier, Content, OnDisk, End;
      if fd < MAX_OPEN_FILES {
        open[fd] := open[fd].(inUse := false);
        model := model.(views := model.views[fd := None]);
      }
    }

    /** Reads up to `len` bytes into the front of `buf`, in pieces that end at block boundaries. */
    method FsRead(fd: nat, buf: array<byte>, len: nat) returns (n: nat)
      requires Valid() && buf != dev.data
      modifies this, open, buf
      ensures Valid() && dev.data[..] == old(dev.data[..])
      ensures n <= buf.Length && buf[n..] == old(buf[n..])
      ensures Step(dev.blocks, old(model), Read(fd, Min(len, buf.Length)), Got(buf[..n]), model)
      ensures fd < MAX_OPEN_FILES && old(open[fd]).inUse ==>
                var o := old(open[fd]);
                && OnDisk(dev.data[..], o.startBlock, o.size) && o.pos + n <= o.size
                && buf[..n] == Content(dev.data[..], o.startBlock, o.size)[o.pos..o.pos + n]
    {
      hide Layout, Describes, IsFrontier, Content, OnDisk, End, ViewOk;
      InUseIffSome(dev.data[..], open[..], model);
      assert buf[..0] == [];
      if fd >= MAX_OPEN_FILES || !open[fd].inUse { return 0; }
      ghost var o := open[fd];
      ghost var disk := dev.data[..];
      ViewFacts(disk, model.frontier, o, model.views[fd]);
      var remaining := open[fd].size - open[fd].pos;
      var toRead := Min(Min(len, remaining), buf.Length);
      n := ReadLoop(fd, buf, toRead);
      ReadKeeps(disk, old(open[..]), model, fd, n);
      ReadIsStep(dev.blocks, disk, old(open[..]), model, fd, Min(len, buf.Length), buf[..n]);
      model := model.(views := model.views[fd := Some(model.views[fd].value.(pos := model.views[fd].value.pos + n))]);
    }

    method ReadLoop(fd: nat, buf: array<byte>, toRead: nat) returns (n: nat)
      requires dev.Valid() && buf != dev.data && fd < open.Length && toRead <= buf.Length
      requires open[fd].pos + toRead <= open[fd].size && OnDisk(dev.data[..], open[fd].startBlock, open[fd].size)
      modifies open, buf
      ensures var o := old(open[fd]);
              && n == toRead && open[..] == old(open[..])[fd := o.(pos := o.pos + n)]
              && buf[..n] == Content(dev.data[..], o.startBlock, o.size)[o.pos..o.pos + n]
      ensures buf[n..] == old(buf[..])[n..]
    {
      hide Content, OnDisk, Span;
      ghost var o := open[fd];
      ghost var content := Content(dev.data[..], o.startBlock, o.size);
      n := 0;
      while n < toRead
        invariant n <= toRead && open[..] == old(open[..])[fd := o.(pos := o.pos + n)]
        invariant buf[..n] == content[o.pos..o.pos + n] && buf[n..] == old(buf[..])[n..]
      {
        var pos: nat := open[fd].pos;
        var avail := Min(BLOCK_SIZE - pos % BLOCK_SIZE, toRead - n);
        ghost var was := buf[..];
        var ok := ReadPiece(open[fd].startBlock, o.size, pos, buf, n, avail);
        if !ok { break; }
        CopiedPiece(was, n, avail, content, o.pos, old(buf[..]));
        n := n + avail;
        open[fd] := open[fd].(pos := pos + avail);
      }
    }

    /** One round of the `fs_read` loop: part of one block into the buffer. */
    method ReadPiece(start: nat, ghost size: nat, pos: nat, buf: array<byte>, at: nat, avail: nat) returns (ok: bool)
      requires dev.Valid() && buf != dev.data && OnDisk(dev.data[..], start, size)
      requires pos < size && pos + avail <= size && pos % BLOCK_SIZE + avail <= BLOCK_SIZE && at + avail <= buf.Length
      modifies buf
      ensures ok && buf[..] == Splice(old(buf[..]), at, Content(dev.data[..], start, size)[pos..pos + avail])
    {
      hide Content, OnDisk, Span;
      ghost var disk := dev.data[..];
      var off := pos % BLOCK_SIZE;
      var blk := new byte[BLOCK_SIZE](_ => 0);
      BlockInExtent(disk, dev.blocks, start, size, pos);
      ok := dev.ReadBlock(start + pos / BLOCK_SIZE, blk);
      if !ok { return; }
      PieceOfContent(disk, start, size, pos, blk[..], avail);
      CopyInto(buf, at, blk[off..off + avail]);
    }
  }

  // ---- histories ---------------------------------------------------------------------------------------------

  /** Storable names, lengths a u32 holds, and block numbers left for one more empty file. */
  ghost predicate Admissible(m: Model, op: Op) {
    op.Write? ==> Storable(op.name) && |op.data| < TWO32 && (op.data == [] ==> m.frontier + 1 < TWO32)
  }

  method Apply(fs: WasmFs, op: Op) returns (out: Outcome)
    requires fs.Valid() && Admissible(fs.model, op)
    modifies fs, fs.dev.data, fs.open
    ensures fs.Valid() && Step(fs.dev.blocks, old(fs.model), op, out, fs.model)
  {
    match op
    case Write(name, data) =>
      var ok := fs.FsWrite(name, data);
      out := Done(ok);
    case Unlink(name) =>
      var ok := fs.FsUnlink(name);
      out := Done(ok);
    case Open(name) =>
      var fd := fs.FsOpen(name);
      out := Opened(fd);
    case Read(fd, len) =>
      var buf := new byte[len](_ => 0);
      var n := fs.FsRead(fd, buf, len);
      out := Got(buf[..n]);
    case Close(fd) =>
      fs.FsClose(fd);
      out := Done(true);
  }

  /** Every history of operations follows the abstract filesystem, outcome by outcome; it stops early only before
      an operation that is not admissible. */
  method Drive(fs: WasmFs, ops: seq<Op>) returns (outs: seq<Outcome>, ghost ms: seq<Model>)
    requires fs.Valid()
    modifies fs, fs.dev.data, fs.open
    ensures fs.Valid() && |outs| <= |ops|
    ensures Trace(fs.dev.blocks, ms, ops[..|outs|], outs) && ms[0] == old(fs.model) && ms[|outs|] == fs.model
    ensures |outs| < |ops| ==> !Admissible(fs.model, ops[|outs|])
  {
    hide Step, IsFrontier, Inv;
    outs, ms := [], [fs.model];
    for i := 0 to |ops|
      invariant fs.Valid() && |outs| == i
      invariant Trace(fs.dev.blocks, ms, ops[..i], outs) && ms[0] == old(fs.model) && ms[i] == fs.model
    {
      var next := fs.NextFreeBlock();
      if ops[i].Write? {
        var storable := IsStorable(ops[i].name);
        if !storable || |ops[i].data| >= TWO32 || (ops[i].data == [] && next + 1 >= TWO32) { return; }
      }
      var out := Apply(fs, ops[i]);
      TraceNext(fs.dev.blocks, ms, ops[..i], outs, ops[i], out, fs.model);
      assert ops[..i + 1] == ops[..i] + [ops[i]];
      outs, ms := outs + [out], ms + [fs.model];
    }
    assert ops[..|ops|] == ops;
  }

  method IsStorable(name: seq<byte>) returns (r: bool)
    ensures r == Storable(name)
  {
    var trimmed := TrimNameLoop(PadName(name));
    NameRoundTrip(name);
    return trimmed == name;
  }

  lemma TraceNext(blocks: nat, ms: seq<Model>, ops: seq<Op>, outs: seq<Outcome>, op: Op, out: Outcome, m: Model)
    requires Trace(blocks, ms, ops, outs) && Step(blocks, ms[|ops|], op, out, m)
    ensures Trace(blocks, ms + [m], ops + [op], outs + [out])
  {
    hide Step;
  }

  /** An all-zero device is an empty filesystem. */
  lemma ZeroedDisk(disk: seq<byte>)
    requires DiskShape(disk) && forall k :: 0 <= k < |disk| ==> disk[k] == 0
    ensures Layout(disk) && Describes(disk, map[])
  {
    forall i: nat | i < DIR_ENTRIES ensures !IsValid(Entry(disk, i)) {
      assert Entry(disk, i).flags == disk[..BLOCK_SIZE][DIR_ENTRY_SIZE * i..DIR_ENTRY_SIZE * i + DIR_ENTRY_SIZE][40];
    }
  }

  lemma WriteToEmpty(blocks: nat, m: Model, name: seq<byte>, x: byte, out: Outcome, m': Model)
    requires Step(blocks, m, Write(name, [x]), out, m') && blocks >= 2
    requires m.files == map[] && IsFrontier(m.files, m.frontier)
    ensures m' == Model(map[name := File(1, [x])], 2, m.views)
  {
  }

  lemma UnlinkOnly(blocks: nat, m: Model, name: seq<byte>, f: File, out: Outcome, m': Model)
    requires Step(blocks, m, Unlink(name), out, m') && m.files == map[name := f]
    ensures m'.files == map[] && IsFrontier(m'.files, m'.frontier)
  {
    hide IsFrontier, Relived;
  }

  /** Where the snapshot ends: unlinking the topmost file lowers the frontier, and the next write reuses the blocks
      under a descriptor that is still open, which then reads the other file's bytes. */
  method UnlinkedSnapshotIsReused() returns (bytes: seq<byte>)
    ensures bytes == [2]
  {
    hide Layout, Describes, ViewOk, IsFrontier, NoRoom, Relived, Span, OnDisk, Content, Trace;
    var dev := new Ramdisk(2);
    ZeroedDisk(dev.data[..]);
    var fs := new WasmFs(dev, map[]);
    var buf := new byte[1];
    ghost var m0 := fs.model;
    var ok := fs.FsWrite([97], [1]);
    WriteToEmpty(2, m0, [97], 1, Done(ok), fs.model);
    ghost var m1 := fs.model;
    var fd := fs.FsOpen([97]);
    assert m1.views[0].None? && fs.model.files == m1.files;
    assert fs.open[0] == OpenFile(1, 1, 0, true);
    ghost var m2 := fs.model;
    ok := fs.FsUnlink([97]);
    UnlinkOnly(2, m2, [97], File(1, [1]), Done(ok), fs.model);
    ghost var m3 := fs.model;
    ok := fs.FsWrite([98], [2]);
    WriteToEmpty(2, m3, [98], 2, Done(ok), fs.model);
    FileOnDisk(fs.dev.data[..], fs.model.files, [98]);
    ViewFacts(fs.dev.data[..], fs.model.frontier, fs.open[0], fs.model.views[0]);
    var n := fs.FsRead(0, buf, 1);
    return buf[..n];
  }
}
