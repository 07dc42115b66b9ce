/** The converse of `SnapshotReads`: what is left of an unguarded descriptor can always be overwritten. */
module SnapshotReuse {
  import opened Words
  import opened Block
  import opened Directory
  import opened FsLayout
  import opened WasmFilesystem

  /** Nothing but writes: no descriptor is read. */
  lemma {:induction false} WritesDeliverNothing(fd: nat, ops: seq<Op>, outs: seq<Outcome>, hi: nat)
    requires hi <= |ops| == |outs| && forall i :: 0 <= i < hi ==> ops[i].Write?
    ensures Requested(fd, ops, 0, hi) == 0 && Delivered(fd, ops, outs, 0, hi) == []
  {
    if hi > 0 { WritesDeliverNothing(fd, ops, outs, hi - 1); }
  }

  /** Writes and one read at the end. */
  lemma {:induction false} LastDelivers(fd: nat, ops: seq<Op>, outs: seq<Outcome>, len: nat, bytes: seq<byte>)
    requires |ops| == |outs| > 0 && (forall i :: 0 <= i < |ops| - 1 ==> ops[i].Write?)
    requires ops[|ops| - 1] == Read(fd, len) && outs[|ops| - 1] == Got(bytes)
    ensures Requested(fd, ops, 0, |ops|) == len && Delivered(fd, ops, outs, 0, |ops|) == bytes
  {
    WritesDeliverNothing(fd, ops, outs, |ops| - 1);
  }

  /** A file that fills the last block of an extent up to its length supplies the extent's last byte. */
  lemma LastByte(disk: seq<byte>, start: nat, size: nat, data: seq<byte>)
    requires size > 0 && |data| == (size - 1) % BLOCK_SIZE + 1
    requires OnDisk(disk, start, size) && OnDisk(disk, start + Span(size) - 1, |data|)
    requires Content(disk, start + Span(size) - 1, |data|) == data
    ensures Content(disk, start, size)[size - 1] == data[|data| - 1]
  {
    var b := start + Span(size) - 1;
    assert Span(size) - 1 == (size - 1) / BLOCK_SIZE;
    assert BLOCK_SIZE * b + (|data| - 1) == BLOCK_SIZE * start + (size - 1);
    assert disk[BLOCK_SIZE * b..BLOCK_SIZE * b + |data|][|data| - 1] == disk[BLOCK_SIZE * b + (|data| - 1)];
  }

  /** A name the directory has an entry or room for. */
  predicate Writable(m: Model, name: seq<byte>) {
    Storable(name) && (name in m.files || |m.files| < DIR_ENTRIES)
  }

  lemma FirstEntryWritable(disk: seq<byte>, m: Model, name: seq<byte>)
    requires DiskShape(disk) && Layout(disk) && Describes(disk, m.files)
    requires IsValid(Entry(disk, 0)) ==> name == TrimName(Entry(disk, 0).name)
    requires !IsValid(Entry(disk, 0)) ==> Storable(name)
    ensures Writable(m, name)
  {
    hide Layout, Describes, Span, TrimName, Entry, IsValid;
    if IsValid(Entry(disk, 0)) {
      TrimProperties(Entry(disk, 0).name);
      assert Used(disk, 0, name);
      Missing(disk, m.files, name);
    } else {
      FullDirectory(disk, m.files);
    }
  }

  method WritableName(fs: WasmFs) returns (name: seq<byte>)
    requires fs.Valid()
    ensures Writable(fs.model, name)
  {
    hide Layout, Describes, IsFrontier, ViewOk, ReadEntry, Entry, TrimName;
    ghost var disk := fs.dev.data[..];
    var dir := fs.ReadDirBlock();
    var e := ReadEntry(dir[..], 0);
    EntryIsRead(disk, 0);
    if IsValid(e) { name := TrimNameLoop(e.name); } else { name := [97]; }
    FirstEntryWritable(disk, fs.model, name);
  }

  /** A write that has room: the file lands at the frontier, and no descriptor is touched. */
  method Place(fs: WasmFs, name: seq<byte>, data: seq<byte>)
    requires fs.Valid() && Writable(fs.model, name) && |data| < TWO32
    requires data == [] ==> fs.model.frontier + 1 < TWO32
    requires data != [] ==> fs.model.frontier + Span(|data|) <= fs.dev.blocks
    modifies fs, fs.dev.data
    ensures fs.Valid() && fs.open[..] == old(fs.open[..])
    ensures Step(fs.dev.blocks, old(fs.model), Write(name, data), Done(true), fs.model)
    ensures var m := old(fs.model);
            fs.model == Model(m.files[name := File(m.frontier, data)], m.frontier + Span(|data|), m.views)
    ensures Writable(fs.model, name)
  {
    hide Inv, Span, Storable, IsFrontier;
    var ok := fs.FsWrite(name, data);
  }

  /** The last block of an unguarded descriptor lies at or above the frontier, on the device. */
  lemma UnguardedFacts(disk: seq<byte>, blocks: nat, open: seq<OpenFile>, m: Model, fd: nat)
    requires Inv(disk, open, m) && |disk| == BLOCK_SIZE * blocks && fd < |m.views| && m.views[fd].Some?
    requires !Guarded(m.views[fd].value, m.frontier)
    ensures fd < |open| && open[fd].inUse && open[fd].size == |m.views[fd].value.file.data|
    ensures open[fd].pos == m.views[fd].value.pos < open[fd].size
    ensures var last := open[fd].startBlock + (open[fd].size - 1) / BLOCK_SIZE;
            m.frontier <= last < blocks && last + 1 < TWO32
  {
    hide Layout, Describes, IsFrontier, Content;
    assert ViewOk(disk, m.frontier, open[fd], m.views[fd]);
  }

  /** Bytes for the last block of a snapshot, none of them the snapshot's last. */
  function Differing(snapshot: seq<byte>): (data: seq<byte>)
    requires snapshot != []
    ensures 0 < |data| <= BLOCK_SIZE && |data| == (|snapshot| - 1) % BLOCK_SIZE + 1
    ensures data[|data| - 1] != snapshot[|snapshot| - 1]
  {
    seq((|snapshot| - 1) % BLOCK_SIZE + 1, _ => if snapshot[|snapshot| - 1] == 0 then 1 else 0)
  }

  lemma OneBlock(size: nat)
    requires size <= BLOCK_SIZE
    ensures Span(size) == 1
  {
  }

  /** Once such a file lies in the snapshot's last block, the descriptor's blocks no longer hold the snapshot. */
  lemma SnapshotLost(disk: seq<byte>, open: seq<OpenFile>, m: Model, fd: nat, name: seq<byte>, snapshot: seq<byte>)
    requires Inv(disk, open, m) && fd < |open| && open[fd].inUse && open[fd].size == |snapshot| > 0
    requires name in m.files
    requires m.files[name] == File(open[fd].startBlock + (|snapshot| - 1) / BLOCK_SIZE, Differing(snapshot))
    ensures OnDisk(disk, open[fd].startBlock, |snapshot|)
    ensures Content(disk, open[fd].startBlock, |snapshot|)[|snapshot| - 1] != snapshot[|snapshot| - 1]
  {
    hide Layout, Describes, IsFrontier, Content, OnDisk, Differing, ViewOk, Span;
    assert ViewOk(disk, m.frontier, open[fd], m.views[fd]);
    ViewFacts(disk, m.frontier, open[fd], m.views[fd]);
    FileOnDisk(disk, m.files, name);
    LastSpan(|snapshot|);
    LastByte(disk, open[fd].startBlock, |snapshot|, Differing(snapshot));
  }

  lemma LastSpan(size: nat)
    requires size > 0
    ensures Span(size) - 1 == (size - 1) / BLOCK_SIZE
  {
  }

  /** A history of writes from `m` to `m'`. */
  ghost predicate WritesOnly(blocks: nat, m: Model, ops: seq<Op>, outs: seq<Outcome>, ms: seq<Model>, m': Model) {
    && Trace(blocks, ms, ops, outs) && ms[0] == m && ms[|ops|] == m'
    && forall i :: 0 <= i < |ops| ==> ops[i].Write?
  }

  lemma OneMore(blocks: nat, m: Model, ops: seq<Op>, outs: seq<Outcome>, ms: seq<Model>, name: seq<byte>,
                data: seq<byte>, m': Model)
    requires |ms| > 0 && WritesOnly(blocks, m, ops, outs, ms, ms[|ms| - 1])
    requires Step(blocks, ms[|ms| - 1], Write(name, data), Done(true), m')
    ensures WritesOnly(blocks, m, ops + [Write(name, data)], outs + [Done(true)], ms + [m'], m')
  {
    hide Step;
    TraceNext(blocks, ms, ops, outs, Write(name, data), Done(true), m');
  }

  /** A read at the end of such a history. */
  lemma ThenRead(blocks: nat, m: Model, ops: seq<Op>, outs: seq<Outcome>, ms: seq<Model>, fd: nat, len: nat,
                 bytes: seq<byte>, m': Model)
    requires |ms| > 0 && WritesOnly(blocks, m, ops, outs, ms, ms[|ms| - 1])
    requires Step(blocks, ms[|ms| - 1], Read(fd, len), Got(bytes), m')
    ensures var ops', outs', ms' := ops + [Read(fd, len)], outs + [Got(bytes)], ms + [m'];
            && Trace(blocks, ms', ops', outs') && ms'[0] == m && ms'[|ops'|] == m'
            && (forall i :: 0 <= i < |ops'| ==> !ops'[i].Unlink? && !ops'[i].Close?)
            && Requested(fd, ops', 0, |ops'|) == len && Delivered(fd, ops', outs', 0, |ops'|) == bytes
  {
    hide Step, Requested, Delivered;
    TraceNext(blocks, ms, ops, outs, Read(fd, len), Got(bytes), m');
    LastDelivers(fd, ops + [Read(fd, len)], outs + [Got(bytes)], len, bytes);
  }

  /** Empty files raise the frontier one block at a time. */
  method RaiseFrontier(fs: WasmFs, name: seq<byte>, target: nat)
    returns (ops: seq<Op>, outs: seq<Outcome>, ghost ms: seq<Model>)
    requires fs.Valid() && Writable(fs.model, name) && fs.model.frontier <= target && target + 1 < TWO32
    modifies fs, fs.dev.data
    ensures fs.Valid() && fs.open[..] == old(fs.open[..]) && fs.model.views == old(fs.model.views)
    ensures fs.model.frontier == target && Writable(fs.model, name)
    ensures WritesOnly(fs.dev.blocks, old(fs.model), ops, outs, ms, fs.model)
  {
    hide Inv, Span, Step, Writable, Trace;
    ops, outs, ms := [], [], [fs.model];
    assert WritesOnly(fs.dev.blocks, fs.model, ops, outs, ms, fs.model) by { EmptyHistory(fs.dev.blocks, fs.model); }
    var next := fs.NextFreeBlock();
    while next < target
      invariant fs.Valid() && fs.open[..] == old(fs.open[..]) && fs.model.views == old(fs.model.views)
      invariant next == fs.model.frontier <= target && Writable(fs.model, name)
      invariant |ms| > 0 && ms[|ms| - 1] == fs.model
      invariant WritesOnly(fs.dev.blocks, old(fs.model), ops, outs, ms, fs.model)
      decreases target - next
    {
      Place(fs, name, []);
      OneBlock(0);
      OneMore(fs.dev.blocks, old(fs.model), ops, outs, ms, name, [], fs.model);
      ops, outs, ms := ops + [Write(name, [])], outs + [Done(true)], ms + [fs.model];
      next := next + 1;
    }
  }

  lemma EmptyHistory(blocks: nat, m: Model)
    ensures WritesOnly(blocks, m, [], [], [m], m)
  {
  }

  lemma LastModel(blocks: nat, m: Model, ops: seq<Op>, outs: seq<Outcome>, ms: seq<Model>, m': Model)
    requires WritesOnly(blocks, m, ops, outs, ms, m')
    ensures |ms| > 0 && ms[|ms| - 1] == m'
  {
  }

  /** Bytes read where the snapshot's last byte was, up to the end. */
  lemma EndDiffers(content: seq<byte>, snapshot: seq<byte>, pos: nat, bytes: seq<byte>)
    requires pos < |snapshot| == |content| && content[|snapshot| - 1] != snapshot[|snapshot| - 1]
    requires |bytes| == |snapshot| - pos && bytes == content[pos..pos + |bytes|]
    ensures bytes != snapshot[pos..]
  {
    assert bytes[|bytes| - 1] == content[|snapshot| - 1];
    assert snapshot[pos..][|bytes| - 1] == snapshot[|snapshot| - 1];
  }

  /** An unguarded descriptor: some history of writes alone changes what it goes on to read. Empty files raise the
      frontier to the snapshot's last block, one more file fills that block, and a read of what is left of the
      snapshot then delivers bytes other than the snapshot's. */
  method Overwrite(fs: WasmFs, fd: nat, snapshot: seq<byte>)
    returns (ops: seq<Op>, outs: seq<Outcome>, ghost ms: seq<Model>)
    requires fs.Valid() && fd < |fs.model.views| && fs.model.views[fd].Some?
    requires fs.model.views[fd].value.file.data == snapshot
    requires !Guarded(fs.model.views[fd].value, fs.model.frontier)
    modifies fs, fs.dev.data, fs.open
    ensures fs.Valid()
    ensures Trace(fs.dev.blocks, ms, ops, outs) && ms[0] == old(fs.model) && ms[|ops|] == fs.model
    ensures forall i :: 0 <= i < |ops| ==> !ops[i].Unlink? && !ops[i].Close?
    ensures var pos := old(fs.model).views[fd].value.pos;
            && pos <= |snapshot| && Requested(fd, ops, 0, |ops|) == |snapshot| - pos
            && |Delivered(fd, ops, outs, 0, |ops|)| == |snapshot| - pos
            && Delivered(fd, ops, outs, 0, |ops|) != snapshot[pos..]
  {
    hide Inv, Span, Step, Content, OnDisk, Writable, Requested, Delivered, WritesOnly, Trace, Guarded, Differing;
    var name := WritableName(fs);
    UnguardedFacts(fs.dev.data[..], fs.dev.blocks, fs.open[..], fs.model, fd);
    var o := fs.open[fd];
    var target := o.startBlock + (o.size - 1) / BLOCK_SIZE;
    ops, outs, ms := RaiseFrontier(fs, name, target);
    LastModel(fs.dev.blocks, old(fs.model), ops, outs, ms, fs.model);
    var data := Differing(snapshot);
    OneBlock(|data|);
    Place(fs, name, data);
    OneMore(fs.dev.blocks, old(fs.model), ops, outs, ms, name, data, fs.model);
    ops, outs, ms := ops + [Write(name, data)], outs + [Done(true)], ms + [fs.model];
    ghost var disk := fs.dev.data[..];
    SnapshotLost(disk, fs.open[..], fs.model, fd, name, snapshot);
    var len := o.size - o.pos;
    var bytes := ReadAll(fs, fd, len);
    ThenRead(fs.dev.blocks, old(fs.model), ops, outs, ms, fd, len, bytes, fs.model);
    ops, outs, ms := ops + [Read(fd, len)], outs + [Got(bytes)], ms + [fs.model];
    EndDiffers(Content(disk, o.startBlock, o.size), snapshot, o.pos, bytes);
  }

  method ReadAll(fs: WasmFs, fd: nat, len: nat) returns (bytes: seq<byte>)
    requires fs.Valid() && fd < fs.open.Length && fs.open[fd].inUse && fs.open[fd].pos + len == fs.open[fd].size
    modifies fs, fs.open
    ensures fs.Valid() && fs.dev.data[..] == old(fs.dev.data[..])
    ensures Step(fs.dev.blocks, old(fs.model), Read(fd, len), Got(bytes), fs.model)
    ensures var o := old(fs.open[fd]);
            && |bytes| == len && OnDisk(fs.dev.data[..], o.startBlock, o.size)
            && bytes == Content(fs.dev.data[..], o.startBlock, o.size)[o.pos..o.pos + len]
  {
    hide Layout, Describes, IsFrontier, Content, OnDisk, ViewOk, End;
    InUseIffSome(fs.dev.data[..], fs.open[..], fs.model);
    ViewFacts(fs.dev.data[..], fs.model.frontier, fs.open[fd], fs.model.views[fd]);
    var buf := new byte[len];
    var n := fs.FsRead(fd, buf, len);
    bytes := buf[..n];
  }
}
