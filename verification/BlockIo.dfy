/** `BlockIo`: byte-level reads and writes over a block device through a one-block write-back cache.

    `file` is the byte file a caller sees: the device overlaid with the cached block. Block numbers are cut to 32
    bits, and a whole sector enters the cache unchecked, so the cache can hold a block that is not on the device. */
module BlockCache {
  import opened Words
  import opened Block

  // ---- what a caller sees ------------------------------------------------------------------------------

  /** Bytes that 32-bit block numbers reach. */
  const REACH: nat := BLOCK_SIZE * TWO32

  /** Where a cursor points. */
  function Address(pos: nat): nat {
    pos % REACH
  }

  /** A dirty cached block that is not on the device. */
  datatype Stray = Stray(block: nat, bytes: seq<byte>)

  datatype Disk = Disk(file: seq<byte>, pos: nat, stray: Option<Stray>)

  predicate DiskOk(d: Disk) {
    && |d.file| % BLOCK_SIZE == 0 && |d.file| < REACH
    && (d.stray.Some? ==> |d.stray.value.bytes| == BLOCK_SIZE && d.stray.value.block * BLOCK_SIZE >= |d.file|)
  }

  function Piece(a: nat, n: nat): nat {
    Min(BLOCK_SIZE - a % BLOCK_SIZE, n)
  }

  /** One turn of the read loop. */
  function ChunkRead(d: Disk, n: nat): (r: (Disk, Option<seq<byte>>))
    requires DiskOk(d)
    ensures DiskOk(r.0) && (r.1.Some? ==> |r.1.value| == Piece(Address(d.pos), n))
  {
    var a := Address(d.pos);
    var k := Piece(a, n);
    if d.stray.Some? then
      if a / BLOCK_SIZE != d.stray.value.block then (d, None)
      else (d.(pos := d.pos + k), Some(d.stray.value.bytes[a % BLOCK_SIZE..a % BLOCK_SIZE + k]))
    else if a < |d.file| then (d.(pos := d.pos + k), Some(d.file[a..a + k]))
    else (d, None)
  }

  function LoopRead(d: Disk, n: nat): (Disk, Option<seq<byte>>)
    requires DiskOk(d)
    decreases n
  {
    if n == 0 then (d, Some([]))
    else
      var (d1, head) := ChunkRead(d, n);
      if head.None? then (d1, None)
      else
        var (d2, tail) := LoopRead(d1, n - Piece(Address(d.pos), n));
        (d2, if tail.None? then None else Some(head.value + tail.value))
  }

  /** A read that had delivered `got` before. */
  function Ahead(r: (Disk, Option<seq<byte>>), got: seq<byte>): (Disk, Option<seq<byte>>) {
    (r.0, if r.1.None? then None else Some(got + r.1.value))
  }

  lemma AheadEnds(r: (Disk, Option<seq<byte>>), d: Disk, got: seq<byte>)
    ensures Ahead(r, []) == r && Ahead((d, Some([])), got) == (d, Some(got))
  {
    assert r.1.Some? ==> [] + r.1.value == r.1.value;
    assert got + [] == got;
  }

  lemma AheadTwice(d: Disk, n: nat, got: seq<byte>)
    requires DiskOk(d) && n > 0 && ChunkRead(d, n).1.Some?
    ensures var (d1, head) := ChunkRead(d, n);
            Ahead(LoopRead(d, n), got) == Ahead(LoopRead(d1, n - |head.value|), got + head.value)
  {
    hide ChunkRead, DiskOk;
    var (d1, head) := ChunkRead(d, n);
    var tail := LoopRead(d1, n - |head.value|).1;
    if tail.Some? { assert got + (head.value + tail.value) == (got + head.value) + tail.value; }
  }

  /** Of `n` bytes from `a` on, how many lie on a device of `size` bytes. */
  function Landing(a: nat, n: nat, size: nat): nat {
    if a >= size then 0 else Min(n, size - a)
  }

  /** A whole read: all of it from the file, or from the stray block, or an error after the part that is there. */
  function DiskRead(d: Disk, n: nat): (Disk, Option<seq<byte>>)
    requires DiskOk(d)
  {
    var a := Address(d.pos);
    if n == 0 then (d, Some([]))
    else if d.stray.Some? then
      if a / BLOCK_SIZE != d.stray.value.block then (d, None)
      else
        var off, k := a % BLOCK_SIZE, Piece(a, n);
        (d.(pos := d.pos + k), if k == n then Some(d.stray.value.bytes[off..off + n]) else None)
    else
      var k := Landing(a, n, |d.file|);
      (d.(pos := d.pos + k), if k == n then Some(d.file[a..a + n]) else None)
  }

  /** One turn of the write loop. */
  function ChunkWrite(d: Disk, src: seq<byte>): (r: (Disk, Option<nat>))
    requires DiskOk(d)
    ensures DiskOk(r.0) && (r.1.Some? ==> r.1.value == Piece(Address(d.pos), |src|))
  {
    var a := Address(d.pos);
    var off, k := a % BLOCK_SIZE, Piece(a, |src|);
    var whole := off == 0 && |src| >= BLOCK_SIZE;
    if d.stray.Some? then
      if whole || a / BLOCK_SIZE != d.stray.value.block then (d, None)
      else (d.(pos := d.pos + k,
               stray := Some(Stray(a / BLOCK_SIZE, Splice(d.stray.value.bytes, off, src[..k])))), Some(k))
    else if a < |d.file| then (d.(file := Splice(d.file, a, src[..k]), pos := d.pos + k), Some(k))
    else if whole then (d.(pos := d.pos + k, stray := Some(Stray(a / BLOCK_SIZE, src[..k]))), Some(k))
    else (d, None)
  }

  function LoopWrite(d: Disk, src: seq<byte>): (Disk, Option<nat>)
    requires DiskOk(d)
    decreases |src|
  {
    if src == [] then (d, Some(0))
    else
      var (d1, head) := ChunkWrite(d, src);
      if head.None? then (d1, None)
      else
        var (d2, tail) := LoopWrite(d1, src[head.value..]);
        (d2, if tail.None? then None else Some(head.value + tail.value))
  }

  /** A write with `k` bytes of it on the device. */
  function FileWrite(d: Disk, src: seq<byte>, a: nat, k: nat): (Disk, Option<nat>)
    requires k <= |src| && (k > 0 ==> a + k <= |d.file|)
  {
    var file' := if k == 0 then d.file else Splice(d.file, a, src[..k]);
    if k == |src| then (d.(file := file', pos := d.pos + k), Some(k))
    else if (a + k) % BLOCK_SIZE == 0 && |src| - k >= BLOCK_SIZE then
      (Disk(file', d.pos + k + BLOCK_SIZE, Some(Stray((a + k) / BLOCK_SIZE, src[k..k + BLOCK_SIZE]))),
       if |src| - k == BLOCK_SIZE then Some(|src|) else None)
    else (d.(file := file', pos := d.pos + k), None)
  }

  /** A write that had accepted `done` bytes before. */
  function Onward(r: (Disk, Option<nat>), done: nat): (Disk, Option<nat>) {
    (r.0, if r.1.None? then None else Some(done + r.1.value))
  }

  /** A whole write: the part that lies on the device is in the file, whatever the outcome. Past the device at most one
      sector goes into the cache, when all of it is there; nothing after it is accepted. */
  function DiskWrite(d: Disk, src: seq<byte>): (Disk, Option<nat>)
    requires DiskOk(d)
  {
    var a, n := Address(d.pos), |src|;
    if src == [] then (d, Some(0))
    else if d.stray.Some? then
      var off, k := a % BLOCK_SIZE, Piece(a, n);
      if (off == 0 && n >= BLOCK_SIZE) || a / BLOCK_SIZE != d.stray.value.block then (d, None)
      else (d.(pos := d.pos + k,
               stray := Some(Stray(d.stray.value.block, Splice(d.stray.value.bytes, off, src[..k])))),
            if k == n then Some(n) else None)
    else
      FileWrite(d, src, a, Landing(a, n, |d.file|))
  }

  // ---- the loops compute the whole read and write --------------------------------------------------------

  lemma Advance(pos: nat, k: nat)
    requires Address(pos) + k <= REACH
    ensures Address(pos + k) == if Address(pos) + k < REACH then Address(pos) + k else 0
  {
    var q := pos / REACH;
    assert pos + k == q * REACH + (Address(pos) + k);
    if Address(pos) + k < REACH {
      DivUnique(pos + k, REACH, q, Address(pos) + k);
    } else {
      DivUnique(pos + k, REACH, q + 1, 0);
    }
  }

  /** A piece that does not end inside its block leads to another block. */
  lemma NextBlock(pos: nat, n: nat)
    requires Piece(Address(pos), n) < n
    ensures var k := Piece(Address(pos), n); Address(pos + k) / BLOCK_SIZE != Address(pos) / BLOCK_SIZE
  {
    Advance(pos, Piece(Address(pos), n));
  }

  /** A piece that starts on the device ends on it. */
  lemma PieceFits(a: nat, n: nat, size: nat)
    requires a < size && size % BLOCK_SIZE == 0 && n > 0
    ensures var k := Piece(a, n); 0 < k <= n && a + k <= size && (k < n ==> (a + k) % BLOCK_SIZE == 0)
  {
  }

  lemma LandingNext(a: nat, n: nat, size: nat, k: nat)
    requires k <= n && a + k <= size && a < size
    ensures Landing(a, n, size) == k + Landing(a + k, n - k, size)
  {
  }

  lemma {:induction false} ReadInLoop(d: Disk, n: nat)
    requires DiskOk(d)
    ensures LoopRead(d, n) == DiskRead(d, n)
    decreases n
  {
    hide Address, Piece, DiskOk, DiskRead, ChunkRead;
    if n == 0 {
      ReadNothing(d);
    } else if d.stray.Some? {
      ReadStray(d, n);
    } else if Address(d.pos) < |d.file| {
      var k := Piece(Address(d.pos), n);
      ReadOnward(d, n, k);
      ReadInLoop(d.(pos := d.pos + k), n - k);
    } else {
      ReadPast(d, n);
    }
  }

  lemma ReadNothing(d: Disk)
    requires DiskOk(d)
    ensures DiskRead(d, 0) == (d, Some([]))
  {
  }

  lemma ReadPast(d: Disk, n: nat)
    requires DiskOk(d) && d.stray.None? && Address(d.pos) >= |d.file| && n > 0
    ensures ChunkRead(d, n) == (d, None) && DiskRead(d, n) == (d, None)
  {
    hide Address, Piece;
  }

  lemma ReadStray(d: Disk, n: nat)
    requires DiskOk(d) && d.stray.Some? && n > 0
    ensures LoopRead(d, n) == DiskRead(d, n)
  {
    var k := Piece(Address(d.pos), n);
    if k < n { NextBlock(d.pos, n); }
    hide Address, Piece;
    var d1 := d.(pos := d.pos + k);
    if Address(d.pos) / BLOCK_SIZE == d.stray.value.block {
      var head := ChunkRead(d, n).1.value;
      assert ChunkRead(d, n).0 == d1 && head + [] == head;
      if k < n { assert ChunkRead(d1, n - k) == (d1, None); } else { assert LoopRead(d1, 0) == (d1, Some([])); }
    }
  }

  /** Reading from the file, the two forms. */
  lemma ReadCases(d: Disk, n: nat)
    requires DiskOk(d) && d.stray.None? && n > 0
    ensures var a := Address(d.pos);
            var k := Landing(a, n, |d.file|);
            DiskRead(d, n) == (d.(pos := d.pos + k), if k == n then Some(d.file[a..a + n]) else None)
  {
    hide Address, DiskOk;
  }

  lemma ChunkReadCase(d: Disk, n: nat)
    requires DiskOk(d) && d.stray.None? && Address(d.pos) < |d.file| && n > 0
    ensures var a := Address(d.pos);
            var k := Piece(a, n);
            && 0 < k <= n && a + k <= |d.file| && (k < n ==> (a + k) % BLOCK_SIZE == 0)
            && ChunkRead(d, n) == (d.(pos := d.pos + k), Some(d.file[a..a + k])) && DiskOk(d.(pos := d.pos + k))
            && Address(d.pos + k) == a + k
  {
    PieceFits(Address(d.pos), n, |d.file|);
    Advance(d.pos, Piece(Address(d.pos), n));
    hide Address, Piece;
  }

  lemma ReadOnward(d: Disk, n: nat, k: nat)
    requires DiskOk(d) && d.stray.None? && Address(d.pos) < |d.file| && n > 0 && k == Piece(Address(d.pos), n)
    ensures var d1 := d.(pos := d.pos + k);
            && 0 < k <= n && DiskOk(d1) && ChunkRead(d, n).0 == d1 && ChunkRead(d, n).1.Some?
            && var (d2, tail) := DiskRead(d1, n - k);
               DiskRead(d, n) == (d2, if tail.None? then None else Some(ChunkRead(d, n).1.value + tail.value))
  {
    hide *;
    var a, d1 := Address(d.pos), d.(pos := d.pos + k);
    ChunkReadCase(d, n);
    ReadCases(d, n);
    LandingNext(a, n, |d.file|, k);
    LandingBound(a, n, |d.file|);
    if k < n {
      ReadCases(d1, n - k);
      if a + n <= |d.file| { JoinPieces(d.file, a, a + k, a + n); }
    } else {
      ReadNothing(d1);
      LandingNone(a + k, |d.file|);
      assert d.file[a..a + k] + [] == d.file[a..a + k];
    }
  }

  lemma JoinPieces(s: seq<byte>, i: nat, j: nat, k: nat)
    requires i <= j <= k <= |s|
    ensures s[i..j] + s[j..k] == s[i..k]
  {
  }

  lemma LandingNone(a: nat, size: nat)
    ensures Landing(a, 0, size) == 0
  {
  }

  lemma LandingBound(a: nat, n: nat, size: nat)
    ensures Landing(a, n, size) <= n && (a <= size ==> a + Landing(a, n, size) <= size)
    ensures n > 0 ==> (Landing(a, n, size) == n <==> a + n <= size)
  {
  }

  lemma {:induction false} WriteInLoop(d: Disk, src: seq<byte>)
    requires DiskOk(d)
    ensures LoopWrite(d, src) == DiskWrite(d, src)
    decreases |src|
  {
    hide Address, Piece, DiskOk, DiskWrite, ChunkWrite;
    if src == [] {
      WriteNothing(d);
    } else if d.stray.Some? {
      WriteStray(d, src);
    } else if Address(d.pos) < |d.file| {
      var k := Piece(Address(d.pos), |src|);
      WriteOnward(d, src, k);
      WriteInLoop(ChunkWrite(d, src).0, src[k..]);
    } else {
      WritePast(d, src);
    }
  }

  lemma WriteNothing(d: Disk)
    requires DiskOk(d)
    ensures DiskWrite(d, []) == (d, Some(0))
  {
  }

  lemma WriteStray(d: Disk, src: seq<byte>)
    requires DiskOk(d) && d.stray.Some? && src != []
    ensures LoopWrite(d, src) == DiskWrite(d, src)
  {
    var k := Piece(Address(d.pos), |src|);
    if k < |src| { NextBlock(d.pos, |src|); }
    hide Address, Piece, Splice;
    var d1 := ChunkWrite(d, src).0;
    if ChunkWrite(d, src).1.Some? {
      if k < |src| { assert ChunkWrite(d1, src[k..]) == (d1, None); } else { assert src[k..] == []; }
    }
  }

  /** Past the device: one whole sector at most. */
  lemma WritePast(d: Disk, src: seq<byte>)
    requires DiskOk(d) && d.stray.None? && Address(d.pos) >= |d.file| && src != []
    ensures LoopWrite(d, src) == DiskWrite(d, src)
  {
    var k := Piece(Address(d.pos), |src|);
    if k < |src| { NextBlock(d.pos, |src|); }
    assert Address(d.pos) % BLOCK_SIZE == 0 && |src| >= BLOCK_SIZE ==> k == BLOCK_SIZE;
    hide Address, Piece, Splice;
    var d1 := ChunkWrite(d, src).0;
    if ChunkWrite(d, src).1.Some? {
      if k < |src| { assert ChunkWrite(d1, src[k..]) == (d1, None); } else { assert src[k..] == []; }
    }
  }

  lemma WriteCases(d: Disk, src: seq<byte>)
    requires DiskOk(d) && d.stray.None? && src != []
    ensures var a, n := Address(d.pos), |src|;
            DiskWrite(d, src) == FileWrite(d, src, a, Landing(a, n, |d.file|))
  {
    hide Address, DiskOk, Splice;
  }

  lemma ChunkWriteCase(d: Disk, src: seq<byte>)
    requires DiskOk(d) && d.stray.None? && Address(d.pos) < |d.file| && src != []
    ensures var a := Address(d.pos);
            var k := Piece(a, |src|);
            && 0 < k <= |src| && a + k <= |d.file| && (k < |src| ==> (a + k) % BLOCK_SIZE == 0)
            && var d1 := d.(file := Splice(d.file, a, src[..k]), pos := d.pos + k);
               ChunkWrite(d, src) == (d1, Some(k)) && DiskOk(d1) && Address(d.pos + k) == a + k
  {
    PieceFits(Address(d.pos), |src|, |d.file|);
    Advance(d.pos, Piece(Address(d.pos), |src|));
    hide Address, Piece, Splice;
  }

  lemma WriteOnward(d: Disk, src: seq<byte>, k: nat)
    requires DiskOk(d) && d.stray.None? && Address(d.pos) < |d.file| && src != []
    requires k == Piece(Address(d.pos), |src|)
    ensures var (d1, head) := ChunkWrite(d, src);
            && head == Some(k) && 0 < k <= |src|
            && var (d2, tail) := DiskWrite(d1, src[k..]);
               DiskWrite(d, src) == (d2, if tail.None? then None else Some(k + tail.value))
  {
    hide *;
    var a, n := Address(d.pos), |src|;
    ChunkWriteCase(d, src);
    WriteCases(d, src);
    LandingNext(a, n, |d.file|, k);
    LandingBound(a + k, n - k, |d.file|);
    var d1 := d.(file := Splice(d.file, a, src[..k]), pos := d.pos + k);
    if k < n {
      WriteCases(d1, src[k..]);
    } else {
      assert src[k..] == [];
      WriteNothing(d1);
    }
    WriteJoins(d, src, a, k, Landing(a + k, n - k, |d.file|));
  }

  /** Writing from the cursor is writing a piece and then the rest. */
  lemma WriteJoins(d: Disk, src: seq<byte>, a: nat, k: nat, j: nat)
    requires 0 < k <= |src| && j <= |src| - k && a + k + j <= |d.file|
    ensures var d1 := d.(file := Splice(d.file, a, src[..k]), pos := d.pos + k);
            k < |src| ==>
              var (d2, tail) := FileWrite(d1, src[k..], a + k, j);
              FileWrite(d, src, a, k + j) == (d2, if tail.None? then None else Some(k + tail.value))
    ensures k == |src| ==>
              FileWrite(d, src, a, k) == (d.(file := Splice(d.file, a, src[..k]), pos := d.pos + k), Some(k))
  {
    hide Splice;
    SpliceTwice(d.file, a, src[..k], src[k..k + j]);
    assert src[..k] + src[k..k + j] == src[..k + j] && src[k..][..j] == src[k..k + j];
    if |src| - k - j >= BLOCK_SIZE {
      assert src[k..][j..j + BLOCK_SIZE] == src[k + j..k + j + BLOCK_SIZE];
    }
  }

  lemma SpliceTwice(file: seq<byte>, pos: nat, a: seq<byte>, b: seq<byte>)
    requires pos + |a| + |b| <= |file|
    ensures Splice(Splice(file, pos, a), pos + |a|, b) == Splice(file, pos, a + b)
  {
  }

  // ---- the class ---------------------------------------------------------------------------------------

  datatype SeekFrom = Start(n: Word) | Current(delta: int) | End(delta: int)

  class BlockIo {
    const dev: Ramdisk
    const buf: array<byte>
    var pos: nat
    var lba: Option<nat>
    var dirty: bool
    ghost var file: seq<byte>

    ghost predicate Shape()
      reads this, dev
    {
      dev.Valid() && buf.Length == BLOCK_SIZE && buf != dev.data && |file| == dev.data.Length
    }

    ghost predicate Valid()
      reads this, dev, buf, dev.data
    {
      && Shape()
      && (dirty ==> lba.Some?)
      && (CacheInRange() && !dirty ==> dev.data[..] == file)
      && (!CacheInRange() ==> dirty && dev.data[..] == file)
      && (lba.Some? && lba.value < dev.blocks ==> Splice(dev.data[..], BLOCK_SIZE * lba.value, buf[..]) == file)
    }

    /** The cached block, if any, lies on the device. */
    predicate CacheInRange()
      reads this
    {
      lba.Some? ==> lba.value < dev.blocks
    }

    ghost function StrayBlock(): Option<Stray>
      reads this, buf
    {
      if CacheInRange() then None else Some(Stray(lba.value, buf[..]))
    }

    /** What the cache and the device amount to. */
    ghost function View(): (d: Disk)
      requires Valid()
      reads this, dev, buf, dev.data
      ensures DiskOk(d)
    {
      Disk(file, pos, StrayBlock())
    }

    constructor (dev: Ramdisk)
      requires dev.Valid()
      ensures Valid() && this.dev == dev && fresh(buf) && View() == Disk(dev.data[..], 0, None)
    {
      this.dev := dev;
      buf := new byte[BLOCK_SIZE](_ => 0);
      pos, lba, dirty := 0, None, false;
      file := dev.data[..];
    }

    /** Writing the cached block back is invisible: the device then equals the file. A stray block stays. */
    method FlushDirty() returns (ok: bool)
      requires Valid()
      modifies this`dirty, dev.data
      ensures Valid() && View() == old(View())
      ensures ok <==> CacheInRange()
      ensures ok ==> !dirty && dev.data[..] == file
      ensures !ok ==> dirty == old(dirty) && dev.data[..] == old(dev.data[..])
    {
      if dirty {
        ok := dev.WriteBlock(lba.value, buf);
        if !ok { return false; }
        dirty := false;
        SpliceAgain(file, BLOCK_SIZE * lba.value, buf[..], old(dev.data[..]));
      }
      return true;
    }

    static lemma SpliceAgain(file: seq<byte>, pos: nat, d: seq<byte>, data: seq<byte>)
      requires pos + |d| <= |data| && file == Splice(data, pos, d)
      ensures Splice(file, pos, d) == file
    {
    }

    static lemma SpliceSelf(file: seq<byte>, pos: nat, n: nat)
      requires pos + n <= |file|
      ensures Splice(file, pos, file[pos..pos + n]) == file
    {
    }

    /** Bringing block `n` into the cache. Past a stray block nothing else can be brought in. */
    method EnsureBlock(n: nat) returns (ok: bool)
      requires Valid()
      modifies this`dirty, this`lba, dev.data, buf
      ensures Valid() && View() == old(View())
      ensures ok <==> old(lba) == Some(n) || (old(CacheInRange()) && n < dev.blocks)
      ensures ok ==> lba == Some(n)
      ensures !ok ==> lba == old(lba)
    {
      if lba == Some(n) { return true; }
      ok := FlushDirty();
      if !ok { return false; }
      ok := dev.ReadBlock(n, buf);
      if !ok {
        assert lba.Some? ==> buf[..] == old(buf[..]);
        return false;
      }
      SpliceSelf(file, BLOCK_SIZE * n, BLOCK_SIZE);
      lba := Some(n);
    }

    static lemma BlockNumber(pos: nat)
      ensures (pos / BLOCK_SIZE) % TWO32 == Address(pos) / BLOCK_SIZE && pos % BLOCK_SIZE == Address(pos) % BLOCK_SIZE
      ensures Address(pos) == BLOCK_SIZE * (Address(pos) / BLOCK_SIZE) + Address(pos) % BLOCK_SIZE
    {
      var q, a := pos / REACH, Address(pos);
      var b, off := a / BLOCK_SIZE, a % BLOCK_SIZE;
      assert pos == (q * TWO32 + b) * BLOCK_SIZE + off;
      DivUnique(pos, BLOCK_SIZE, q * TWO32 + b, off);
      DivUnique(q * TWO32 + b, TWO32, q, b);
    }

    /** A piece of the cached block is that piece of the file. */
    static lemma ReadStep(data: seq<byte>, buf: seq<byte>, n: nat, off: nat, avail: nat)
      requires |buf| == BLOCK_SIZE && BLOCK_SIZE * n + BLOCK_SIZE <= |data| && off + avail <= BLOCK_SIZE
      ensures Splice(data, BLOCK_SIZE * n, buf)[BLOCK_SIZE * n + off..BLOCK_SIZE * n + off + avail]
              == buf[off..off + avail]
    {
    }

    /** One turn of the read loop: the part of the current block that is wanted, copied to `out[done..]`. */
    method ReadChunk(out: array<byte>, done: nat) returns (n: Option<nat>)
      requires Valid() && out != buf && out != dev.data && done < out.Length
      modifies this`pos, this`dirty, this`lba, dev.data, buf, out
      ensures Valid() && (View(), n.Some?) == (var r := ChunkRead(old(View()), out.Length - done); (r.0, r.1.Some?))
      ensures n.Some? ==>
                && 0 < n.value && done + n.value <= out.Length
                && out[..done] == old(out[..done])
                && Some(out[done..done + n.value]) == ChunkRead(old(View()), out.Length - done).1
    {
      hide Splice, Address;
      var b, off := (pos / BLOCK_SIZE) % TWO32, pos % BLOCK_SIZE;
      BlockNumber(pos);
      var ok := EnsureBlock(b);
      if !ok { return None; }
      var avail := Min(BLOCK_SIZE - off, out.Length - done);
      CopyOut(out, done, off, avail);
      if b < dev.blocks { ReadStep(dev.data[..], buf[..], b, off, avail); }
      pos := pos + avail;
      return Some(avail);
    }

    method CopyOut(out: array<byte>, done: nat, off: nat, avail: nat)
      requires out != buf && off + avail <= buf.Length && done + avail <= out.Length
      modifies out
      ensures out[..done] == old(out[..done]) && out[done..done + avail] == buf[off..off + avail]
    {
      forall k | 0 <= k < avail {
        out[done + k] := buf[off + k];
      }
    }

    /** Fills `out` from the cursor, as a whole read of the file or of the stray block. */
    method Read(out: array<byte>) returns (r: Option<nat>)
      requires Valid() && out != buf && out != dev.data
      modifies this`pos, this`dirty, this`lba, dev.data, buf, out
      ensures Valid() && View() == DiskRead(old(View()), out.Length).0
      ensures DiskRead(old(View()), out.Length).1 == if r.Some? then Some(out[..]) else None
      ensures r.Some? ==> r.value == out.Length
    {
      hide Splice, Address, Piece, ChunkRead, DiskRead, Valid, View, DiskOk;
      ghost var first := View();
      ReadInLoop(first, out.Length);
      var done := 0;
      assert out[..0] == [];
      AheadEnds(LoopRead(first, out.Length), first, []);
      while done < out.Length
        invariant 0 <= done <= out.Length && Valid()
        invariant LoopRead(first, out.Length) == Ahead(LoopRead(View(), out.Length - done), out[..done])
        decreases out.Length - done
      {
        ghost var now, got := View(), out[..done];
        var n := ReadChunk(out, done);
        if n.None? { return None; }
        assert out[..done + n.value] == got + out[done..done + n.value];
        AheadTwice(now, out.Length - done, got);
        done := done + n.value;
      }
      assert out[..] == out[..done];
      AheadEnds(LoopRead(View(), 0), View(), out[..]);
      return Some(done);
    }

    /** Choosing the cached block for a write: a partial sector is brought in first, a whole sector is not
        read, nor checked to lie on the device. */
    method PrepareBlock(b: nat, whole: bool) returns (ok: bool)
      requires Valid()
      modifies this`dirty, this`lba, dev.data, buf
      ensures Shape() && (!ok ==> Valid() && View() == old(View()))
      ensures old(CacheInRange()) ==> (ok <==> whole || b < dev.blocks)
      ensures !old(CacheInRange()) ==> (ok <==> !whole && old(lba) == Some(b))
      ensures ok ==> lba == Some(b) && Prepared(b, whole) && (!old(CacheInRange()) ==> buf[..] == old(buf[..]))
    {
      if !whole {
        ok := EnsureBlock(b);
        assert ok && !old(CacheInRange()) ==> View().stray == old(View()).stray;
      } else {
        ok := FlushDirty();
        if !ok { return; }
        lba := Some(b);
        forall k | 0 <= k < BLOCK_SIZE {
          buf[k] := 0;
        }
      }
    }

    /** Block `b` may be overwritten, from its start to its end when `whole`. */
    ghost predicate Prepared(b: nat, whole: bool)
      requires Shape()
      reads this, dev, buf, dev.data
    {
      if b < dev.blocks then
        (whole && dev.data[..] == file) || Splice(dev.data[..], BLOCK_SIZE * b, buf[..]) == file
      else dev.data[..] == file
    }

    method CopyIn(off: nat, d: seq<byte>)
      requires off + |d| <= buf.Length
      modifies buf
      ensures buf[..] == Splice(old(buf[..]), off, d)
    {
      forall k | 0 <= k < |d| {
        buf[off + k] := d[k];
      }
    }

    /** Copying into the cached block and marking it. */
    method FillBuffer(off: nat, d: seq<byte>)
      requires Shape() && lba.Some? && Prepared(lba.value, |d| == BLOCK_SIZE) && off + |d| <= BLOCK_SIZE
      modifies this`dirty, this`file, buf
      ensures Valid() && buf[..] == Splice(old(buf[..]), off, d)
      ensures lba.value < dev.blocks ==> file == Splice(old(file), BLOCK_SIZE * lba.value + off, d)
      ensures lba.value >= dev.blocks ==> file == old(file)
    {
      ghost var cached := buf[..];
      CopyIn(off, d);
      dirty := true;
      hide Splice;
      if lba.value < dev.blocks {
        WriteStep(dev.data[..], cached, file, lba.value, off, d);
        file := Splice(file, BLOCK_SIZE * lba.value + off, d);
      }
    }

    /** Overlaying an updated block is updating the overlaid file. */
    static lemma WriteStep(disk: seq<byte>, cached: seq<byte>, file: seq<byte>, b: nat, off: nat, d: seq<byte>)
      requires |cached| == BLOCK_SIZE && BLOCK_SIZE * b + BLOCK_SIZE <= |disk| == |file| && off + |d| <= BLOCK_SIZE
      requires Splice(disk, BLOCK_SIZE * b, cached) == file || (file == disk && |d| == BLOCK_SIZE)
      ensures Splice(disk, BLOCK_SIZE * b, Splice(cached, off, d)) == Splice(file, BLOCK_SIZE * b + off, d)
    {
    }

    static lemma SpliceWhole(cached: seq<byte>, d: seq<byte>)
      requires |d| == |cached|
      ensures Splice(cached, 0, d) == d
    {
    }

    /** One turn of the write loop. On the device it updates the file; past its end a whole sector is accepted
        and the file does not change. */
    method WriteChunk(src: seq<byte>, done: nat) returns (n: Option<nat>)
      requires Valid() && done < |src|
      modifies this`pos, this`dirty, this`lba, this`file, dev.data, buf
      ensures Valid() && (View(), n) == ChunkWrite(old(View()), src[done..])
      ensures n.Some? ==> 0 < n.value && done + n.value <= |src|
    {
      hide Splice, Address, Prepared;
      ghost var d0 := View();
      var b, off := (pos / BLOCK_SIZE) % TWO32, pos % BLOCK_SIZE;
      BlockNumber(pos);
      var whole := off == 0 && |src| - done >= BLOCK_SIZE;
      var ok := PrepareBlock(b, whole);
      if !ok { return None; }
      var avail := Min(BLOCK_SIZE - off, |src| - done);
      assert src[done..done + avail] == src[done..][..avail];
      ghost var cached := buf[..];
      FillBuffer(off, src[done..done + avail]);
      if whole { SpliceWhole(cached, src[done..done + avail]); }
      pos := pos + avail;
      return Some(avail);
    }

    /** Writes `src` at the cursor, as a whole write. */
    method Write(src: seq<byte>) returns (r: Option<nat>)
      requires Valid()
      modifies this`pos, this`dirty, this`lba, this`file, dev.data, buf
      ensures Valid() && (View(), r) == DiskWrite(old(View()), src)
    {
      hide Splice, Address, Piece, ChunkWrite, DiskWrite, Valid, View, DiskOk;
      ghost var first := View();
      WriteInLoop(first, src);
      var done := 0;
      assert src[0..] == src;
      while done < |src|
        invariant 0 <= done <= |src| && Valid()
        invariant LoopWrite(first, src) == Onward(LoopWrite(View(), src[done..]), done)
        decreases |src| - done
      {
        var n := WriteChunk(src, done);
        if n.None? { return None; }
        assert src[done..][n.value..] == src[done + n.value..];
        done := done + n.value;
      }
      return Some(done);
    }

    /** Writes the cached block back; fails exactly while it is stray. */
    method Flush() returns (ok: bool)
      requires Valid()
      modifies this`dirty, dev.data
      ensures Valid() && View() == old(View()) && (ok <==> View().stray.None?)
      ensures dev.data[..] == file
    {
      ok := FlushDirty();
    }

    /** Moves the cursor and nothing else; seeking from the end is refused, and so is a negative target. */
    method Seek(from: SeekFrom) returns (r: Option<nat>)
      requires Valid()
      modifies this`pos
      ensures Valid() && View() == old(View()).(pos := pos)
      ensures r == Target(old(pos), from)
      ensures pos == (if r.Some? then r.value else old(pos))
    {
      if from.End? { return None; }
      var target: int := if from.Current? then pos + from.delta else if from.n < TWO63 then from.n else from.n - TWO64;
      if target < 0 { return None; }
      pos := target;
      return Some(pos);
    }
  }

  /** Where a seek leads. */
  function Target(pos: nat, from: SeekFrom): Option<nat> {
    match from
    case Start(n) => if n < TWO63 then Some(n) else None
    case Current(d) => if pos + d < 0 then None else Some(pos + d)
    case End(_) => None
  }

  // ---- histories --------------------------------------------------------------------------------------

  datatype Op = Seeking(from: SeekFrom) | Reading(n: nat) | Writing(d: seq<byte>) | Flushing

  datatype Outcome =
    | Moved(at: Option<nat>)
    | Got(bytes: Option<seq<byte>>)
    | Put(count: Option<nat>)
    | Flushed(ok: bool)

  /** Every operation on what a caller sees. */
  function DiskStep(d: Disk, op: Op): (r: (Disk, Outcome))
    requires DiskOk(d)
    ensures DiskOk(r.0)
  {
    match op
    case Seeking(from) =>
      var at := Target(d.pos, from);
      (if at.Some? then d.(pos := at.value) else d, Moved(at))
    case Reading(n) => var (d', bytes) := DiskRead(d, n); (d', Got(bytes))
    case Writing(src) => var (d', count) := DiskWrite(d, src); (d', Put(count))
    case Flushing => (d, Flushed(d.stray.None?))
  }

  function DiskRun(d: Disk, ops: seq<Op>): (r: (Disk, seq<Outcome>))
    requires DiskOk(d)
    ensures DiskOk(r.0) && |r.1| == |ops|
    decreases |ops|
  {
    if ops == [] then (d, [])
    else
      var (d1, out) := DiskStep(d, ops[0]);
      var (d2, outs) := DiskRun(d1, ops[1..]);
      (d2, [out] + outs)
  }

  method Apply(io: BlockIo, op: Op) returns (out: Outcome)
    requires io.Valid()
    modifies io, io.dev.data, io.buf
    ensures io.Valid() && (io.View(), out) == DiskStep(old(io.View()), op)
    ensures op.Flushing? ==> io.dev.data[..] == io.file
  {
    hide Splice, DiskRead, DiskWrite, DiskOk;
    match op
    case Seeking(from) =>
      var at := io.Seek(from);
      return Moved(at);
    case Reading(n) =>
      var a := new byte[n](_ => 0);
      var r := io.Read(a);
      return Got(if r.Some? then Some(a[..]) else None);
    case Writing(d) =>
      var r := io.Write(d);
      return Put(r);
    case Flushing =>
      var ok := io.Flush();
      return Flushed(ok);
  }

  /** Over every history of seeks, reads, writes and flushes the cache behaves as specified, outcome by outcome, and
      after a final flush the device holds the file. */
  method Drive(io: BlockIo, ops: seq<Op>) returns (outs: seq<Outcome>)
    requires io.Valid()
    modifies io, io.dev.data, io.buf
    ensures io.Valid() && (io.View(), outs) == DiskRun(old(io.View()), ops)
    ensures |ops| > 0 && ops[|ops| - 1] == Flushing ==> io.dev.data[..] == io.file
  {
    hide DiskStep, DiskOk;
    ghost var first := io.View();
    outs := [];
    var i := 0;
    assert ops[0..] == ops && [] + DiskRun(first, ops).1 == DiskRun(first, ops).1;
    while i < |ops|
      invariant 0 <= i <= |ops| && io.Valid()
      invariant DiskRun(first, ops) == (var r := DiskRun(io.View(), ops[i..]); (r.0, outs + r.1))
      invariant i > 0 && ops[i - 1] == Flushing ==> io.dev.data[..] == io.file
    {
      assert ops[i..][1..] == ops[i + 1..];
      var out := Apply(io, ops[i]);
      ghost var r := DiskRun(io.View(), ops[i + 1..]);
      assert outs + ([out] + r.1) == (outs + [out]) + r.1;
      outs := outs + [out];
      i := i + 1;
    }
    assert outs + [] == outs;
  }

  // ---- when an accepted write is in the file --------------------------------------------------------------

  /** A write is accepted when it lies on the device, and also when its last sector, whole, is the first one past the
      device or all there is. It is then in the file, and flushes, exactly when it lies on the device. */
  lemma AcceptedWrite(d: Disk, src: seq<byte>)
    requires DiskOk(d) && d.stray.None? && src != []
    ensures var a, n, size := Address(d.pos), |src|, |d.file|;
            var (d', r) := DiskWrite(d, src);
            && (r.Some? <==> || a + n <= size
                             || ((a + n) % BLOCK_SIZE == 0 && n >= BLOCK_SIZE
                                 && (n == BLOCK_SIZE || a + n == size + BLOCK_SIZE)))
            && (a + n <= size ==> d' == Disk(Splice(d.file, a, src), d.pos + n, None))
            && (r.Some? ==> (a + n <= size <==> DiskStep(d', Flushing).1 == Flushed(true)))
  {
    hide Address, Splice;
    var a, n, size := Address(d.pos), |src|, |d.file|;
    LandingBound(a, n, size);
    assert src[..n] == src;
    if a + n > size { LastSector(a, n, size); }
  }

  lemma LastSector(a: nat, n: nat, size: nat)
    requires size % BLOCK_SIZE == 0 && a + n > size && n > 0
    ensures var k := Landing(a, n, size);
            ((a + k) % BLOCK_SIZE == 0 && n - k == BLOCK_SIZE) <==>
            ((a + n) % BLOCK_SIZE == 0 && n >= BLOCK_SIZE && (n == BLOCK_SIZE || a + n == size + BLOCK_SIZE))
  {
  }

  /** What an operation asks for lies in the stray block. */
  predicate Within(d: Disk, op: Op, block: nat) {
    var a := Address(d.pos);
    match op
    case Reading(n) => n == 0 || (a / BLOCK_SIZE == block && a % BLOCK_SIZE + n <= BLOCK_SIZE)
    case Writing(src) =>
      || src == []
      || (a / BLOCK_SIZE == block && a % BLOCK_SIZE + |src| <= BLOCK_SIZE && |src| < BLOCK_SIZE)
    case Flushing => false
    case Seeking(_) => true
  }

  predicate Succeeds(out: Outcome) {
    match out
    case Got(bytes) => bytes.Some?
    case Put(count) => count.Some?
    case Flushed(ok) => ok
    case Moved(_) => true
  }

  lemma StrayStep(d: Disk, op: Op)
    requires DiskOk(d) && d.stray.Some?
    ensures var (d', out) := DiskStep(d, op);
            && d'.file == d.file && d'.stray.Some? && d'.stray.value.block == d.stray.value.block
            && (Succeeds(out) <==> Within(d, op, d.stray.value.block))
  {
    hide Address, Splice;
  }

  /** Once a block is stray it stays so: after any history no flush succeeds, nothing reaches the file, and a read or
      write succeeds exactly within that block. */
  lemma {:induction false} StrayForever(d: Disk, ops: seq<Op>, op: Op)
    requires DiskOk(d) && d.stray.Some?
    ensures var e := DiskRun(d, ops).0;
            var (e', out) := DiskStep(e, op);
            && e.stray.Some? && e.stray.value.block == d.stray.value.block && e'.file == e.file == d.file
            && (Succeeds(out) <==> Within(e, op, d.stray.value.block))
    decreases |ops|
  {
    hide DiskStep, DiskOk, Within, Succeeds;
    if ops == [] {
      StrayStep(d, op);
    } else {
      StrayStep(d, ops[0]);
      StrayForever(DiskStep(d, ops[0]).0, ops[1..], op);
    }
  }

  // ---- histories within the device ---------------------------------------------------------------------

  /** A flat byte file with a cursor. */
  datatype Flat = Flat(file: seq<byte>, pos: nat)

  /** What an operation asks for lies on the file. */
  predicate InRange(f: Flat, op: Op) {
    match op
    case Reading(n) => n == 0 || f.pos + n <= |f.file|
    case Writing(d) => d == [] || f.pos + |d| <= |f.file|
    case _ => true
  }

  /** The operation on the flat file, and what it gives back. */
  function FlatStep(f: Flat, op: Op): (Flat, Outcome)
    requires InRange(f, op)
  {
    match op
    case Seeking(Start(n)) =>
      if n < 0x8000_0000_0000_0000 then (f.(pos := n), Moved(Some(n))) else (f, Moved(None))
    case Seeking(Current(d)) =>
      if f.pos as int + d >= 0 then (f.(pos := f.pos + d), Moved(Some(f.pos + d))) else (f, Moved(None))
    case Seeking(End(_)) => (f, Moved(None))
    case Reading(n) => (f.(pos := f.pos + n), Got(Some(if n == 0 then [] else f.file[f.pos..f.pos + n])))
    case Writing(d) => (if d == [] then f else Flat(Splice(f.file, f.pos, d), f.pos + |d|), Put(Some(|d|)))
    case Flushing => (f, Flushed(true))
  }

  predicate AllInRange(f: Flat, ops: seq<Op>)
    decreases |ops|
  {
    ops == [] || (InRange(f, ops[0]) && AllInRange(FlatStep(f, ops[0]).0, ops[1..]))
  }

  function FlatRun(f: Flat, ops: seq<Op>): (Flat, seq<Outcome>)
    requires AllInRange(f, ops)
    decreases |ops|
  {
    if ops == [] then (f, [])
    else
      var (f1, out) := FlatStep(f, ops[0]);
      var (f2, outs) := FlatRun(f1, ops[1..]);
      (f2, [out] + outs)
  }

  lemma FlatAgrees(d: Disk, op: Op)
    requires DiskOk(d) && d.stray.None? && InRange(Flat(d.file, d.pos), op)
    ensures var (f, out) := FlatStep(Flat(d.file, d.pos), op);
            DiskStep(d, op) == (Disk(f.file, f.pos, None), out)
  {
    hide Splice;
    if d.pos < |d.file| {
      Advance(0, d.pos);
      if op.Writing? { assert op.d[..|op.d|] == op.d; }
    }
  }

  /** Over every history that stays on the device the cache is the flat byte file: every operation succeeds, reads
      give the bytes last written, and no block goes astray. */
  lemma {:induction false} FlatHistories(d: Disk, ops: seq<Op>)
    requires DiskOk(d) && d.stray.None? && AllInRange(Flat(d.file, d.pos), ops)
    ensures var (f, outs) := FlatRun(Flat(d.file, d.pos), ops);
            DiskRun(d, ops) == (Disk(f.file, f.pos, None), outs)
    decreases |ops|
  {
    hide DiskStep, FlatStep, InRange, DiskOk;
    if ops != [] {
      FlatAgrees(d, ops[0]);
      FlatHistories(DiskStep(d, ops[0]).0, ops[1..]);
    }
  }

  lemma PastOneBlock(file: seq<byte>, sector: seq<byte>)
    requires |file| == BLOCK_SIZE == |sector|
    ensures DiskWrite(Disk(file, BLOCK_SIZE, None), sector)
            == (Disk(file, 2 * BLOCK_SIZE, Some(Stray(1, sector))), Some(BLOCK_SIZE))
    ensures DiskRead(Disk(file, 0, Some(Stray(1, sector))), 1).1 == None
  {
    Advance(0, BLOCK_SIZE);
    Advance(0, 0);
    assert sector[0..BLOCK_SIZE] == sector;
    hide Address;
  }

  /** Why the range matters: a whole sector written past the end of a one-block device is accepted; it is never
      written back, and the device's own block can no longer be read. */
  method BeyondTheEnd(sector: seq<byte>) returns (accepted: Option<nat>, flushed: bool, first: Option<nat>)
    requires |sector| == BLOCK_SIZE
    ensures accepted == Some(BLOCK_SIZE) && !flushed && first == None
  {
    hide DiskWrite, DiskRead, DiskOk;
    var dev := new Ramdisk(1);
    var io := new BlockIo(dev);
    PastOneBlock(io.file, sector);
    var at := io.Seek(Start(BLOCK_SIZE));
    accepted := io.Write(sector);
    flushed := io.Flush();
    at := io.Seek(Start(0));
    var out := new byte[1];
    first := io.Read(out);
  }
}
