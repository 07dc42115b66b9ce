/** The WasmFS directory block: eight 64-byte entries. */
module Directory {
  import opened Words
  import opened Bytes
  import opened Block

  const DIR_ENTRY_SIZE: nat := 64
  const DIR_ENTRIES: nat := 8
  const NAME_SIZE: nat := 32

  type Name = s: seq<byte> | |s| == NAME_SIZE witness seq(NAME_SIZE, _ => 0)

  datatype DirEntry = DirEntry(name: Name, startBlock: u32, size: u32, flags: byte)

  const BLANK: DirEntry := DirEntry(seq(NAME_SIZE, _ => 0), 0, 0, 0)

  predicate IsValid(e: DirEntry) {
    e.flags % 2 == 1
  }

  /** `DirEntry::to_bytes`. */
  function ToBytes(e: DirEntry): (bs: seq<byte>)
    ensures |bs| == DIR_ENTRY_SIZE
  {
    e.name + Le32(e.startBlock) + Le32(e.size) + [e.flags] + seq(23, _ => 0)
  }

  /** `DirEntry::from_bytes`. */
  function FromBytes(b: seq<byte>): DirEntry
    requires |b| == DIR_ENTRY_SIZE
  {
    DirEntry(b[..32], FromLe32(b[32..]), FromLe32(b[36..]), b[40])
  }

  lemma EntryRoundTrip(e: DirEntry)
    ensures FromBytes(ToBytes(e)) == e
  {
    var b := ToBytes(e);
    Le32RoundTrip(e.startBlock, b[36..]);
    Le32RoundTrip(e.size, b[40..]);
    assert b[..32] == e.name && b[32..] == Le32(e.startBlock) + b[36..] && b[36..] == Le32(e.size) + b[40..];
  }

  function LeWord(b: seq<byte>, i: nat): nat
    requires i + 4 <= |b|
  {
    var b0: int, b1: int, b2: int, b3: int := b[i], b[i + 1], b[i + 2], b[i + 3];
    b0 + 0x100 * b1 + 0x1_0000 * b2 + 0x100_0000 * b3
  }

  lemma WordAt(b: seq<byte>, i: nat, v: u32)
    requires At(b, i, Le32(v))
    ensures LeWord(b, i) == v
  {
    var w := b[i..i + 4];
    assert w[0] == b[i] && w[1] == b[i + 1] && w[2] == b[i + 2] && w[3] == b[i + 3];
  }

  /** The 64 bytes: the name, two little-endian words, the flags, zeros. */
  lemma EntryLayout(e: DirEntry)
    ensures var b := ToBytes(e);
            && |b| == 64 && b[..32] == e.name && LeWord(b, 32) == e.startBlock && LeWord(b, 36) == e.size
            && b[40] == e.flags && forall k :: 41 <= k < 64 ==> b[k] == 0
  {
    hide Le32, LeWord;
    var b := ToBytes(e);
    assert b[32..36] == Le32(e.startBlock) && b[36..40] == Le32(e.size);
    WordAt(b, 32, e.startBlock);
    WordAt(b, 36, e.size);
  }

  function ReadEntry(dir: seq<byte>, i: nat): DirEntry
    requires |dir| == BLOCK_SIZE && i < DIR_ENTRIES
  {
    FromBytes(dir[DIR_ENTRY_SIZE * i..DIR_ENTRY_SIZE * i + DIR_ENTRY_SIZE])
  }

  function WriteEntry(dir: seq<byte>, i: nat, e: DirEntry): (r: seq<byte>)
    requires |dir| == BLOCK_SIZE && i < DIR_ENTRIES
    ensures |r| == BLOCK_SIZE
  {
    Splice(dir, DIR_ENTRY_SIZE * i, ToBytes(e))
  }

  /** Unlinking leaves 64 zero bytes in the directory block, and the rest as it was. */
  lemma BlankLayout(dir: seq<byte>, i: nat, k: nat)
    requires |dir| == BLOCK_SIZE && i < DIR_ENTRIES && k < BLOCK_SIZE
    ensures WriteEntry(dir, i, BLANK)[k] == if 64 * i <= k < 64 * i + 64 then 0 else dir[k]
  {
    var b := ToBytes(BLANK);
    EntryLayout(BLANK);
    if 64 * i <= k < 64 * i + 64 {
      var j: int := k - 64 * i;
      assert b[j] == 0 by {
        if j < 32 { assert b[..32][j] == b[j]; }
      }
    }
  }

  /** An entry written is the entry read; the others are untouched. */
  lemma WriteReadEntry(dir: seq<byte>, i: nat, e: DirEntry, j: nat)
    requires |dir| == BLOCK_SIZE && i < DIR_ENTRIES && j < DIR_ENTRIES
    ensures ReadEntry(WriteEntry(dir, i, e), j) == (if j == i then e else ReadEntry(dir, j))
  {
    var a, b := DIR_ENTRY_SIZE * i, DIR_ENTRY_SIZE * j;
    var dir' := WriteEntry(dir, i, e);
    if i == j {
      assert dir'[a..a + DIR_ENTRY_SIZE] == ToBytes(e);
      EntryRoundTrip(e);
    } else {
      assert b + DIR_ENTRY_SIZE <= a || a + DIR_ENTRY_SIZE <= b;
      assert dir'[b..b + DIR_ENTRY_SIZE] == dir[b..b + DIR_ENTRY_SIZE];
    }
  }

  // ---- names -------------------------------------------------------------------------------------------

  /** Bytes before the first NUL (`name_str`, without its UTF-8 check). */
  function TrimName(s: seq<byte>): seq<byte> {
    if s == [] || s[0] == 0 then [] else [s[0]] + TrimName(s[1..])
  }

  /** The stored form: cut to 32 bytes and padded with NULs. */
  function PadName(n: seq<byte>): Name {
    if |n| <= NAME_SIZE then n + seq(NAME_SIZE - |n|, _ => 0) else n[..NAME_SIZE]
  }

  predicate NulFree(n: seq<byte>) {
    forall i :: 0 <= i < |n| ==> n[i] != 0
  }

  predicate Storable(n: seq<byte>) {
    |n| <= NAME_SIZE && NulFree(n)
  }

  lemma {:induction false} TrimProperties(s: seq<byte>)
    ensures |TrimName(s)| <= |s| && NulFree(TrimName(s))
    decreases |s|
  {
    if s != [] && s[0] != 0 { TrimProperties(s[1..]); }
  }

  lemma {:induction false} TrimPadded(n: seq<byte>, zeros: seq<byte>)
    requires NulFree(n) && (zeros == [] || zeros[0] == 0)
    ensures TrimName(n + zeros) == n
    decreases |n|
  {
    if n == [] {
      assert n + zeros == zeros;
    } else {
      assert (n + zeros)[1..] == n[1..] + zeros;
      TrimPadded(n[1..], zeros);
    }
  }

  /** A name comes back from its directory entry exactly when it is NUL-free and at most 32 bytes long. */
  lemma NameRoundTrip(n: seq<byte>)
    ensures TrimName(PadName(n)) == n <==> Storable(n)
  {
    if Storable(n) {
      TrimPadded(n, seq(NAME_SIZE - |n|, _ => 0));
    } else {
      TrimProperties(PadName(n));
    }
  }

  method TrimNameLoop(s: seq<byte>) returns (n: seq<byte>)
    ensures n == TrimName(s)
  {
    var i := 0;
    while i < |s| && s[i] != 0
      invariant 0 <= i <= |s| && TrimName(s) == s[..i] + TrimName(s[i..])
    {
      assert s[i..][1..] == s[i + 1..];
      assert s[..i] + ([s[i]] + TrimName(s[i + 1..])) == s[..i + 1] + TrimName(s[i + 1..]);
      i := i + 1;
    }
    assert s[..i] + [] == s[..i];
    return s[..i];
  }
}
