/** `BlockDevice` and its in-memory implementation: 512-byte sectors over one byte array. */
module Block {
  import opened Words

  const BLOCK_SIZE: nat := 512

  /** `s` with `d` written at `pos`. */
  function Splice(s: seq<byte>, pos: nat, d: seq<byte>): (r: seq<byte>)
    requires pos + |d| <= |s|
    ensures |r| == |s|
  {
    s[..pos] + d + s[pos + |d|..]
  }

  class Ramdisk {
    const data: array<byte>
    const blocks: nat

    ghost predicate Valid()
      reads this
    {
      data.Length == BLOCK_SIZE * blocks && blocks < TWO32
    }

    constructor (blocks: nat)
      requires blocks < TWO32
      ensures Valid() && this.blocks == blocks && fresh(data)
      ensures data[..] == seq(BLOCK_SIZE * blocks, _ => 0)
    {
      this.blocks := blocks;
      data := new byte[BLOCK_SIZE * blocks](_ => 0);
    }

    /** Fails exactly out of range, leaving `buf` as it was. */
    method ReadBlock(lba: nat, buf: array<byte>) returns (ok: bool)
      requires Valid() && buf.Length == BLOCK_SIZE && buf != data
      modifies buf
      ensures ok <==> lba < blocks
      ensures ok ==> buf[..] == data[BLOCK_SIZE * lba..BLOCK_SIZE * lba + BLOCK_SIZE]
      ensures !ok ==> buf[..] == old(buf[..])
    {
      if lba >= blocks { return false; }
      forall k | 0 <= k < BLOCK_SIZE {
        buf[k] := data[BLOCK_SIZE * lba + k];
      }
      return true;
    }

    method WriteBlock(lba: nat, buf: array<byte>) returns (ok: bool)
      requires Valid() && buf.Length == BLOCK_SIZE && buf != data
      modifies data
      ensures ok <==> lba < blocks
      ensures ok ==> data[..] == Splice(old(data[..]), BLOCK_SIZE * lba, buf[..])
      ensures !ok ==> data[..] == old(data[..])
    {
      if lba >= blocks { return false; }
      forall k | 0 <= k < BLOCK_SIZE {
        data[BLOCK_SIZE * lba + k] := buf[k];
      }
      return true;
    }
  }
}
