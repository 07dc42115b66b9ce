/** Pieces of byte sequences, and little-endian words. */
module Bytes {
  import opened Words

  /** `piece` stands in `b` at position `i`. */
  predicate At(b: seq<byte>, i: nat, piece: seq<byte>) {
    i + |piece| <= |b| && b[i..i + |piece|] == piece
  }

  lemma AtSplit(b: seq<byte>, i: nat, x: seq<byte>, y: seq<byte>)
    ensures At(b, i, x + y) <==> At(b, i, x) && At(b, i + |x|, y)
  {
    if i + |x + y| <= |b| {
      var w := b[i..i + |x + y|];
      assert w[..|x|] == b[i..i + |x|] && w[|x|..] == b[i + |x|..i + |x| + |y|];
      assert w == w[..|x|] + w[|x|..];
      assert (x + y)[..|x|] == x && (x + y)[|x|..] == y;
    }
  }

  lemma AtOne(b: seq<byte>, i: nat, x: byte)
    ensures At(b, i, [x]) <==> i < |b| && b[i] == x
  {
    if i < |b| { assert b[i..i + 1] == [b[i]]; }
  }

  lemma AtTwo(b: seq<byte>, i: nat, x: byte, y: byte)
    requires At(b, i, [x, y])
    ensures i + 1 < |b| && b[i] == x && b[i + 1] == y
  {
    assert b[i..i + 2][0] == b[i] && b[i..i + 2][1] == b[i + 1];
  }

  function Le32(v: u32): (bs: seq<byte>)
    ensures |bs| == 4
  {
    [v % 256, (v / 0x100) % 256, (v / 0x1_0000) % 256, v / 0x100_0000]
  }

  function FromLe32(bs: seq<byte>): u32
    requires |bs| >= 4
  {
    var b0: int, b1: int, b2: int, b3: int := bs[0], bs[1], bs[2], bs[3];
    b0 + 0x100 * b1 + 0x1_0000 * b2 + 0x100_0000 * b3
  }

  lemma Le32RoundTrip(v: u32, rest: seq<byte>)
    ensures FromLe32(Le32(v) + rest) == v
  {
    var a, b, c := v / 0x100, v / 0x1_0000, v / 0x100_0000;
    assert b == a / 0x100 && c == b / 0x100;
  }
}
