/** Which segment indices of `memory.init` and `data.drop` the block scan passes over. */
module BulkScan {
  import opened Words
  import opened Bytes
  import opened Leb128
  import opened Opcode
  import opened Scanner

  /** In every body that holds `bytes` at `i`, scanning them at `depth` arrives after them with the `else` untouched. */
  ghost predicate PassesOver(bytes: seq<byte>, i: nat, depth: nat)
    requires depth > 0
  {
    forall body: seq<byte>, els: Option<nat> ::
      At(body, i, bytes) ==> ScanFrom(body, i, depth, els) == ScanFrom(body, i + |bytes|, depth, els)
  }

  /** Nothing but ends from `q` on. */
  ghost predicate EndsFrom(body: seq<byte>, q: nat) {
    forall k :: q <= k < |body| ==> body[k] == END
  }

  lemma {:induction false} ScanEnds(body: seq<byte>, q: nat, depth: nat, els: Option<nat>)
    requires depth > 0 && EndsFrom(body, q)
    ensures ScanFrom(body, q, depth, els) == if q + depth <= |body| then Some((q + depth - 1, els)) else None
    decreases depth
  {
    if q < |body| && depth > 1 { ScanEnds(body, q + 1, depth - 1, els); }
  }

  /** A body in which the misread shows: the instruction, and as many ends as the depth. */
  function Probe(i: nat, bytes: seq<byte>, depth: nat): seq<byte> {
    seq(i, _ => 0) + bytes + seq(depth, _ => END)
  }

  lemma ProbeShape(i: nat, bytes: seq<byte>, depth: nat)
    ensures var body := Probe(i, bytes, depth);
            At(body, i, bytes) && EndsFrom(body, i + |bytes|) && |body| == i + |bytes| + depth
  {
  }

  /** An opcode that takes more than the zero byte after it swallows an end. */
  lemma SkipsTooFar(body: seq<byte>, i: nat, zeros: seq<byte>)
    requires At(body, i + 1, zeros) && (zeros == [] || zeros == [0]) && i + 1 + |zeros| < |body|
    requires EndsFrom(body, i + 1 + |zeros|)
    requires var op := body[i];
             !Opens(op) && op != ELSE && op != END && op < 128 && !Harmless(op, zeros == [0], 1)
    ensures var j := SkipImmediates(body, body[i], i + 1); j.None? || j.value > i + 1 + |zeros|
  {
    var op, q := body[i], i + 1 + |zeros|;
    var first: byte := if zeros == [] then END else 0;
    assert body[q] == END;
    assert body[i + 1] == first by { if zeros == [0] { AtOne(body, i + 1, 0); } }
    assert SkipLeb(body, i + 1) == Some(1);
    assert ReadU32(body[i + 1..]) == Some((first, 1));
    hide ReadU32, SkipLeb, At;
    if TwoLebs(op) { assert SkipMany(body, i + 1, 2) == SkipMany(body, i + 2, 1); }
  }

  /** Whatever is not harmless shows in the probe. */
  lemma LastMisread(body: seq<byte>, i: nat, last: byte, zeros: seq<byte>, depth: nat)
    requires depth > 0 && At(body, i, [last]) && At(body, i + 1, zeros) && (zeros == [] || zeros == [0]) && last < 128
    requires EndsFrom(body, i + 1 + |zeros|) && |body| == i + 1 + |zeros| + depth
    requires !Harmless(last, zeros == [0], depth)
    ensures ScanFrom(body, i, depth, None) != ScanFrom(body, i + 1 + |zeros|, depth, None)
  {
    hide ScanFrom, At, SkipImmediates;
    var q := i + 1 + |zeros|;
    AtOne(body, i, last);
    ScanEnds(body, q, depth, None);
    if Opens(last) {
      StepOpen(body, i, depth, None);
      ScanEnds(body, i + 2, depth + 1, None);
    } else if last == ELSE {
      StepElse(body, i, depth, None);
      ScanZeros(body, i + 1, zeros, 1, Some(i));
      ScanEnds(body, q, 1, Some(i));
    } else if last == END {
      StepEnd(body, i, depth, None);
      if depth > 1 {
        ScanZeros(body, i + 1, zeros, depth - 1, None);
        ScanEnds(body, q, depth - 1, None);
      }
    } else {
      SkipsTooFar(body, i, zeros);
      StepOther(body, i, depth, None);
      var j := SkipImmediates(body, last, i + 1);
      if j.Some? { ScanEnds(body, j.value, depth, None); }
    }
  }

  lemma StepOther(body: seq<byte>, i: nat, depth: nat, els: Option<nat>)
    requires depth > 0 && i < |body| && !Opens(body[i]) && body[i] != ELSE && body[i] != END
    ensures var j := SkipImmediates(body, body[i], i + 1);
            ScanFrom(body, i, depth, els) == if j.None? then None else ScanFrom(body, j.value, depth, els)
  {
    hide SkipImmediates;
  }

  lemma SegmentPassed(sub: seq<byte>, idx: seq<byte>, zeros: seq<byte>, i: nat, depth: nat)
    requires depth > 0 && IsLeb(sub) && IsLeb(idx) && (zeros == [] || zeros == [0])
    requires Passable(idx, zeros == [0], depth)
    ensures PassesOver(Segment(sub, idx, zeros), i, depth)
  {
    hide ScanFrom, At, IsLeb, Passable, Segment;
    forall body: seq<byte>, els: Option<nat> | At(body, i, Segment(sub, idx, zeros))
      ensures ScanFrom(body, i, depth, els) == ScanFrom(body, i + |Segment(sub, idx, zeros)|, depth, els)
    {
      ScanSegment(body, i, sub, idx, zeros, depth, els);
    }
  }

  lemma SegmentMisread(sub: seq<byte>, idx: seq<byte>, zeros: seq<byte>, i: nat, depth: nat)
    requires depth > 0 && IsLeb(sub) && IsLeb(idx) && (zeros == [] || zeros == [0])
    requires !Passable(idx, zeros == [0], depth)
    ensures !PassesOver(Segment(sub, idx, zeros), i, depth)
  {
    hide *;
    var bytes := Segment(sub, idx, zeros);
    var body := Probe(i, bytes, depth);
    ProbeShape(i, bytes, depth);
    NotPassable(idx, zeros == [0], depth);
    SegmentParts(body, i, sub, idx, zeros);
    ToIndex(body, i, sub, depth, None);
    ScanIndex(body, i + 1 + |sub|, idx, depth, None);
    LastMisread(body, i + |sub| + |idx|, idx[|idx| - 1], zeros, depth);
    Shown(bytes, i, depth, body);
  }

  lemma NotPassable(idx: seq<byte>, zero: bool, depth: nat)
    requires IsLeb(idx) && !Passable(idx, zero, depth)
    ensures idx != [] && !HidesRest(idx) && !Harmless(idx[|idx| - 1], zero, depth) && idx[|idx| - 1] < 128
  {
    hide HidesRest, Harmless;
  }

  lemma Shown(bytes: seq<byte>, i: nat, depth: nat, body: seq<byte>)
    requires depth > 0 && At(body, i, bytes)
    requires ScanFrom(body, i, depth, None) != ScanFrom(body, i + |bytes|, depth, None)
    ensures !PassesOver(bytes, i, depth)
  {
    hide ScanFrom, At;
  }

  /** `memory.init` (with its zero byte) and `data.drop` (without): the scan passes over the instruction in every body
      exactly when a byte of the index before the last is 0xFC, or the last byte is harmless as an opcode. */
  lemma SegmentPassedIff(sub: seq<byte>, idx: seq<byte>, zeros: seq<byte>, i: nat, depth: nat)
    requires depth > 0 && IsLeb(sub) && IsLeb(idx) && (zeros == [] || zeros == [0])
    ensures PassesOver(Segment(sub, idx, zeros), i, depth) <==> Passable(idx, zeros == [0], depth)
  {
    assert idx != [];
    hide *;
    if Passable(idx, zeros == [0], depth) {
      SegmentPassed(sub, idx, zeros, i, depth);
    } else {
      SegmentMisread(sub, idx, zeros, i, depth);
    }
  }

  /** The same for indices of one byte. */
  lemma ByteIndexPassed(sub: seq<byte>, x: byte, i: nat, depth: nat)
    requires depth > 0 && IsLeb(sub) && x < 128
    ensures PassesOver(Segment(sub, [x], [0]), i, depth) <==>
            NoImmediate(x) || (x == 0x05 && depth > 1) || TakesZero(x)
    ensures PassesOver(Segment(sub, [x], []), i, depth) <==> NoImmediate(x) || (x == 0x05 && depth > 1)
  {
    hide PassesOver, NoImmediate;
    SegmentPassedIff(sub, [x], [0], i, depth);
    SegmentPassedIff(sub, [x], [], i, depth);
  }
}
