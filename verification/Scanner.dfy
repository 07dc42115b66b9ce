/** `scan_block_end`: the forward scan from the start of a block body to its own `end` and `else`.

    Structured code is a tree, encoded to bytes as section 5.4 of the WebAssembly Core Specification lays
    it out, with immediates of any length. The scan does not skip the segment index of `memory.init` and
    `data.drop`, so these two are in the trees only with an index it walks over (`Passable`). */
module Scanner {
  import opened Words
  import opened Bytes
  import opened Leb128
  import opened Opcode

  // ---- the scan -------------------------------------------------------------------------------

  /** Opcodes with one LEB128 immediate. */
  predicate OneLeb(op: byte) {
    op == BR || op == BR_IF || op == CALL || 0x20 <= op <= 0x24 || op == I32_CONST || op == I64_CONST
  }

  /** `call_indirect`, and the loads and stores with alignment and offset. */
  predicate TwoLebs(op: byte) {
    op == CALL_INDIRECT || 0x28 <= op <= 0x3E
  }

  /** Position after `k` LEB128 values starting at `i`. */
  function SkipMany(body: seq<byte>, i: nat, k: nat): (r: Option<nat>)
    ensures r.Some? ==> i <= r.value && (k > 0 ==> i < r.value <= |body|)
    decreases k
  {
    if k == 0 then Some(i)
    else
      match SkipLeb(body, i)
      case None => None
      case Some(n) => SkipMany(body, i + n, k - 1)
  }

  /** Position after the immediates of a non-structural opcode; `i` is the position after the opcode. */
  function SkipImmediates(body: seq<byte>, op: byte, i: nat): (r: Option<nat>)
    requires i <= |body|
    ensures r.Some? ==> i <= r.value
  {
    if OneLeb(op) || op == 0xFC then SkipMany(body, i, 1)
    else if TwoLebs(op) then SkipMany(body, i, 2)
    else if op == BR_TABLE then
      match ReadU32(body[i..])
      case None => None
      case Some((count, n)) => SkipMany(body, i + n, count + 1)
    else if op == 0x3F || op == 0x40 then Some(i + 1)
    else if op == 0x43 then Some(i + 4)
    else if op == 0x44 then Some(i + 8)
    else Some(i)
  }

  predicate Opens(op: byte) {
    op == BLOCK || op == LOOP || op == IF
  }

  /** The loop of `scan_block_end` from position `i`: where the enclosing `end` is, and the `else` that
      belongs to it (`None` is the source's NO_ELSE). */
  function ScanFrom(body: seq<byte>, i: nat, depth: nat, elsePc: Option<nat>): Option<(nat, Option<nat>)>
    requires depth > 0
    decreases |body| - i
  {
    if i >= |body| then None
    else if Opens(body[i]) then ScanFrom(body, i + 2, depth + 1, elsePc)
    else if body[i] == ELSE then ScanFrom(body, i + 1, depth, if depth == 1 then Some(i) else elsePc)
    else if body[i] == END then
      if depth == 1 then Some((i, elsePc)) else ScanFrom(body, i + 1, depth - 1, elsePc)
    else
      match SkipImmediates(body, body[i], i + 1)
      case None => None
      case Some(j) => ScanFrom(body, j, depth, elsePc)
  }

  function ScanBlockEnd(body: seq<byte>, start: nat): Option<(nat, Option<nat>)> {
    ScanFrom(body, start, 1, None)
  }

  method SkipManyLoop(body: seq<byte>, i: nat, k: nat) returns (r: Option<nat>)
    ensures r == SkipMany(body, i, k)
  {
    var pos, left := i, k;
    while left > 0
      invariant SkipMany(body, i, k) == SkipMany(body, pos, left)
    {
      var n := SkipMethod(body, pos);
      if n.None? { return None; }
      pos, left := pos + n.value, left - 1;
    }
    return Some(pos);
  }

  method SkipImmediatesMethod(body: seq<byte>, op: byte, i: nat) returns (r: Option<nat>)
    requires i <= |body|
    ensures r == SkipImmediates(body, op, i)
  {
    if OneLeb(op) || op == 0xFC {
      r := SkipManyLoop(body, i, 1);
    } else if TwoLebs(op) {
      r := SkipManyLoop(body, i, 2);
    } else if op == BR_TABLE {
      var c := DecodeU32(body[i..]);
      if c.None? { return None; }
      var count: int := c.value.0;
      r := SkipManyLoop(body, i + c.value.1, count + 1);
    } else if op == 0x3F || op == 0x40 {
      r := Some(i + 1);
    } else if op == 0x43 {
      r := Some(i + 4);
    } else if op == 0x44 {
      r := Some(i + 8);
    } else {
      r := Some(i);
    }
  }

  /** `scan_block_end`. */
  method ScanBlockEndLoop(body: seq<byte>, start: nat) returns (r: Option<(nat, Option<nat>)>)
    ensures r == ScanBlockEnd(body, start)
  {
    var depth, i := 1, start;
    var elsePc: Option<nat> := None;
    while i < |body|
      invariant depth > 0
      invariant ScanBlockEnd(body, start) == ScanFrom(body, i, depth, elsePc)
      decreases |body| - i
    {
      var op := body[i];
      i := i + 1;
      if Opens(op) {
        i, depth := i + 1, depth + 1;
      } else if op == ELSE {
        if depth == 1 { elsePc := Some(i - 1); }
      } else if op == END {
        depth := depth - 1;
        if depth == 0 { return Some((i - 1, elsePc)); }
      } else {
        var j := SkipImmediatesMethod(body, op, i);
        if j.None? { return None; }
        i := j.value;
      }
    }
    return None;
  }

  // ---- structured code ----------------------------------------------------------------------------

  /** Branch labels are kept as their LEB128 bytes; `labels` of a branch table ends with the default. */
  datatype Instr =
    | Plain(op: byte, imm: seq<byte>)
    | Unreachable
    | Block(blockType: byte, body: Code)
    | Loop(blockType: byte, body: Code)
    | If(blockType: byte, thn: Code, els: Option<Code>)
    | Br(target: seq<byte>)
    | BrIf(target: seq<byte>)
    | BrTable(count: seq<byte>, labels: seq<seq<byte>>)
    | Return

  datatype Code = Nil | Cons(head: Instr, tail: Code)

  function Flatten(lebs: seq<seq<byte>>): seq<byte> {
    if lebs == [] then [] else lebs[0] + Flatten(lebs[1..])
  }

  function EncodeInstr(i: Instr): (bs: seq<byte>)
    ensures |bs| > 0
    decreases i, 1
  {
    match i
    case Plain(op, imm) => [op] + imm
    case Unreachable => [0x00]
    case Block(bt, body) => [0x02, bt] + EncodeCode(body) + [0x0B]
    case Loop(bt, body) => [0x03, bt] + EncodeCode(body) + [0x0B]
    case If(bt, thn, els) =>
      [0x04, bt] + EncodeCode(thn) + (if els.Some? then [0x05] + EncodeCode(els.value) else []) + [0x0B]
    case Br(target) => [0x0C] + target
    case BrIf(target) => [0x0D] + target
    case BrTable(count, labels) => [0x0E] + count + Flatten(labels)
    case Return => [0x0F]
  }

  function EncodeCode(c: Code): seq<byte>
    decreases c, 0
  {
    match c
    case Nil => []
    case Cons(head, tail) => EncodeInstr(head) + EncodeCode(tail)
  }

  /** The opcodes of the other constructors, and `else` and `end`. */
  predicate Structural(op: byte) {
    op == 0x00 || 0x02 <= op <= 0x05 || 0x0B <= op <= 0x0F
  }

  /** The LEB128 immediates of a plain instruction: one for calls, locals, globals and integer constants, two for
      `call_indirect`, loads and stores. */
  function LebCount(op: byte): nat {
    if op == 0x10 || 0x20 <= op <= 0x24 || op == 0x41 || op == 0x42 then 1
    else if op == 0x11 || 0x28 <= op <= 0x3E then 2
    else 0
  }

  /** Its other immediates: the reserved byte of `memory.size` and `memory.grow`, the bytes of a float constant. */
  function FixedBytes(op: byte): nat {
    if op == 0x3F || op == 0x40 then 1 else if op == 0x43 then 4 else if op == 0x44 then 8 else 0
  }

  /** The value of an unsigned immediate. */
  function LabelOf(leb: seq<byte>): nat {
    match ReadU32(leb)
    case None => 0
    case Some((v, _)) => v
  }

  /** The reserved bytes that follow the sub-opcode of an 0xFC instruction. */
  function Reserved(sub: int): Option<seq<byte>> {
    if sub <= 7 then Some([]) else if sub == 10 then Some([0, 0]) else if sub == 11 then Some([0]) else None
  }

  ghost predicate ShortLeb(bs: seq<byte>) {
    IsLeb(bs) && |bs| <= 5
  }

  ghost predicate TwoLebImmediate(imm: seq<byte>) {
    exists k :: 0 < k < |imm| && IsLeb(imm[..k]) && IsLeb(imm[k..])
  }

  /** Opcodes the scan passes over one by one. */
  predicate NoImmediate(op: byte) {
    || op <= 0x01 || 0x06 <= op <= 0x0A || op == 0x0F || 0x12 <= op <= 0x1F || 0x25 <= op <= 0x27
    || 0x45 <= op <= 0xFB || op >= 0xFD
  }

  /** Opcodes that take a zero byte behind them for their immediate. */
  predicate TakesZero(op: byte) {
    op == 0x0C || op == 0x0D || op == 0x10 || 0x20 <= op <= 0x24 || 0x3F <= op <= 0x42
  }

  /** Last byte of a segment index that does no harm when read as an opcode at `depth`; `zero` says that a reserved zero
      byte follows, which the opcode may take as its immediate. */
  predicate Harmless(last: byte, zero: bool, depth: nat) {
    || NoImmediate(last)
    || (last == 0x05 && depth > 1)
    || (zero && TakesZero(last))
  }

  /** A byte of the index before its last reads as the prefix 0xFC, whose immediate is the rest of the index. */
  predicate HidesRest(idx: seq<byte>) {
    exists k :: 0 <= k < |idx| - 1 && idx[k] == 0xFC
  }

  /** A segment index that the scan walks over. */
  predicate Passable(idx: seq<byte>, zero: bool, depth: nat)
    requires idx != []
  {
    HidesRest(idx) || Harmless(idx[|idx| - 1], zero, depth)
  }

  /** A segment index, with the reserved zero byte of `memory.init`. */
  ghost predicate SegmentImmediate(sub: int, rest: seq<byte>) {
    exists idx :: ShortLeb(idx) && ((sub == 8 && rest == idx + [0] && Passable(idx, true, 1))
                                    || (sub == 9 && rest == idx + [] && Passable(idx, false, 1)))
  }

  /** Sub-opcode, and its reserved bytes or segment index. */
  ghost predicate PrefixedImmediate(imm: seq<byte>) {
    exists k :: 0 < k <= |imm| && k <= 5 && IsLeb(imm[..k])
                && (Reserved(LabelOf(imm[..k])) == Some(imm[k..]) || SegmentImmediate(LabelOf(imm[..k]), imm[k..]))
  }

  /** Immediates as section 5.4 of the WebAssembly Core Specification gives them. */
  ghost predicate WellFormedPlain(op: byte, imm: seq<byte>) {
    && !Structural(op)
    && if op == 0xFC then PrefixedImmediate(imm)
       else if LebCount(op) == 1 then IsLeb(imm)
       else if LebCount(op) == 2 then TwoLebImmediate(imm)
       else |imm| == FixedBytes(op)
  }

  ghost predicate WellFormed(i: Instr)
    decreases i, 1
  {
    match i
    case Plain(op, imm) => WellFormedPlain(op, imm)
    case Block(_, body) => WellFormedCode(body)
    case Loop(_, body) => WellFormedCode(body)
    case If(_, thn, els) => WellFormedCode(thn) && (els.Some? ==> WellFormedCode(els.value))
    case Br(target) => ShortLeb(target)
    case BrIf(target) => ShortLeb(target)
    case BrTable(count, labels) =>
      && ShortLeb(count) && LabelOf(count) + 1 == |labels|
      && forall k :: 0 <= k < |labels| ==> ShortLeb(labels[k])
    case Unreachable => true
    case Return => true
  }

  ghost predicate WellFormedCode(c: Code)
    decreases c, 0
  {
    c.Cons? ==> WellFormed(c.head) && WellFormedCode(c.tail)
  }

  // ---- the scan passes over encoded code ------------------------------------------------------------

  lemma ReadAt(body: seq<byte>, i: nat, leb: seq<byte>)
    requires At(body, i, leb) && ShortLeb(leb)
    ensures ReadU32(body[i..]) == ReadU32(leb)
    ensures ReadU32(leb) == Some((LabelOf(leb), |leb|))
  {
    assert body[i..] == leb + body[i + |leb|..];
    UnsignedExact(leb, body[i + |leb|..], 5);
  }

  lemma {:induction false} SkipFlatten(body: seq<byte>, i: nat, lebs: seq<seq<byte>>)
    requires At(body, i, Flatten(lebs)) && forall k :: 0 <= k < |lebs| ==> IsLeb(lebs[k])
    ensures SkipMany(body, i, |lebs|) == Some(i + |Flatten(lebs)|)
    decreases |lebs|
  {
    if lebs != [] {
      AtSplit(body, i, lebs[0], Flatten(lebs[1..]));
      SkipLebExact(body, i, lebs[0]);
      SkipFlatten(body, i + |lebs[0]|, lebs[1..]);
    }
  }

  lemma SkipTwo(body: seq<byte>, i: nat, a: seq<byte>, b: seq<byte>)
    requires At(body, i, a + b) && IsLeb(a) && IsLeb(b)
    ensures SkipMany(body, i, 2) == Some(i + |a| + |b|)
  {
    AtSplit(body, i, a, b);
    SkipLebExact(body, i, a);
    SkipLebExact(body, i + |a|, b);
    assert SkipMany(body, i + |a|, 1) == SkipMany(body, i + |a| + |b|, 0);
  }

  lemma SkipOne(body: seq<byte>, i: nat, leb: seq<byte>)
    requires At(body, i, leb) && IsLeb(leb)
    ensures SkipMany(body, i, 1) == Some(i + |leb|)
  {
    SkipLebExact(body, i, leb);
    assert SkipMany(body, i + |leb|, 0) == Some(i + |leb|);
  }

  // One turn of the scanning loop, by opcode.

  lemma StepPlain(body: seq<byte>, i: nat, j: nat, depth: nat, els: Option<nat>)
    requires depth > 0 && i < |body| && !Opens(body[i]) && body[i] != ELSE && body[i] != END
    requires SkipImmediates(body, body[i], i + 1) == Some(j)
    ensures ScanFrom(body, i, depth, els) == ScanFrom(body, j, depth, els)
  {
    hide SkipImmediates;
  }

  lemma StepOpen(body: seq<byte>, i: nat, depth: nat, els: Option<nat>)
    requires depth > 0 && i < |body| && Opens(body[i])
    ensures ScanFrom(body, i, depth, els) == ScanFrom(body, i + 2, depth + 1, els)
  {
  }

  lemma StepElse(body: seq<byte>, i: nat, depth: nat, els: Option<nat>)
    requires depth > 0 && i < |body| && body[i] == ELSE
    ensures ScanFrom(body, i, depth, els) == ScanFrom(body, i + 1, depth, if depth == 1 then Some(i) else els)
  {
  }

  lemma StepEnd(body: seq<byte>, i: nat, depth: nat, els: Option<nat>)
    requires depth > 0 && i < |body| && body[i] == END
    ensures depth == 1 ==> ScanFrom(body, i, depth, els) == Some((i, els))
    ensures depth > 1 ==> ScanFrom(body, i, depth, els) == ScanFrom(body, i + 1, depth - 1, els)
  {
  }

  /** Reserved zero bytes read as opcodes without immediates. */
  lemma {:induction false} ScanZeros(body: seq<byte>, i: nat, zeros: seq<byte>, depth: nat, els: Option<nat>)
    requires depth > 0 && At(body, i, zeros) && forall k :: 0 <= k < |zeros| ==> zeros[k] == 0
    ensures ScanFrom(body, i, depth, els) == ScanFrom(body, i + |zeros|, depth, els)
    decreases |zeros|
  {
    if zeros != [] {
      assert zeros == [zeros[0]] + zeros[1..];
      AtSplit(body, i, [zeros[0]], zeros[1..]);
      assert body[i] == 0;
      ScanZeros(body, i + 1, zeros[1..], depth, els);
    }
  }

  lemma PlainImmediates(body: seq<byte>, i: nat, op: byte, imm: seq<byte>)
    requires At(body, i, imm) && WellFormedPlain(op, imm) && op != 0xFC
    ensures SkipImmediates(body, op, i) == Some(i + |imm|)
  {
    assert i <= |body|;
    hide At, IsLeb, SkipMany, TwoLebImmediate, PrefixedImmediate;
    if OneLeb(op) {
      SkipOne(body, i, imm);
    } else if TwoLebs(op) {
      TwoLebSkip(body, i, imm);
    }
  }

  lemma TwoLebSkip(body: seq<byte>, i: nat, imm: seq<byte>)
    requires At(body, i, imm) && TwoLebImmediate(imm)
    ensures SkipMany(body, i, 2) == Some(i + |imm|)
  {
    hide At, IsLeb, SkipMany;
    var k :| 0 < k < |imm| && IsLeb(imm[..k]) && IsLeb(imm[k..]);
    assert imm == imm[..k] + imm[k..];
    SkipTwo(body, i, imm[..k], imm[k..]);
  }

  lemma ReservedZeros(sub: int, bs: seq<byte>)
    requires Reserved(sub) == Some(bs)
    ensures forall k :: 0 <= k < |bs| ==> bs[k] == 0
  {
  }

  /** The scan takes the sub-opcode of an 0xFC instruction for its whole immediate, then walks over the
      reserved zero bytes. */
  lemma ScanPrefixed(body: seq<byte>, i: nat, sub: seq<byte>, reserved: seq<byte>, depth: nat, els: Option<nat>)
    requires depth > 0 && At(body, i, [0xFC]) && At(body, i + 1, sub) && At(body, i + 1 + |sub|, reserved)
    requires IsLeb(sub) && Reserved(LabelOf(sub)) == Some(reserved)
    ensures ScanFrom(body, i, depth, els) == ScanFrom(body, i + 1 + |sub| + |reserved|, depth, els)
  {
    hide ScanFrom, At, IsLeb, LabelOf, Reserved;
    ToIndex(body, i, sub, depth, els);
    ReservedZeros(LabelOf(sub), reserved);
    ScanZeros(body, i + 1 + |sub|, reserved, depth, els);
  }

  /** The scan over a segment index, byte by byte as opcodes: past the whole index when part of it is hidden, else
      up to its last byte. */
  lemma {:induction false} ScanIndex(body: seq<byte>, i: nat, idx: seq<byte>, depth: nat, els: Option<nat>)
    requires depth > 0 && At(body, i, idx) && IsLeb(idx)
    ensures ScanFrom(body, i, depth, els) ==
            ScanFrom(body, i + |idx| - (if HidesRest(idx) then 0 else 1), depth, els)
    decreases |idx|
  {
    hide ScanFrom, At, SkipMany;
    if |idx| > 1 {
      assert idx == [idx[0]] + idx[1..];
      AtSplit(body, i, [idx[0]], idx[1..]);
      AtOne(body, i, idx[0]);
      HidesNext(idx);
      if idx[0] == 0xFC {
        SkipOne(body, i + 1, idx[1..]);
        StepPlain(body, i, i + |idx|, depth, els);
      } else {
        StepPlain(body, i, i + 1, depth, els);
        ScanIndex(body, i + 1, idx[1..], depth, els);
      }
    }
  }

  lemma HidesNext(idx: seq<byte>)
    requires |idx| > 1
    ensures HidesRest(idx) <==> idx[0] == 0xFC || HidesRest(idx[1..])
  {
    if HidesRest(idx) && idx[0] != 0xFC {
      var k :| 0 <= k < |idx| - 1 && idx[k] == 0xFC;
      assert idx[1..][k - 1] == 0xFC;
    }
    if HidesRest(idx[1..]) {
      var k :| 0 <= k < |idx[1..]| - 1 && idx[1..][k] == 0xFC;
      assert idx[k + 1] == 0xFC;
    }
  }

  /** A harmless last byte, and the reserved zero after it. */
  lemma ScanLast(body: seq<byte>, i: nat, last: byte, zeros: seq<byte>, depth: nat, els: Option<nat>)
    requires depth > 0 && At(body, i, [last]) && At(body, i + 1, zeros) && (zeros == [] || zeros == [0])
    requires Harmless(last, zeros == [0], depth)
    ensures ScanFrom(body, i, depth, els) == ScanFrom(body, i + 1 + |zeros|, depth, els)
  {
    hide ScanFrom, At, SkipMany;
    AtOne(body, i, last);
    if NoImmediate(last) {
      StepPlain(body, i, i + 1, depth, els);
      ScanZeros(body, i + 1, zeros, depth, els);
    } else if last == ELSE {
      StepElse(body, i, depth, els);
      ScanZeros(body, i + 1, zeros, depth, els);
    } else {
      if OneLeb(last) { SkipOne(body, i + 1, [0]); }
      StepPlain(body, i, i + 2, depth, els);
    }
  }

  /** `memory.init` or `data.drop`: sub-opcode, segment index and reserved byte. */
  function Segment(sub: seq<byte>, idx: seq<byte>, zeros: seq<byte>): (bs: seq<byte>)
    ensures |bs| == 1 + |sub| + |idx| + |zeros|
  {
    [0xFC] + sub + idx + zeros
  }

  /** A passable segment index is passed over. */
  lemma ScanSegment(body: seq<byte>, i: nat, sub: seq<byte>, idx: seq<byte>, zeros: seq<byte>, depth: nat,
                    els: Option<nat>)
    requires depth > 0 && At(body, i, Segment(sub, idx, zeros)) && IsLeb(sub) && IsLeb(idx)
    requires (zeros == [] || zeros == [0]) && Passable(idx, zeros == [0], depth)
    ensures ScanFrom(body, i, depth, els) == ScanFrom(body, i + |Segment(sub, idx, zeros)|, depth, els)
  {
    hide *;
    LastOfIndex(idx, zeros == [0], depth);
    var p := i + 1 + |sub|;
    SegmentParts(body, i, sub, idx, zeros);
    ToIndex(body, i, sub, depth, els);
    ScanIndex(body, p, idx, depth, els);
    if HidesRest(idx) {
      ScanZeros(body, p + |idx|, zeros, depth, els);
    } else {
      ScanLast(body, p + |idx| - 1, idx[|idx| - 1], zeros, depth, els);
    }
  }

  lemma LastOfIndex(idx: seq<byte>, zero: bool, depth: nat)
    requires IsLeb(idx) && Passable(idx, zero, depth)
    ensures idx != [] && (HidesRest(idx) || Harmless(idx[|idx| - 1], zero, depth))
  {
    hide HidesRest, Harmless;
  }

  /** Where the parts of such an instruction stand. */
  lemma SegmentParts(body: seq<byte>, i: nat, sub: seq<byte>, idx: seq<byte>, zeros: seq<byte>)
    requires At(body, i, Segment(sub, idx, zeros)) && idx != []
    ensures var p := i + 1 + |sub|;
            && At(body, i, [0xFC]) && At(body, i + 1, sub) && At(body, p, idx)
            && At(body, p + |idx| - 1, [idx[|idx| - 1]]) && At(body, p + |idx|, zeros)
  {
    hide At;
    AtSplit(body, i, [0xFC] + sub + idx, zeros);
    AtSplit(body, i, [0xFC] + sub, idx);
    AtSplit(body, i, [0xFC], sub);
    assert idx == idx[..|idx| - 1] + [idx[|idx| - 1]];
    AtSplit(body, i + 1 + |sub|, idx[..|idx| - 1], [idx[|idx| - 1]]);
  }

  /** The scan takes the sub-opcode for the whole immediate. */
  lemma ToIndex(body: seq<byte>, i: nat, sub: seq<byte>, depth: nat, els: Option<nat>)
    requires depth > 0 && At(body, i, [0xFC]) && At(body, i + 1, sub) && IsLeb(sub)
    ensures ScanFrom(body, i, depth, els) == ScanFrom(body, i + 1 + |sub|, depth, els)
  {
    hide ScanFrom, At, IsLeb, SkipMany;
    AtOne(body, i, 0xFC);
    SkipOne(body, i + 1, sub);
    StepPlain(body, i, i + 1 + |sub|, depth, els);
  }

  lemma PassableDeeper(idx: seq<byte>, zero: bool, depth: nat)
    requires idx != [] && depth > 0 && Passable(idx, zero, 1)
    ensures Passable(idx, zero, depth)
  {
  }

  lemma SplitSegment(sub: int, rest: seq<byte>) returns (idx: seq<byte>, zeros: seq<byte>)
    requires SegmentImmediate(sub, rest)
    ensures IsLeb(idx) && 0 < |idx| <= 5 && rest == idx + zeros && zeros == (if sub == 8 then [0] else [])
    ensures Passable(idx, zeros == [0], 1) && (sub == 8 || sub == 9)
  {
    idx :| ShortLeb(idx) && ((sub == 8 && rest == idx + [0] && Passable(idx, true, 1))
                             || (sub == 9 && rest == idx + [] && Passable(idx, false, 1)));
    zeros := if sub == 8 then [0] else [];
  }

  lemma SegmentForm(sub: seq<byte>, rest: seq<byte>, idx: seq<byte>, zeros: seq<byte>)
    requires rest == idx + zeros
    ensures [0xFC] + (sub + rest) == Segment(sub, idx, zeros)
  {
  }

  lemma ScanSegmentImmediate(body: seq<byte>, i: nat, sub: seq<byte>, rest: seq<byte>, depth: nat, els: Option<nat>)
    requires depth > 0 && At(body, i, [0xFC] + (sub + rest)) && IsLeb(sub) && SegmentImmediate(LabelOf(sub), rest)
    ensures ScanFrom(body, i, depth, els) == ScanFrom(body, i + 1 + |sub| + |rest|, depth, els)
  {
    hide *;
    var idx, zeros := SplitSegment(LabelOf(sub), rest);
    SegmentForm(sub, rest, idx, zeros);
    PassableDeeper(idx, zeros == [0], depth);
    ScanSegment(body, i, sub, idx, zeros, depth, els);
  }

  lemma ScanPlain(body: seq<byte>, i: nat, op: byte, imm: seq<byte>, depth: nat, els: Option<nat>)
    requires depth > 0 && At(body, i, [op] + imm) && WellFormedPlain(op, imm)
    ensures ScanFrom(body, i, depth, els) == ScanFrom(body, i + 1 + |imm|, depth, els)
  {
    hide ScanFrom, At, SkipImmediates, IsLeb, LabelOf, Reserved, SegmentImmediate;
    AtSplit(body, i, [op], imm);
    AtOne(body, i, op);
    if op == 0xFC {
      var k :| 0 < k <= |imm| && k <= 5 && IsLeb(imm[..k])
               && (Reserved(LabelOf(imm[..k])) == Some(imm[k..]) || SegmentImmediate(LabelOf(imm[..k]), imm[k..]));
      assert imm == imm[..k] + imm[k..];
      if Reserved(LabelOf(imm[..k])) == Some(imm[k..]) {
        AtSplit(body, i + 1, imm[..k], imm[k..]);
        ScanPrefixed(body, i, imm[..k], imm[k..], depth, els);
      } else {
        ScanSegmentImmediate(body, i, imm[..k], imm[k..], depth, els);
      }
    } else {
      PlainImmediates(body, i + 1, op, imm);
      StepPlain(body, i, i + 1 + |imm|, depth, els);
    }
  }

  /** Position after the immediate of a branch. */
  lemma BranchImmediates(body: seq<byte>, i: nat, x: Instr)
    requires (x.Br? || x.BrIf? || x.BrTable?) && WellFormed(x) && At(body, i, EncodeInstr(x))
    ensures i < |body| && body[i] == (if x.Br? then BR else if x.BrIf? then BR_IF else BR_TABLE)
    ensures x.BrTable? ==> At(body, i + 1, x.count) && At(body, i + 1 + |x.count|, Flatten(x.labels))
    ensures !x.BrTable? ==> At(body, i + 1, x.target)
    ensures SkipImmediates(body, body[i], i + 1) == Some(i + |EncodeInstr(x)|)
  {
    hide At, IsLeb, SkipMany, Flatten, ReadU32, LabelOf;
    match x
    case Br(target) =>
      AtSplit(body, i, [BR], target);
      AtOne(body, i, BR);
      SkipOne(body, i + 1, target);
    case BrIf(target) =>
      AtSplit(body, i, [BR_IF], target);
      AtOne(body, i, BR_IF);
      SkipOne(body, i + 1, target);
    case BrTable(count, labels) =>
      AtSplit(body, i, [BR_TABLE] + count, Flatten(labels));
      AtSplit(body, i, [BR_TABLE], count);
      AtOne(body, i, BR_TABLE);
      ReadAt(body, i + 1, count);
      SkipFlatten(body, i + 1 + |count|, labels);
  }

  /** Where the parts of a nested construct stand. */
  lemma BlockParts(body: seq<byte>, i: nat, op: byte, bt: byte, inner: seq<byte>)
    ensures At(body, i, [op, bt] + inner + [END]) <==>
            At(body, i, [op, bt]) && At(body, i + 2, inner) && At(body, i + 2 + |inner|, [END])
  {
    AtSplit(body, i, [op, bt] + inner, [END]);
    AtSplit(body, i, [op, bt], inner);
  }

  lemma ElseParts(body: seq<byte>, i: nat, bt: byte, thn: seq<byte>, els: seq<byte>)
    ensures At(body, i, [IF, bt] + thn + ([ELSE] + els) + [END]) <==>
            && At(body, i, [IF, bt]) && At(body, i + 2, thn) && At(body, i + 2 + |thn|, [ELSE])
            && At(body, i + 3 + |thn|, els) && At(body, i + 3 + |thn| + |els|, [END])
  {
    AtSplit(body, i, [IF, bt] + thn + ([ELSE] + els), [END]);
    AtSplit(body, i, [IF, bt] + thn, [ELSE] + els);
    AtSplit(body, i, [IF, bt], thn);
    AtSplit(body, i + 2 + |thn|, [ELSE], els);
  }

  /** Scanning from the start of an instruction arrives after it, at the same depth, with the `else` of the
      enclosing block untouched. */
  lemma {:induction false} ScanInstr(body: seq<byte>, i: nat, x: Instr, depth: nat, els: Option<nat>)
    requires depth > 0 && WellFormed(x) && At(body, i, EncodeInstr(x))
    ensures ScanFrom(body, i, depth, els) == ScanFrom(body, i + |EncodeInstr(x)|, depth, els)
    decreases x, 1
  {
    hide ScanFrom, At, SkipImmediates, WellFormedPlain;
    match x
    case Plain(op, imm) => ScanPlain(body, i, op, imm, depth, els);
    case Unreachable =>
      AtOne(body, i, UNREACHABLE);
      NoImmediates(body, i);
      StepPlain(body, i, i + 1, depth, els);
    case Return =>
      AtOne(body, i, RETURN);
      NoImmediates(body, i);
      StepPlain(body, i, i + 1, depth, els);
    case Block(bt, inner) =>
      BlockParts(body, i, BLOCK, bt, EncodeCode(inner));
      ScanNested(body, i, BLOCK, bt, inner, depth, els);
    case Loop(bt, inner) =>
      BlockParts(body, i, LOOP, bt, EncodeCode(inner));
      ScanNested(body, i, LOOP, bt, inner, depth, els);
    case If(bt, thn, None) =>
      assert EncodeInstr(x) == [IF, bt] + EncodeCode(thn) + [END];
      BlockParts(body, i, IF, bt, EncodeCode(thn));
      ScanNested(body, i, IF, bt, thn, depth, els);
    case If(bt, thn, Some(e)) =>
      ElseParts(body, i, bt, EncodeCode(thn), EncodeCode(e));
      ScanIfElse(body, i, bt, thn, e, depth, els);
    case _ =>
      BranchImmediates(body, i, x);
      StepPlain(body, i, i + |EncodeInstr(x)|, depth, els);
  }

  lemma NoImmediates(body: seq<byte>, i: nat)
    requires i < |body| && (body[i] == UNREACHABLE || body[i] == RETURN)
    ensures SkipImmediates(body, body[i], i + 1) == Some(i + 1)
  {
  }

  lemma {:induction false} ScanNested(
    body: seq<byte>, i: nat, op: byte, bt: byte, inner: Code, depth: nat, els: Option<nat>)
    requires depth > 0 && Opens(op) && WellFormedCode(inner)
    requires At(body, i, [op, bt]) && At(body, i + 2, EncodeCode(inner)) && At(body, i + 2 + |EncodeCode(inner)|, [END])
    ensures ScanFrom(body, i, depth, els) == ScanFrom(body, i + 3 + |EncodeCode(inner)|, depth, els)
    decreases inner, 1
  {
    hide ScanFrom, At, EncodeCode, WellFormedCode;
    AtTwo(body, i, op, bt);
    StepOpen(body, i, depth, els);
    ScanCode(body, i + 2, inner, depth + 1, els);
    AtOne(body, i + 2 + |EncodeCode(inner)|, END);
    StepEnd(body, i + 2 + |EncodeCode(inner)|, depth + 1, els);
  }

  lemma {:induction false} ScanIfElse(
    body: seq<byte>, i: nat, bt: byte, thn: Code, e: Code, depth: nat, els: Option<nat>)
    requires depth > 0 && WellFormedCode(thn) && WellFormedCode(e) && At(body, i, [IF, bt])
    requires At(body, i + 2, EncodeCode(thn)) && At(body, i + 2 + |EncodeCode(thn)|, [ELSE])
    requires At(body, i + 3 + |EncodeCode(thn)|, EncodeCode(e))
    requires At(body, i + 3 + |EncodeCode(thn)| + |EncodeCode(e)|, [END])
    ensures ScanFrom(body, i, depth, els) == ScanFrom(body, i + 4 + |EncodeCode(thn)| + |EncodeCode(e)|, depth, els)
    decreases If(bt, thn, Some(e)), 0
  {
    hide ScanFrom, At, EncodeCode, WellFormedCode;
    var mid := i + 2 + |EncodeCode(thn)|;
    AtTwo(body, i, IF, bt);
    StepOpen(body, i, depth, els);
    ScanCode(body, i + 2, thn, depth + 1, els);
    AtOne(body, mid, ELSE);
    StepElse(body, mid, depth + 1, els);
    ScanCode(body, mid + 1, e, depth + 1, els);
    AtOne(body, mid + 1 + |EncodeCode(e)|, END);
    StepEnd(body, mid + 1 + |EncodeCode(e)|, depth + 1, els);
  }

  lemma {:induction false} ScanCode(body: seq<byte>, i: nat, c: Code, depth: nat, els: Option<nat>)
    requires depth > 0 && WellFormedCode(c) && At(body, i, EncodeCode(c))
    ensures ScanFrom(body, i, depth, els) == ScanFrom(body, i + |EncodeCode(c)|, depth, els)
    decreases c, 0
  {
    hide ScanFrom, At, EncodeInstr, WellFormed;
    if c.Cons? {
      AtSplit(body, i, EncodeInstr(c.head), EncodeCode(c.tail));
      ScanInstr(body, i, c.head, depth, els);
      ScanCode(body, i + |EncodeInstr(c.head)|, c.tail, depth, els);
    }
  }

  /** The scan finds the structural match: from the start of a block body it returns exactly the position of
      that block's own `end`, whatever the bytes before and after. */
  lemma ScanFindsEnd(body: seq<byte>, start: nat, inner: Code)
    requires WellFormedCode(inner)
    requires At(body, start, EncodeCode(inner)) && At(body, start + |EncodeCode(inner)|, [END])
    ensures ScanBlockEnd(body, start) == Some((start + |EncodeCode(inner)|, None))
  {
    hide ScanFrom, At, EncodeCode;
    ScanCode(body, start, inner, 1, None);
    AtOne(body, start + |EncodeCode(inner)|, END);
    StepEnd(body, start + |EncodeCode(inner)|, 1, None);
  }

  /** With an else part, also exactly its own `else`. */
  lemma ScanFindsElse(body: seq<byte>, start: nat, thn: Code, els: Code)
    requires WellFormedCode(thn) && WellFormedCode(els)
    requires At(body, start, EncodeCode(thn)) && At(body, start + |EncodeCode(thn)|, [ELSE])
    requires At(body, start + |EncodeCode(thn)| + 1, EncodeCode(els))
    requires At(body, start + |EncodeCode(thn)| + 1 + |EncodeCode(els)|, [END])
    ensures ScanBlockEnd(body, start) ==
            Some((start + |EncodeCode(thn)| + 1 + |EncodeCode(els)|, Some(start + |EncodeCode(thn)|)))
  {
    hide ScanFrom, At, EncodeCode;
    var mid := start + |EncodeCode(thn)|;
    ScanCode(body, start, thn, 1, None);
    AtOne(body, mid, ELSE);
    StepElse(body, mid, 1, None);
    ScanCode(body, mid + 1, els, 1, Some(mid));
    AtOne(body, mid + 1 + |EncodeCode(els)|, END);
    StepEnd(body, mid + 1 + |EncodeCode(els)|, 1, Some(mid));
  }

  /** `memory.init 11` inside a block: the segment index 0x0B is taken for the block's `end`. */
  lemma ScanMisreadsMemoryInit()
    ensures ScanBlockEnd([0xFC, 0x08, 0x0B, 0x00, END], 0) == Some((2, None))
  {
    var b: seq<byte> := [0xFC, 0x08, 0x0B, 0x00, END];
    assert SkipLeb(b, 1) == Some(1);
    assert SkipMany(b, 1, 1) == SkipMany(b, 2, 0);
    StepPlain(b, 0, 2, 1, None);
    StepEnd(b, 2, 1, None);
  }
}
