/** The pre-scan over structured code: the openers it meets are those of the tree, and what the table holds for them
    is the tree's own `end` and `else`. */
module JumpTree {
  import opened Words
  import opened Bytes
  import opened Leb128
  import opened Opcode
  import opened Scanner
  import opened JumpTable
  import opened JumpCapacity

  /** Where a block body starts, with its `end` and `else`. */
  type Jump = (nat, ScanResult)

  /** The constructs of an instruction encoded at `i`, outermost first. */
  function InstrJumps(x: Instr, i: nat): seq<Jump>
    decreases x, 1
  {
    match x
    case Block(_, inner) => [(i + 2, (i + 2 + |EncodeCode(inner)|, None))] + CodeJumps(inner, i + 2)
    case Loop(_, inner) => [(i + 2, (i + 2 + |EncodeCode(inner)|, None))] + CodeJumps(inner, i + 2)
    case If(_, thn, None) => [(i + 2, (i + 2 + |EncodeCode(thn)|, None))] + CodeJumps(thn, i + 2)
    case If(_, thn, Some(els)) =>
      var m := i + 2 + |EncodeCode(thn)|;
      [(i + 2, (m + 1 + |EncodeCode(els)|, Some(m)))] + (CodeJumps(thn, i + 2) + CodeJumps(els, m + 1))
    case _ => []
  }

  function CodeJumps(c: Code, i: nat): seq<Jump>
    decreases c, 0
  {
    match c
    case Nil => []
    case Cons(head, tail) => InstrJumps(head, i) + CodeJumps(tail, i + |EncodeInstr(head)|)
  }

  function Positions(js: seq<Jump>): seq<nat> {
    seq(|js|, k requires 0 <= k < |js| => js[k].0)
  }

  lemma PositionsJoin(a: seq<Jump>, b: seq<Jump>)
    ensures Positions(a + b) == Positions(a) + Positions(b)
  {
  }

  // ---- the walk, instruction by instruction ----------------------------------------------------------------------

  lemma {:induction false} LenientIsSkip(body: seq<byte>, i: nat, k: nat, d: nat)
    requires SkipMany(body, i, k).Some?
    ensures LenientSkip(body, i, k, d) == SkipMany(body, i, k).value
    decreases k
  {
    if k > 0 { LenientIsSkip(body, i + SkipLeb(body, i).value, k - 1, d); }
  }

  /** Where the scan can read an immediate the walk skips the same. */
  lemma WalkIsSkip(body: seq<byte>, op: byte, i: nat)
    requires i <= |body| && SkipImmediates(body, op, i).Some?
    ensures WalkImmediates(body, op, i) == SkipImmediates(body, op, i)
  {
    hide SkipMany, LenientSkip, ReadU32;
    if OneLeb(op) || op == 0xFC {
      LenientIsSkip(body, i, 1, 0);
    } else if TwoLebs(op) {
      LenientIsSkip(body, i, 2, 0);
    } else if op == BR_TABLE {
      var (count, n) := ReadU32(body[i..]).value;
      LenientIsSkip(body, i + n, count + 1, 1);
    }
  }

  lemma WalkPlain(body: seq<byte>, i: nat, j: nat)
    requires i < |body| && !Opens(body[i]) && SkipImmediates(body, body[i], i + 1) == Some(j)
    ensures Starts(body, i) == Starts(body, j)
  {
    hide SkipImmediates, WalkImmediates;
    WalkIsSkip(body, body[i], i + 1);
  }

  lemma WalkMark(body: seq<byte>, i: nat)
    requires i < |body| && (body[i] == ELSE || body[i] == END)
    ensures Starts(body, i) == Starts(body, i + 1)
  {
    hide Starts;
    WalkPlain(body, i, i + 1);
  }

  lemma WalkOpen(body: seq<byte>, i: nat)
    requires i + 1 < |body| && Opens(body[i])
    ensures Starts(body, i) == [i + 2] + Starts(body, i + 2)
  {
  }

  // ---- 0xFC instructions -----------------------------------------------------------------------------------------

  lemma {:induction false} WalkZeros(body: seq<byte>, i: nat, zeros: seq<byte>)
    requires At(body, i, zeros) && forall k :: 0 <= k < |zeros| ==> zeros[k] == 0
    ensures Starts(body, i) == Starts(body, i + |zeros|)
    decreases |zeros|
  {
    hide Starts;
    if zeros != [] {
      assert zeros == [zeros[0]] + zeros[1..];
      AtSplit(body, i, [zeros[0]], zeros[1..]);
      assert body[i] == 0;
      WalkPlain(body, i, i + 1);
      WalkZeros(body, i + 1, zeros[1..]);
    }
  }

  lemma WalkToIndex(body: seq<byte>, i: nat, sub: seq<byte>)
    requires At(body, i, [0xFC]) && At(body, i + 1, sub) && IsLeb(sub)
    ensures Starts(body, i) == Starts(body, i + 1 + |sub|)
  {
    hide Starts, At, IsLeb, SkipMany;
    AtOne(body, i, 0xFC);
    SkipOne(body, i + 1, sub);
    WalkPlain(body, i, i + 1 + |sub|);
  }

  lemma {:induction false} WalkIndex(body: seq<byte>, i: nat, idx: seq<byte>)
    requires At(body, i, idx) && IsLeb(idx)
    ensures Starts(body, i) == Starts(body, i + |idx| - (if HidesRest(idx) then 0 else 1))
    decreases |idx|
  {
    hide Starts, At, SkipMany;
    if |idx| > 1 {
      assert idx == [idx[0]] + idx[1..];
      AtSplit(body, i, [idx[0]], idx[1..]);
      AtOne(body, i, idx[0]);
      HidesNext(idx);
      if idx[0] == 0xFC {
        SkipOne(body, i + 1, idx[1..]);
        WalkPlain(body, i, i + |idx|);
      } else {
        WalkPlain(body, i, i + 1);
        WalkIndex(body, i + 1, idx[1..]);
      }
    }
  }

  lemma WalkLast(body: seq<byte>, i: nat, last: byte, zeros: seq<byte>)
    requires At(body, i, [last]) && At(body, i + 1, zeros) && (zeros == [] || zeros == [0])
    requires Harmless(last, zeros == [0], 1)
    ensures Starts(body, i) == Starts(body, i + 1 + |zeros|)
  {
    hide Starts, At, SkipMany;
    AtOne(body, i, last);
    if NoImmediate(last) {
      WalkPlain(body, i, i + 1);
      WalkZeros(body, i + 1, zeros);
    } else {
      if OneLeb(last) { SkipOne(body, i + 1, [0]); }
      WalkPlain(body, i, i + 2);
    }
  }

  lemma WalkSegment(body: seq<byte>, i: nat, sub: seq<byte>, idx: seq<byte>, zeros: seq<byte>)
    requires At(body, i, Segment(sub, idx, zeros)) && IsLeb(sub) && IsLeb(idx)
    requires (zeros == [] || zeros == [0]) && Passable(idx, zeros == [0], 1)
    ensures Starts(body, i) == Starts(body, i + |Segment(sub, idx, zeros)|)
  {
    hide *;
    LastOfIndex(idx, zeros == [0], 1);
    var p := i + 1 + |sub|;
    SegmentParts(body, i, sub, idx, zeros);
    WalkToIndex(body, i, sub);
    WalkIndex(body, p, idx);
    if HidesRest(idx) {
      WalkZeros(body, p + |idx|, zeros);
    } else {
      WalkLast(body, p + |idx| - 1, idx[|idx| - 1], zeros);
    }
  }

  lemma WalkPrefixed(body: seq<byte>, i: nat, imm: seq<byte>)
    requires At(body, i, [0xFC] + imm) && PrefixedImmediate(imm)
    ensures Starts(body, i) == Starts(body, i + 1 + |imm|)
  {
    hide Starts, At, IsLeb, LabelOf, Reserved, SegmentImmediate, Segment;
    var k :| 0 < k <= |imm| && k <= 5 && IsLeb(imm[..k])
             && (Reserved(LabelOf(imm[..k])) == Some(imm[k..]) || SegmentImmediate(LabelOf(imm[..k]), imm[k..]));
    assert imm == imm[..k] + imm[k..];
    if Reserved(LabelOf(imm[..k])) == Some(imm[k..]) {
      AtSplit(body, i, [0xFC], imm);
      AtSplit(body, i + 1, imm[..k], imm[k..]);
      WalkToIndex(body, i, imm[..k]);
      ReservedZeros(LabelOf(imm[..k]), imm[k..]);
      WalkZeros(body, i + 1 + k, imm[k..]);
    } else {
      var idx, zeros := SplitSegment(LabelOf(imm[..k]), imm[k..]);
      SegmentForm(imm[..k], imm[k..], idx, zeros);
      WalkSegment(body, i, imm[..k], idx, zeros);
    }
  }

  // ---- structured code -------------------------------------------------------------------------------------------

  lemma WalkPlainInstr(body: seq<byte>, i: nat, op: byte, imm: seq<byte>)
    requires At(body, i, [op] + imm) && WellFormedPlain(op, imm)
    ensures Starts(body, i) == Starts(body, i + 1 + |imm|)
  {
    hide Starts, At, SkipImmediates, PrefixedImmediate, IsLeb, TwoLebImmediate, LebCount, FixedBytes;
    if op == 0xFC {
      WalkPrefixed(body, i, imm);
    } else {
      AtSplit(body, i, [op], imm);
      AtOne(body, i, op);
      PlainImmediates(body, i + 1, op, imm);
      WalkPlain(body, i, i + 1 + |imm|);
    }
  }

  lemma {:induction false} WalkInstr(body: seq<byte>, i: nat, x: Instr)
    requires WellFormed(x) && At(body, i, EncodeInstr(x))
    ensures Starts(body, i) == Positions(InstrJumps(x, i)) + Starts(body, i + |EncodeInstr(x)|)
    decreases x, 1
  {
    hide Starts, At, SkipImmediates, WellFormedPlain, CodeJumps;
    match x
    case Plain(op, imm) => WalkPlainInstr(body, i, op, imm);
    case Unreachable =>
      AtOne(body, i, UNREACHABLE);
      NoImmediates(body, i);
      WalkPlain(body, i, i + 1);
    case Return =>
      AtOne(body, i, RETURN);
      NoImmediates(body, i);
      WalkPlain(body, i, i + 1);
    case Block(bt, inner) =>
      BlockParts(body, i, BLOCK, bt, EncodeCode(inner));
      WalkNested(body, i, BLOCK, bt, inner);
    case Loop(bt, inner) =>
      BlockParts(body, i, LOOP, bt, EncodeCode(inner));
      WalkNested(body, i, LOOP, bt, inner);
    case If(bt, thn, None) =>
      assert EncodeInstr(x) == [IF, bt] + EncodeCode(thn) + [END];
      BlockParts(body, i, IF, bt, EncodeCode(thn));
      WalkNested(body, i, IF, bt, thn);
    case If(bt, thn, Some(e)) =>
      ElseParts(body, i, bt, EncodeCode(thn), EncodeCode(e));
      WalkIfElse(body, i, bt, thn, e);
    case _ =>
      BranchImmediates(body, i, x);
      WalkPlain(body, i, i + |EncodeInstr(x)|);
  }

  lemma {:induction false} WalkNested(body: seq<byte>, i: nat, op: byte, bt: byte, inner: Code)
    requires Opens(op) && WellFormedCode(inner)
    requires At(body, i, [op, bt]) && At(body, i + 2, EncodeCode(inner)) && At(body, i + 2 + |EncodeCode(inner)|, [END])
    ensures var e := i + 2 + |EncodeCode(inner)|;
            Starts(body, i) == Positions([(i + 2, (e, None))] + CodeJumps(inner, i + 2)) + Starts(body, e + 1)
    decreases inner, 1
  {
    hide Starts, At, EncodeCode, WellFormedCode, CodeJumps;
    var e := i + 2 + |EncodeCode(inner)|;
    AtTwo(body, i, op, bt);
    WalkOpen(body, i);
    WalkCode(body, i + 2, inner);
    AtOne(body, e, END);
    WalkMark(body, e);
    PositionsJoin([(i + 2, (e, None))], CodeJumps(inner, i + 2));
  }

  lemma {:induction false} WalkIfElse(body: seq<byte>, i: nat, bt: byte, thn: Code, e: Code)
    requires WellFormedCode(thn) && WellFormedCode(e) && At(body, i, [IF, bt])
    requires At(body, i + 2, EncodeCode(thn)) && At(body, i + 2 + |EncodeCode(thn)|, [ELSE])
    requires At(body, i + 3 + |EncodeCode(thn)|, EncodeCode(e))
    requires At(body, i + 3 + |EncodeCode(thn)| + |EncodeCode(e)|, [END])
    ensures Starts(body, i) == Positions(InstrJumps(If(bt, thn, Some(e)), i))
                               + Starts(body, i + 4 + |EncodeCode(thn)| + |EncodeCode(e)|)
    decreases If(bt, thn, Some(e)), 0
  {
    hide Starts, At, EncodeCode, WellFormedCode, CodeJumps;
    var m := i + 2 + |EncodeCode(thn)|;
    var first: seq<Jump> := [(i + 2, (m + 1 + |EncodeCode(e)|, Some(m)))];
    AtTwo(body, i, IF, bt);
    WalkOpen(body, i);
    WalkCode(body, i + 2, thn);
    AtOne(body, m, ELSE);
    WalkMark(body, m);
    WalkCode(body, m + 1, e);
    AtOne(body, m + 1 + |EncodeCode(e)|, END);
    WalkMark(body, m + 1 + |EncodeCode(e)|);
    PositionsJoin(CodeJumps(thn, i + 2), CodeJumps(e, m + 1));
    PositionsJoin(first, CodeJumps(thn, i + 2) + CodeJumps(e, m + 1));
    assert Positions(first) == [i + 2];
    hide Positions;
  }

  /** The walk over encoded code meets exactly the openers of the tree, in order, whatever stands around it. */
  lemma {:induction false} WalkCode(body: seq<byte>, i: nat, c: Code)
    requires WellFormedCode(c) && At(body, i, EncodeCode(c))
    ensures Starts(body, i) == Positions(CodeJumps(c, i)) + Starts(body, i + |EncodeCode(c)|)
    decreases c, 0
  {
    hide Starts, At, EncodeInstr, WellFormed, InstrJumps;
    if c.Cons? {
      AtSplit(body, i, EncodeInstr(c.head), EncodeCode(c.tail));
      WalkInstr(body, i, c.head);
      WalkCode(body, i + |EncodeInstr(c.head)|, c.tail);
      PositionsJoin(InstrJumps(c.head, i), CodeJumps(c.tail, i + |EncodeInstr(c.head)|));
    }
  }

  // ---- each opener is closed -------------------------------------------------------------------------------------

  /** The scan result for every construct is the tree's. */
  ghost predicate Closed(body: seq<byte>, js: seq<Jump>) {
    forall k :: 0 <= k < |js| ==> ScanBlockEnd(body, js[k].0) == Some(js[k].1)
  }

  lemma ClosedJoin(body: seq<byte>, a: seq<Jump>, b: seq<Jump>)
    requires Closed(body, a) && Closed(body, b)
    ensures Closed(body, a + b)
  {
    hide ScanBlockEnd;
  }

  lemma ClosedFirst(body: seq<byte>, j: Jump)
    requires ScanBlockEnd(body, j.0) == Some(j.1)
    ensures Closed(body, [j])
  {
    hide ScanBlockEnd;
  }

  lemma {:induction false} InstrClosed(body: seq<byte>, i: nat, x: Instr)
    requires WellFormed(x) && At(body, i, EncodeInstr(x))
    ensures Closed(body, InstrJumps(x, i))
    decreases x, 1
  {
    hide ScanBlockEnd, At, WellFormedPlain, CodeJumps, Closed;
    match x
    case Block(bt, inner) =>
      BlockParts(body, i, BLOCK, bt, EncodeCode(inner));
      NestedClosed(body, i, inner);
    case Loop(bt, inner) =>
      BlockParts(body, i, LOOP, bt, EncodeCode(inner));
      NestedClosed(body, i, inner);
    case If(bt, thn, None) =>
      assert EncodeInstr(x) == [IF, bt] + EncodeCode(thn) + [END];
      BlockParts(body, i, IF, bt, EncodeCode(thn));
      NestedClosed(body, i, thn);
    case If(bt, thn, Some(e)) =>
      ElseParts(body, i, bt, EncodeCode(thn), EncodeCode(e));
      var m := i + 2 + |EncodeCode(thn)|;
      ScanFindsElse(body, i + 2, thn, e);
      ClosedFirst(body, (i + 2, (m + 1 + |EncodeCode(e)|, Some(m))));
      CodeClosed(body, i + 2, thn);
      CodeClosed(body, m + 1, e);
      ClosedJoin(body, CodeJumps(thn, i + 2), CodeJumps(e, m + 1));
      ClosedJoin(body, [(i + 2, (m + 1 + |EncodeCode(e)|, Some(m)))], CodeJumps(thn, i + 2) + CodeJumps(e, m + 1));
    case _ => NoneClosed(body);
  }

  lemma NoneClosed(body: seq<byte>)
    ensures Closed(body, [])
  {
  }

  lemma {:induction false} NestedClosed(body: seq<byte>, i: nat, inner: Code)
    requires WellFormedCode(inner)
    requires At(body, i + 2, EncodeCode(inner)) && At(body, i + 2 + |EncodeCode(inner)|, [END])
    ensures Closed(body, [(i + 2, (i + 2 + |EncodeCode(inner)|, None))] + CodeJumps(inner, i + 2))
    decreases inner, 1
  {
    hide *;
    ScanFindsEnd(body, i + 2, inner);
    ClosedFirst(body, (i + 2, (i + 2 + |EncodeCode(inner)|, None)));
    CodeClosed(body, i + 2, inner);
    ClosedJoin(body, [(i + 2, (i + 2 + |EncodeCode(inner)|, None))], CodeJumps(inner, i + 2));
  }

  lemma {:induction false} CodeClosed(body: seq<byte>, i: nat, c: Code)
    requires WellFormedCode(c) && At(body, i, EncodeCode(c))
    ensures Closed(body, CodeJumps(c, i))
    decreases c, 0
  {
    hide Closed, At, EncodeInstr, WellFormed, InstrJumps;
    if c.Cons? {
      AtSplit(body, i, EncodeInstr(c.head), EncodeCode(c.tail));
      InstrClosed(body, i, c.head);
      CodeClosed(body, i + |EncodeInstr(c.head)|, c.tail);
      ClosedJoin(body, InstrJumps(c.head, i), CodeJumps(c.tail, i + |EncodeInstr(c.head)|));
    } else {
      NoneClosed(body);
    }
  }

  // ---- modules ---------------------------------------------------------------------------------------------------

  /** Function bodies that encode the given code. */
  ghost predicate Encodes(bodies: seq<seq<byte>>, codes: seq<Code>) {
    && |bodies| == |codes|
    && forall k :: 0 <= k < |codes| ==> WellFormedCode(codes[k]) && bodies[k] == EncodeCode(codes[k]) + [0x0B]
  }

  /** The constructs of the first `n` functions, in order. */
  function TreeKeys(codes: seq<Code>, n: nat): seq<Key>
    requires n <= |codes|
  {
    if n == 0 then [] else TreeKeys(codes, n - 1) + InBody(n - 1, Positions(CodeJumps(codes[n - 1], 0)))
  }

  function InBody(idx: nat, starts: seq<nat>): seq<Key> {
    seq(|starts|, k requires 0 <= k < |starts| => (idx, starts[k]))
  }

  lemma {:induction false} AllClosed(body: seq<byte>, idx: nat, starts: seq<nat>)
    requires forall k :: 0 <= k < |starts| ==> ScanBlockEnd(body, starts[k]).Some?
    ensures ClosedKeys(body, idx, starts) == InBody(idx, starts)
    decreases |starts|
  {
    hide ScanBlockEnd;
    if starts != [] {
      AllClosed(body, idx, starts[1..]);
      assert InBody(idx, starts) == [(idx, starts[0])] + InBody(idx, starts[1..]);
    }
  }

  lemma BodyJumps(body: seq<byte>, code: Code)
    requires WellFormedCode(code) && body == EncodeCode(code) + [0x0B]
    ensures Starts(body, 0) == Positions(CodeJumps(code, 0)) && Closed(body, CodeJumps(code, 0))
  {
    var n := |EncodeCode(code)|;
    assert body[n] == END && Starts(body, n + 1) == [];
    hide Starts, EncodeCode, CodeJumps, Closed, WellFormedCode;
    assert body[0..n] == EncodeCode(code);
    WalkCode(body, 0, code);
    WalkMark(body, n);
    CodeClosed(body, 0, code);
  }

  /** The keys of a module of structured bodies are its constructs. */
  lemma {:induction false} KeysAreTree(bodies: seq<seq<byte>>, codes: seq<Code>, n: nat)
    requires Encodes(bodies, codes) && n <= |bodies|
    ensures Keys(bodies, n) == TreeKeys(codes, n)
  {
    hide Starts, EncodeCode, CodeJumps, ClosedKeys, InBody, ScanBlockEnd, WellFormedCode;
    if n > 0 {
      KeysAreTree(bodies, codes, n - 1);
      BodyJumps(bodies[n - 1], codes[n - 1]);
      AllClosed(bodies[n - 1], n - 1, Positions(CodeJumps(codes[n - 1], 0)));
    }
  }

  /** The pre-scanned table of structured code. In table order its keys are the first 4096 constructs of the module's
      functions, outer before inner; one of them is found at once, and whatever the table holds, lookup-or-scan gives
      for every construct its own `end` and `else`. */
  lemma StructuredJumps(bodies: seq<seq<byte>>, codes: seq<Code>, f: nat, k: nat)
    requires Encodes(bodies, codes) && Sized(bodies) && f < |codes| && k < |CodeJumps(codes[f], 0)|
    ensures var t, j, keys := Build(bodies, |bodies|), CodeJumps(codes[f], 0)[k], TreeKeys(codes, |codes|);
            && Exact(t, keys) && Ascending(keys) && (f, j.0) in keys
            && ((f, j.0) in Kept(keys) ==> JumpLookup(t, f, j.0) == Found(j.1))
            && LookupOrScan(t, bodies, f, j.0) == Some(j.1)
  {
    hide Starts, EncodeCode, CodeJumps, Keys, TreeKeys, ScanBlockEnd, WellFormedCode, Build, Exact, Ascending, Kept,
         JumpLookup, LookupOrScan;
    var j := CodeJumps(codes[f], 0)[k];
    KeysAreTree(bodies, codes, |bodies|);
    BuildExact(bodies, |bodies|);
    KeysAscend(bodies, |bodies|);
    BodyJumps(bodies[f], codes[f]);
    assert Positions(CodeJumps(codes[f], 0))[k] == j.0;
    JumpTableAgrees(bodies, f, j.0);
  }
}
