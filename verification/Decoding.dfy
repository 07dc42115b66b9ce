/** Every structured function body has a decoded form of the kind the run loop executes. */
module Decoding {
  import opened Words
  import opened Bytes
  import opened Leb128
  import opened Scanner
  import opened MachineControl
  import C = Control
  import M = Machine

  /** Where instructions, and the `else` and `end` of constructs, stand. */
  function HeadsOf(x: Instr, i: nat): (hs: seq<nat>)
    ensures hs != [] && hs[0] == i
    decreases x, 1
  {
    match x
    case Block(_, inner) => [i] + Heads(inner, i + 2) + [i + 2 + |EncodeCode(inner)|]
    case Loop(_, inner) => [i] + Heads(inner, i + 2) + [i + 2 + |EncodeCode(inner)|]
    case If(_, thn, None) => [i] + Heads(thn, i + 2) + [i + 2 + |EncodeCode(thn)|]
    case If(_, thn, Some(els)) =>
      var m := i + 2 + |EncodeCode(thn)|;
      [i] + Heads(thn, i + 2) + ([m] + Heads(els, m + 1) + [m + 1 + |EncodeCode(els)|])
    case _ => [i]
  }

  function Heads(c: Code, i: nat): (hs: seq<nat>)
    ensures if c.Nil? then hs == [] else hs != [] && hs[0] == i
    decreases c, 0
  {
    match c
    case Nil => []
    case Cons(head, tail) => HeadsOf(head, i) + Heads(tail, i + |EncodeInstr(head)|)
  }

  ghost predicate HasTable(body: seq<byte>, pc: nat) {
    exists labels: seq<nat>, default: nat :: TableAt(body, pc, labels, default)
  }

  /** The instruction at `pos` can be decoded and the next one stands at `next`. */
  ghost predicate Link(body: seq<byte>, pos: nat, next: nat) {
    && pos < next <= |body|
    && var op := body[pos];
       if 0x02 <= op <= 0x04 then next == pos + 2
       else if op == 0x00 || op == 0x05 || op == 0x0B || op == 0x0F then next == pos + 1
       else if op == 0x0C || op == 0x0D then
         ReadU32(body[pos + 1..]).Some? && next == pos + 1 + ReadU32(body[pos + 1..]).value.1
       else if op == 0x0E then HasTable(body, pos + 1)
       else C.DispatchEnd(body, op, pos + 1) == Some(next)
  }

  ghost predicate Chain(body: seq<byte>, hs: seq<nat>, stop: nat) {
    forall k :: 0 <= k < |hs| ==> Link(body, hs[k], Behind(hs, k, stop))
  }

  function Behind(hs: seq<nat>, k: nat, stop: nat): nat {
    if k + 1 < |hs| then hs[k + 1] else stop
  }

  lemma ChainJoin(body: seq<byte>, a: seq<nat>, mid: nat, b: seq<nat>, stop: nat)
    requires Chain(body, a, mid) && Chain(body, b, stop) && mid == if b == [] then stop else b[0]
    ensures Chain(body, a + b, stop)
  {
    hide Link;
    forall k | 0 <= k < |a + b|
      ensures Link(body, (a + b)[k], Behind(a + b, k, stop))
    {
      if k < |a| {
        assert Link(body, a[k], Behind(a, k, mid));
      } else {
        assert Link(body, b[k - |a|], Behind(b, k - |a|, stop));
      }
    }
  }

  lemma ChainOne(body: seq<byte>, pos: nat, next: nat)
    requires Link(body, pos, next)
    ensures Chain(body, [pos], next)
  {
    hide Link;
  }

  /** The constructs opened in `hs` end, and have their `else`, at places of `all`. */
  ghost predicate Ends(body: seq<byte>, pos: nat, all: seq<nat>) {
    pos < |body| && 0x02 <= body[pos] <= 0x04 ==>
      && ScanBlockEnd(body, pos + 2).Some?
      && var (e, m) := ScanBlockEnd(body, pos + 2).value;
         && e in all && e < |body| && body[e] == 0x0B
         && (m.Some? ==> m.value in all && m.value < |body| && body[m.value] == 0x05)
  }

  ghost predicate AllEnd(body: seq<byte>, hs: seq<nat>, all: seq<nat>) {
    forall k :: 0 <= k < |hs| ==> Ends(body, hs[k], all)
  }

  lemma EndsJoin(body: seq<byte>, a: seq<nat>, b: seq<nat>, all: seq<nat>)
    requires AllEnd(body, a, all) && AllEnd(body, b, all)
    ensures AllEnd(body, a + b, all)
  {
    hide Ends;
  }

  /** All of `hs` is in `all`. */
  predicate Part(hs: seq<nat>, all: seq<nat>) {
    forall k :: 0 <= k < |hs| ==> hs[k] in all
  }

  lemma PartSplit(a: seq<nat>, b: seq<nat>, all: seq<nat>)
    requires Part(a + b, all)
    ensures Part(a, all) && Part(b, all)
  {
    forall k | 0 <= k < |a| ensures a[k] in all { assert (a + b)[k] == a[k]; }
    forall k | 0 <= k < |b| ensures b[k] in all { assert (a + b)[|a| + k] == b[k]; }
  }

  // ---- instructions ----------------------------------------------------------------------------------------------

  lemma PlainLink(body: seq<byte>, i: nat, op: byte, imm: seq<byte>)
    requires At(body, i, [op] + imm) && WellFormedPlain(op, imm)
    ensures Link(body, i, i + 1 + |imm|) && !(0x02 <= op <= 0x04) && body[i] == op
  {
    hide At, PrefixedImmediate, IsLeb, TwoLebImmediate, LebCount, FixedBytes, C.DispatchEnd, HasTable, ReadU32;
    AtSplit(body, i, [op], imm);
    AtOne(body, i, op);
    C.DispatchPlain(body, i + 1, op, imm);
  }

  lemma BranchLink(body: seq<byte>, i: nat, x: Instr)
    requires (x.Br? || x.BrIf?) && WellFormed(x) && At(body, i, EncodeInstr(x))
    ensures Link(body, i, i + |EncodeInstr(x)|) && !(0x02 <= body[i] <= 0x04)
  {
    AtFits(body, i, EncodeInstr(x));
    hide At, ReadU32, SkipImmediates, IsLeb, LabelOf, HasTable, C.DispatchEnd;
    BranchImmediates(body, i, x);
    ReadAt(body, i + 1, x.target);
  }

  lemma AtFits(body: seq<byte>, i: nat, bs: seq<byte>)
    requires At(body, i, bs)
    ensures i + |bs| <= |body|
  {
  }

  lemma TableLink(body: seq<byte>, i: nat, x: Instr)
    requires x.BrTable? && WellFormed(x) && At(body, i, EncodeInstr(x))
    ensures Link(body, i, i + |EncodeInstr(x)|) && !(0x02 <= body[i] <= 0x04)
  {
    AtFits(body, i, EncodeInstr(x));
    C.TableShape(x);
    hide At, ReadU32, SkipImmediates, IsLeb, LabelOf, C.DispatchEnd, C.TableLabel, WellFormed, ShortLeb, EncodeInstr;
    TableFound(body, i, x);
  }

  lemma TableFound(body: seq<byte>, i: nat, x: Instr)
    requires x.BrTable? && WellFormed(x) && At(body, i, EncodeInstr(x))
    ensures i < |body| && body[i] == 0x0E && HasTable(body, i + 1)
  {
    C.TableShape(x);
    hide At, ReadU32, SkipImmediates, IsLeb, LabelOf, C.TableLabel, ShortLeb, EncodeInstr, WellFormed, TableAt;
    BranchImmediates(body, i, x);
    ReadAt(body, i + 1, x.count);
    AtFits(body, i + 1, x.count);
    LabelsFound(body, i + 1, x, |x.labels| - 1);
  }

  lemma LabelsFound(body: seq<byte>, pc: nat, x: Instr, n: nat)
    requires x.BrTable? && n + 1 == |x.labels| && forall j :: 0 <= j < |x.labels| ==> ShortLeb(x.labels[j])
    requires At(body, pc + |x.count|, Flatten(x.labels)) && pc <= |body|
    requires ReadU32(body[pc..]) == Some((n, |x.count|))
    ensures HasTable(body, pc)
  {
    hide At, ReadU32, LabelOf, C.TableLabel, ShortLeb;
    var labels: seq<nat> := seq(n, j requires 0 <= j < n => LabelOf(x.labels[j]));
    forall j: nat | j <= n
      ensures C.TableLabel(body, pc + |x.count|, j) == Some(LabelOf(x.labels[j]))
    {
      C.FindTableLabel(body, pc + |x.count|, x.labels, j);
    }
    assert TableAt(body, pc, labels, LabelOf(x.labels[n]));
  }

  lemma MarkLink(body: seq<byte>, i: nat, op: byte)
    requires i < |body| && body[i] == op && (op == 0x00 || op == 0x05 || op == 0x0B || op == 0x0F)
    ensures Link(body, i, i + 1)
  {
    hide HasTable, C.DispatchEnd;
  }

  lemma OpenLink(body: seq<byte>, i: nat, op: byte)
    requires i + 1 < |body| && body[i] == op && 0x02 <= op <= 0x04
    ensures Link(body, i, i + 2)
  {
    hide HasTable, C.DispatchEnd;
  }

  // ---- constructs ------------------------------------------------------------------------------------------------

  lemma {:induction false} InstrChain(body: seq<byte>, i: nat, x: Instr)
    requires WellFormed(x) && At(body, i, EncodeInstr(x))
    ensures Chain(body, HeadsOf(x, i), i + |EncodeInstr(x)|)
    decreases x, 1
  {
    hide Chain, At, Link, WellFormedPlain, Heads;
    match x
    case Plain(op, imm) =>
      PlainLink(body, i, op, imm);
      ChainOne(body, i, i + |EncodeInstr(x)|);
    case Unreachable =>
      AtOne(body, i, 0x00);
      MarkLink(body, i, 0x00);
      ChainOne(body, i, i + 1);
    case Return =>
      AtOne(body, i, 0x0F);
      MarkLink(body, i, 0x0F);
      ChainOne(body, i, i + 1);
    case Block(bt, inner) =>
      BlockParts(body, i, 0x02, bt, EncodeCode(inner));
      NestedChain(body, i, 0x02, bt, inner);
    case Loop(bt, inner) =>
      BlockParts(body, i, 0x03, bt, EncodeCode(inner));
      NestedChain(body, i, 0x03, bt, inner);
    case If(bt, thn, None) =>
      assert EncodeInstr(x) == [0x04, bt] + EncodeCode(thn) + [0x0B];
      BlockParts(body, i, 0x04, bt, EncodeCode(thn));
      NestedChain(body, i, 0x04, bt, thn);
    case If(bt, thn, Some(e)) =>
      ElseParts(body, i, bt, EncodeCode(thn), EncodeCode(e));
      IfElseChain(body, i, bt, thn, e);
    case BrTable(_, _) =>
      TableLink(body, i, x);
      ChainOne(body, i, i + |EncodeInstr(x)|);
    case _ =>
      BranchLink(body, i, x);
      ChainOne(body, i, i + |EncodeInstr(x)|);
  }

  lemma {:induction false} NestedChain(body: seq<byte>, i: nat, op: byte, bt: byte, inner: Code)
    requires 0x02 <= op <= 0x04 && WellFormedCode(inner)
    requires At(body, i, [op, bt]) && At(body, i + 2, EncodeCode(inner))
    requires At(body, i + 2 + |EncodeCode(inner)|, [0x0B])
    ensures var e := i + 2 + |EncodeCode(inner)|; Chain(body, [i] + Heads(inner, i + 2) + [e], e + 1)
    decreases inner, 1
  {
    hide Chain, At, Link, EncodeCode, WellFormedCode, Heads;
    var e := i + 2 + |EncodeCode(inner)|;
    AtTwo(body, i, op, bt);
    OpenLink(body, i, op);
    ChainOne(body, i, i + 2);
    CodeChain(body, i + 2, inner);
    AtOne(body, e, 0x0B);
    MarkLink(body, e, 0x0B);
    ChainOne(body, e, e + 1);
    HeadsStart(inner, i + 2, e);
    ChainJoin(body, Heads(inner, i + 2), e, [e], e + 1);
    ChainJoin(body, [i], i + 2, Heads(inner, i + 2) + [e], e + 1);
    assert [i] + Heads(inner, i + 2) + [e] == [i] + (Heads(inner, i + 2) + [e]);
  }

  lemma HeadsStart(c: Code, i: nat, e: nat)
    requires e == i + |EncodeCode(c)|
    ensures (Heads(c, i) + [e])[0] == i
  {
  }

  lemma {:induction false} IfElseChain(body: seq<byte>, i: nat, bt: byte, thn: Code, els: Code)
    requires WellFormedCode(thn) && WellFormedCode(els) && At(body, i, [0x04, bt])
    requires At(body, i + 2, EncodeCode(thn)) && At(body, i + 2 + |EncodeCode(thn)|, [0x05])
    requires At(body, i + 3 + |EncodeCode(thn)|, EncodeCode(els))
    requires At(body, i + 3 + |EncodeCode(thn)| + |EncodeCode(els)|, [0x0B])
    ensures Chain(body, HeadsOf(If(bt, thn, Some(els)), i), i + 4 + |EncodeCode(thn)| + |EncodeCode(els)|)
    decreases If(bt, thn, Some(els)), 0
  {
    hide Chain, At, Link, EncodeCode, WellFormedCode, Heads;
    var m := i + 2 + |EncodeCode(thn)|;
    var e := m + 1 + |EncodeCode(els)|;
    AtTwo(body, i, 0x04, bt);
    OpenLink(body, i, 0x04);
    ChainOne(body, i, i + 2);
    CodeChain(body, i + 2, thn);
    AtOne(body, m, 0x05);
    MarkLink(body, m, 0x05);
    ChainOne(body, m, m + 1);
    CodeChain(body, m + 1, els);
    AtOne(body, e, 0x0B);
    MarkLink(body, e, 0x0B);
    ChainOne(body, e, e + 1);
    HeadsStart(els, m + 1, e);
    ChainJoin(body, Heads(els, m + 1), e, [e], e + 1);
    ChainJoin(body, [m], m + 1, Heads(els, m + 1) + [e], e + 1);
    var rest := [m] + (Heads(els, m + 1) + [e]);
    assert [m] + Heads(els, m + 1) + [e] == rest;
    ChainJoin(body, Heads(thn, i + 2), m, rest, e + 1);
    HeadsFirst(thn, i + 2, rest, m);
    ChainJoin(body, [i], i + 2, Heads(thn, i + 2) + rest, e + 1);
    assert [i] + Heads(thn, i + 2) + rest == [i] + (Heads(thn, i + 2) + rest);
  }

  lemma HeadsFirst(c: Code, i: nat, rest: seq<nat>, m: nat)
    requires m == i + |EncodeCode(c)| && rest != [] && rest[0] == m
    ensures (Heads(c, i) + rest)[0] == i
  {
  }

  lemma {:induction false} CodeChain(body: seq<byte>, i: nat, c: Code)
    requires WellFormedCode(c) && At(body, i, EncodeCode(c))
    ensures Chain(body, Heads(c, i), i + |EncodeCode(c)|)
    decreases c, 0
  {
    hide At, EncodeInstr, WellFormed, HeadsOf, Link;
    if c.Cons? {
      AtSplit(body, i, EncodeInstr(c.head), EncodeCode(c.tail));
      var next := i + |EncodeInstr(c.head)|;
      InstrChain(body, i, c.head);
      CodeChain(body, next, c.tail);
      ChainJoin(body, HeadsOf(c.head, i), next, Heads(c.tail, next), i + |EncodeCode(c)|);
    }
  }

  // ---- ends ------------------------------------------------------------------------------------------------------

  lemma NoEnds(body: seq<byte>, pos: nat, all: seq<nat>)
    requires pos < |body| ==> !(0x02 <= body[pos] <= 0x04)
    ensures AllEnd(body, [pos], all)
  {
  }

  lemma {:induction false} InstrEnds(body: seq<byte>, i: nat, x: Instr, all: seq<nat>)
    requires WellFormed(x) && At(body, i, EncodeInstr(x)) && Part(HeadsOf(x, i), all)
    ensures AllEnd(body, HeadsOf(x, i), all)
    decreases x, 1
  {
    hide AllEnd, At, Link, WellFormedPlain, Heads, Part, Ends;
    match x
    case Plain(op, imm) =>
      PlainLink(body, i, op, imm);
      NoEnds(body, i, all);
    case Unreachable =>
      AtOne(body, i, 0x00);
      NoEnds(body, i, all);
    case Return =>
      AtOne(body, i, 0x0F);
      NoEnds(body, i, all);
    case Block(bt, inner) =>
      BlockParts(body, i, 0x02, bt, EncodeCode(inner));
      NestedEnds(body, i, 0x02, bt, inner, all);
    case Loop(bt, inner) =>
      BlockParts(body, i, 0x03, bt, EncodeCode(inner));
      NestedEnds(body, i, 0x03, bt, inner, all);
    case If(bt, thn, None) =>
      assert EncodeInstr(x) == [0x04, bt] + EncodeCode(thn) + [0x0B];
      BlockParts(body, i, 0x04, bt, EncodeCode(thn));
      NestedEnds(body, i, 0x04, bt, thn, all);
    case If(bt, thn, Some(e)) =>
      ElseParts(body, i, bt, EncodeCode(thn), EncodeCode(e));
      IfElseEnds(body, i, bt, thn, e, all);
    case BrTable(_, _) =>
      TableLink(body, i, x);
      NoEnds(body, i, all);
    case _ =>
      BranchLink(body, i, x);
      NoEnds(body, i, all);
  }

  lemma OpenEnds(body: seq<byte>, i: nat, e: nat, m: Option<nat>, all: seq<nat>)
    requires ScanBlockEnd(body, i + 2) == Some((e, m)) && e in all && e < |body| && body[e] == 0x0B
    requires m.Some? ==> m.value in all && m.value < |body| && body[m.value] == 0x05
    ensures AllEnd(body, [i], all)
  {
    hide ScanBlockEnd;
  }

  lemma Member(hs: seq<nat>, x: nat, all: seq<nat>)
    requires Part(hs, all) && x in hs
    ensures x in all
  {
  }

  lemma {:induction false} NestedEnds(body: seq<byte>, i: nat, op: byte, bt: byte, inner: Code, all: seq<nat>)
    requires 0x02 <= op <= 0x04 && WellFormedCode(inner)
    requires At(body, i, [op, bt]) && At(body, i + 2, EncodeCode(inner))
    requires At(body, i + 2 + |EncodeCode(inner)|, [0x0B])
    requires Part([i] + Heads(inner, i + 2) + [i + 2 + |EncodeCode(inner)|], all)
    ensures AllEnd(body, [i] + Heads(inner, i + 2) + [i + 2 + |EncodeCode(inner)|], all)
    decreases inner, 1
  {
    hide AllEnd, At, EncodeCode, WellFormedCode, Heads, Part, ScanBlockEnd;
    var e := i + 2 + |EncodeCode(inner)|;
    PartSplit([i] + Heads(inner, i + 2), [e], all);
    PartSplit([i], Heads(inner, i + 2), all);
    Member([e], e, all);
    AtOne(body, e, 0x0B);
    ScanFindsEnd(body, i + 2, inner);
    OpenEnds(body, i, e, None, all);
    CodeEnds(body, i + 2, inner, all);
    NoEnds(body, e, all);
    EndsJoin(body, [i], Heads(inner, i + 2), all);
    EndsJoin(body, [i] + Heads(inner, i + 2), [e], all);
  }

  lemma {:induction false} IfElseEnds(body: seq<byte>, i: nat, bt: byte, thn: Code, els: Code, all: seq<nat>)
    requires WellFormedCode(thn) && WellFormedCode(els) && At(body, i, [0x04, bt])
    requires At(body, i + 2, EncodeCode(thn)) && At(body, i + 2 + |EncodeCode(thn)|, [0x05])
    requires At(body, i + 3 + |EncodeCode(thn)|, EncodeCode(els))
    requires At(body, i + 3 + |EncodeCode(thn)| + |EncodeCode(els)|, [0x0B])
    requires Part(HeadsOf(If(bt, thn, Some(els)), i), all)
    ensures AllEnd(body, HeadsOf(If(bt, thn, Some(els)), i), all)
    decreases If(bt, thn, Some(els)), 0
  {
    hide AllEnd, At, EncodeCode, WellFormedCode, Heads, Part, ScanBlockEnd;
    var m := i + 2 + |EncodeCode(thn)|;
    var e := m + 1 + |EncodeCode(els)|;
    PartSplit([i] + Heads(thn, i + 2), [m] + Heads(els, m + 1) + [e], all);
    PartSplit([i], Heads(thn, i + 2), all);
    PartSplit([m] + Heads(els, m + 1), [e], all);
    PartSplit([m], Heads(els, m + 1), all);
    Member([e], e, all);
    Member([m], m, all);
    AtOne(body, m, 0x05);
    AtOne(body, e, 0x0B);
    ScanFindsElse(body, i + 2, thn, els);
    OpenEnds(body, i, e, Some(m), all);
    CodeEnds(body, i + 2, thn, all);
    CodeEnds(body, m + 1, els, all);
    NoEnds(body, m, all);
    NoEnds(body, e, all);
    EndsJoin(body, [m], Heads(els, m + 1), all);
    EndsJoin(body, [m] + Heads(els, m + 1), [e], all);
    EndsJoin(body, [i], Heads(thn, i + 2), all);
    EndsJoin(body, [i] + Heads(thn, i + 2), [m] + Heads(els, m + 1) + [e], all);
  }

  lemma {:induction false} CodeEnds(body: seq<byte>, i: nat, c: Code, all: seq<nat>)
    requires WellFormedCode(c) && At(body, i, EncodeCode(c)) && Part(Heads(c, i), all)
    ensures AllEnd(body, Heads(c, i), all)
    decreases c, 0
  {
    hide At, EncodeInstr, WellFormed, HeadsOf, Part, AllEnd;
    if c.Cons? {
      AtSplit(body, i, EncodeInstr(c.head), EncodeCode(c.tail));
      var next := i + |EncodeInstr(c.head)|;
      PartSplit(HeadsOf(c.head, i), Heads(c.tail, next), all);
      InstrEnds(body, i, c.head, all);
      CodeEnds(body, next, c.tail, all);
      EndsJoin(body, HeadsOf(c.head, i), Heads(c.tail, next), all);
    } else {
      assert AllEnd(body, [], all) by { NothingEnds(body, all); }
    }
  }

  lemma NothingEnds(body: seq<byte>, all: seq<nat>)
    ensures AllEnd(body, [], all)
  {
  }

  // ---- the decoded list ------------------------------------------------------------------------------------------

  /** Instruction `i` is what stands at the `k`-th place. */
  predicate Right(body: seq<byte>, hs: seq<nat>, k: nat, i: M.Instr)
    requires k < |hs|
  {
    var at := hs + [|body|];
    at[k] < |body| && at[k + 1] <= |body| && DecodedAt(body, at, k, i)
  }

  lemma Linked(body: seq<byte>, hs: seq<nat>, k: nat)
    requires k < |hs| && Chain(body, hs, |body|)
    ensures Link(body, hs[k], Behind(hs, k, |body|)) && hs[k] < Behind(hs, k, |body|) <= |body|
    ensures (hs + [|body|])[k] == hs[k] && (hs + [|body|])[k + 1] == Behind(hs, k, |body|)
  {
    hide C.DispatchEnd, HasTable, ReadU32;
  }

  lemma MarkIndex(body: seq<byte>, hs: seq<nat>, pos: nat) returns (k: nat)
    requires Chain(body, hs, |body|) && pos in hs && pos < |body| && (body[pos] == 0x05 || body[pos] == 0x0B)
    ensures Marks(hs + [|body|], k, pos)
  {
    k :| 0 <= k < |hs| && hs[k] == pos;
    hide Chain;
    Linked(body, hs, k);
    hide C.DispatchEnd, HasTable, ReadU32;
  }

  lemma PickOpen(body: seq<byte>, hs: seq<nat>, k: nat) returns (i: M.Instr)
    requires k < |hs| && Chain(body, hs, |body|) && Ends(body, hs[k], hs)
    requires hs[k] < |body| && 0x02 <= body[hs[k]] <= 0x04
    ensures Right(body, hs, k, i)
  {
    hide Chain, ScanBlockEnd, C.TableLabel, C.DispatchEnd, ReadU32, HasTable, Marks, Behind;
    Linked(body, hs, k);
    var pos, op := hs[k], body[hs[k]];
    var (e, m) := ScanBlockEnd(body, pos + 2).value;
    var ek := MarkIndex(body, hs, e);
    var mk: Option<nat> := None;
    if m.Some? {
      var j := MarkIndex(body, hs, m.value);
      mk := Some(j);
    }
    i := if op == 0x02 then M.Block(ek) else if op == 0x03 then M.Loop(ek) else M.If(ek, mk);
    IsOpen(body, hs, k, i, e, m, ek, mk);
  }

  lemma IsOpen(body: seq<byte>, hs: seq<nat>, k: nat, i: M.Instr, e: nat, m: Option<nat>, ek: nat, mk: Option<nat>)
    requires k < |hs| && hs[k] < |body| && 0x02 <= body[hs[k]] <= 0x04
    requires var at := hs + [|body|];
             && at[k + 1] == hs[k] + 2 <= |body| && ScanBlockEnd(body, hs[k] + 2) == Some((e, m)) && Marks(at, ek, e)
             && (m.Some? <==> mk.Some?) && (m.Some? ==> Marks(at, mk.value, m.value))
    requires i == if body[hs[k]] == 0x02 then M.Block(ek) else if body[hs[k]] == 0x03 then M.Loop(ek) else M.If(ek, mk)
    ensures Right(body, hs, k, i)
  {
    hide ScanBlockEnd, C.TableLabel, C.DispatchEnd, ReadU32, Marks;
  }

  lemma PickOther(body: seq<byte>, hs: seq<nat>, k: nat) returns (i: M.Instr)
    requires k < |hs| && Chain(body, hs, |body|) && hs[k] < |body| && !(0x02 <= body[hs[k]] <= 0x04)
    ensures Right(body, hs, k, i)
  {
    hide Chain, ScanBlockEnd, C.TableLabel, C.DispatchEnd, ReadU32, Behind, TableAt;
    Linked(body, hs, k);
    var pos, op := hs[k], body[hs[k]];
    if op == 0x0C || op == 0x0D {
      var n := ReadU32(body[pos + 1..]).value.0;
      i := if op == 0x0C then M.Br(n) else M.BrIf(n);
    } else if op == 0x0E {
      var labels: seq<nat>, default: nat :| TableAt(body, pos + 1, labels, default);
      i := M.BrTable(labels, default);
    } else {
      i := if op == 0x00 then M.Trap else if op == 0x05 then M.Else else if op == 0x0B then M.End
           else if op == 0x0F then M.Return else M.Nop;
    }
  }

  /** Some instruction is what stands there. */
  lemma Pick(body: seq<byte>, hs: seq<nat>, k: nat) returns (i: M.Instr)
    requires k < |hs| && Chain(body, hs, |body|) && AllEnd(body, hs, hs)
    ensures Right(body, hs, k, i)
  {
    assert Ends(body, hs[k], hs);
    hide Chain, AllEnd, Link, Right, Ends;
    Linked(body, hs, k);
    if 0x02 <= body[hs[k]] <= 0x04 { i := PickOpen(body, hs, k); } else { i := PickOther(body, hs, k); }
  }

  /** For every function body that encodes structured code there are decoded instructions as the run loop takes them. */
  lemma DecodingExists(code: Code) returns (list: seq<M.Instr>, at: seq<nat>)
    requires WellFormedCode(code)
    ensures Decodes(EncodeCode(code) + [0x0B], list, at)
  {
    var body, hs := EncodeCode(code) + [0x0B], Heads(code, 0) + [|EncodeCode(code)|];
    BodyChain(code);
    BodyEnds(code);
    hide *;
    list := PickAll(body, hs);
    at := hs + [|body|];
    AllRight(body, hs, list);
  }

  lemma PickAll(body: seq<byte>, hs: seq<nat>) returns (list: seq<M.Instr>)
    requires Chain(body, hs, |body|) && AllEnd(body, hs, hs)
    ensures |list| == |hs| && forall j :: 0 <= j < |list| ==> Right(body, hs, j, list[j])
  {
    hide *;
    list := [];
    while |list| < |hs|
      invariant |list| <= |hs|
      invariant forall j :: 0 <= j < |list| ==> Right(body, hs, j, list[j])
    {
      var i := Pick(body, hs, |list|);
      list := list + [i];
    }
  }

  lemma AllRight(body: seq<byte>, hs: seq<nat>, list: seq<M.Instr>)
    requires |list| == |hs| > 0 && hs[0] == 0 && forall j :: 0 <= j < |list| ==> Right(body, hs, j, list[j])
    ensures Decodes(body, list, hs + [|body|])
  {
    hide DecodedAt;
    forall k | 0 <= k < |list|
      ensures InstrAt(body, list, hs + [|body|], k)
    {
      assert Right(body, hs, k, list[k]);
    }
  }

  /** A body is the code and an `end`. */
  lemma BodyForm(code: Code)
    ensures var body, n := EncodeCode(code) + [0x0B], |EncodeCode(code)|;
            && n + 1 == |body| && body[n] == 0x0B && At(body, 0, EncodeCode(code))
            && (Heads(code, 0) + [n])[0] == 0
  {
    var body := EncodeCode(code) + [0x0B];
    assert code.Nil? ==> |EncodeCode(code)| == 0;
    hide EncodeCode;
    assert body[0..0 + |EncodeCode(code)|] == EncodeCode(code);
  }

  lemma BodyChain(code: Code)
    requires WellFormedCode(code)
    ensures var body, hs := EncodeCode(code) + [0x0B], Heads(code, 0) + [|EncodeCode(code)|];
            Chain(body, hs, |body|) && hs[0] == 0
  {
    hide *;
    var body, n := EncodeCode(code) + [0x0B], |EncodeCode(code)|;
    BodyForm(code);
    CodeChain(body, 0, code);
    MarkLink(body, n, 0x0B);
    ChainOne(body, n, n + 1);
    ChainJoin(body, Heads(code, 0), n, [n], n + 1);
  }

  lemma BodyEnds(code: Code)
    requires WellFormedCode(code)
    ensures var hs := Heads(code, 0) + [|EncodeCode(code)|]; AllEnd(EncodeCode(code) + [0x0B], hs, hs)
  {
    hide *;
    var body, n := EncodeCode(code) + [0x0B], |EncodeCode(code)|;
    var hs := Heads(code, 0) + [n];
    BodyForm(code);
    PartSelf(hs);
    PartSplit(Heads(code, 0), [n], hs);
    CodeEnds(body, 0, code, hs);
    NoEnds(body, n, hs);
    EndsJoin(body, Heads(code, 0), [n], hs);
  }

  lemma PartSelf(hs: seq<nat>)
    ensures Part(hs, hs)
  {
  }
}
