/** The assembler's instruction parser: folded S-expressions to a flat instruction list. Tokens are taken after keyword
    recognition; `None` results stand for the parser's panics. */
module Folded {
  import opened Words
  import opened Opcode
  import opened Emitter

  // ---- tokens ------------------------------------------------------------------------------------------------

  /** Keywords by what the parser does with them. `if`, `block` and `loop` open a construct. */
  datatype Keyword =
    | Bare(op: byte) | WithIndex(op: byte) | WithConst(op: byte) | WithMemory(op: byte) | Opener(op: byte)
    | Then | Result | Type(t: ValType) | Offset(n: u32) | Align(n: u32) | Unknown

  datatype Token = LParen | RParen | Kw(k: Keyword) | Ident(name: string) | Int(n: int) | Other

  type Tokens = seq<Token>

  /** A parser's value and the tokens left. */
  datatype Parsed<+T> = Parsed(value: T, rest: Tokens) | Panic

  predicate Starts(ts: Tokens, t: Token) {
    ts != [] && ts[0] == t
  }

  function Close<T>(value: T, ts: Tokens): (r: Parsed<T>)
    ensures r.Parsed? ==> |r.rest| < |ts|
  {
    if Starts(ts, RParen) then Parsed(value, ts[1..]) else Panic
  }

  // ---- immediates --------------------------------------------------------------------------------------------

  const VOID: byte := 0x40

  /** `parse_block_type`: only `(result t)` is consumed, any other list is left as it stands. */
  function BlockType(ts: Tokens): (r: Parsed<byte>)
    ensures r.Parsed? ==> |r.rest| <= |ts|
  {
    if Starts(ts, LParen) && Starts(ts[1..], Kw(Result)) then ResultType(ts[2..]) else Parsed(VOID, ts)
  }

  /** After `(result`: one token that should be a type, and the parenthesis. */
  function ResultType(ts: Tokens): (r: Parsed<byte>)
    ensures r.Parsed? ==> |r.rest| <= |ts|
  {
    var bt := if ts != [] && ts[0].Kw? && ts[0].k.Type? then TypeByte(ts[0].k.t) else VOID;
    Close(bt, if ts != [] then ts[1..] else [])
  }

  function MemArg(ts: Tokens, offset: u32, align: u32): (r: ((u32, u32), Tokens))
    ensures |r.1| <= |ts|
  {
    if ts != [] && ts[0].Kw? && ts[0].k.Offset? then MemArg(ts[1..], ts[0].k.n, align)
    else if ts != [] && ts[0].Kw? && ts[0].k.Align? then MemArg(ts[1..], offset, ts[0].k.n)
    else ((offset, align), ts)
  }

  /** Integer tokens are 32-bit. */
  function AsU32(n: int): u32 {
    n % TWO32
  }

  /** `build_instr`; `names` resolves identifiers. */
  function Build(names: (byte, string) -> u32, k: Keyword, ts: Tokens): (r: Parsed<Option<Instr>>)
    ensures r.Parsed? ==> |r.rest| <= |ts|
  {
    match k
    case Bare(op) => Parsed(Some(Simple(op)), ts)
    case WithIndex(op) =>
      if ts != [] && ts[0].Int? then Parsed(Some(Indexed(op, AsU32(ts[0].n))), ts[1..])
      else if ts != [] && ts[0].Ident? then Parsed(Some(Indexed(op, names(op, ts[0].name))), ts[1..])
      else Parsed(Some(Indexed(op, 0)), ts)
    case WithConst(op) =>
      if ts != [] && ts[0].Int? then Parsed(Some(Const(op, ts[0].n)), ts[1..]) else Parsed(Some(Const(op, 0)), ts)
    case WithMemory(op) =>
      var ((offset, align), rest) := MemArg(ts, 0, 0);
      Parsed(Some(Memory(op, align, offset)), rest)
    case Opener(op) =>
      (match BlockType(ts)
       case Panic => Panic
       case Parsed(bt, rest) => Parsed(Some(Typed(op, bt)), rest))
    case _ => Parsed(None, ts)
  }

  /** `skip_rest_of_list`. */
  function Skip(ts: Tokens, depth: nat): (r: Parsed<seq<Instr>>)
    ensures r.Parsed? ==> |r.rest| <= |ts|
    decreases |ts|
  {
    if depth == 0 then Parsed([], ts)
    else if ts == [] then Panic
    else if ts[0] == LParen then Skip(ts[1..], depth + 1)
    else if ts[0] == RParen then Skip(ts[1..], depth - 1)
    else Skip(ts[1..], depth)
  }

  function Label(ts: Tokens): (r: Tokens)
    ensures |r| <= |ts|
  {
    if ts != [] && ts[0].Ident? then ts[1..] else ts
  }

  function OptionToSeq(i: Option<Instr>): seq<Instr> {
    match i case None => [] case Some(x) => [x]
  }

  // ---- the parser --------------------------------------------------------------------------------------------

  /** `parse_instrs`. */
  function Instrs(names: (byte, string) -> u32, ts: Tokens): (r: Parsed<seq<Instr>>)
    ensures r.Parsed? ==> |r.rest| <= |ts|
    decreases |ts|, 0
  {
    if ts == [] || ts[0] == RParen then Parsed([], ts)
    else if ts[0] == LParen then
      match FoldedInstr(names, ts[1..])
      case Panic => Panic
      case Parsed(xs, rest) => Prepend(xs, Instrs(names, rest))
    else if ts[0].Kw? then
      match Build(names, ts[0].k, ts[1..])
      case Panic => Panic
      case Parsed(x, rest) => Prepend(OptionToSeq(x), Instrs(names, rest))
    else Instrs(names, ts[1..])
  }

  function Prepend(xs: seq<Instr>, r: Parsed<seq<Instr>>): (p: Parsed<seq<Instr>>)
    ensures p.Parsed? <==> r.Parsed?
    ensures p.Parsed? ==> p.rest == r.rest
  {
    match r case Panic => Panic case Parsed(ys, rest) => Parsed(xs + ys, rest)
  }

  /** `parse_folded_instr`, after its opening parenthesis. */
  function FoldedInstr(names: (byte, string) -> u32, ts: Tokens): (r: Parsed<seq<Instr>>)
    ensures r.Parsed? ==> |r.rest| <= |ts|
    decreases |ts|, 0
  {
    if ts != [] && ts[0].Kw? then
      if ts[0].k == Opener(IF) then FoldedIf(names, ts[1..])
      else if ts[0].k.Opener? then
        match BlockType(Label(ts[1..]))
        case Panic => Panic
        case Parsed(bt, r1) =>
          match Instrs(names, r1)
          case Panic => Panic
          case Parsed(body, r2) => Close([Typed(ts[0].k.op, bt)] + body + [Simple(END)], r2)
      else
        match Build(names, ts[0].k, ts[1..])
        case Panic => Panic
        case Parsed(op, r1) =>
          match Operands(names, r1)
          case Panic => Panic
          case Parsed(subs, r2) => Close(subs + OptionToSeq(op), r2)
    else Skip(ts, 1)
  }

  /** The operand loop. */
  function Operands(names: (byte, string) -> u32, ts: Tokens): (r: Parsed<seq<Instr>>)
    ensures r.Parsed? ==> |r.rest| <= |ts|
    decreases |ts|, 0
  {
    if Starts(ts, LParen) then
      match FoldedInstr(names, ts[1..])
      case Panic => Panic
      case Parsed(xs, rest) => Prepend(xs, Operands(names, rest))
    else Parsed([], ts)
  }

  /** The condition loop of `parse_folded_if`, up to and including `(then …)`. */
  function Condition(names: (byte, string) -> u32, ts: Tokens): (r: Parsed<(seq<Instr>, seq<Instr>)>)
    ensures r.Parsed? ==> |r.rest| <= |ts|
    decreases |ts|, 0
  {
    if Starts(ts, LParen) then
      if Starts(ts[1..], Kw(Then)) then
        match Instrs(names, ts[2..])
        case Panic => Panic
        case Parsed(thn, rest) => Close(([], thn), rest)
      else
        match FoldedInstr(names, ts[1..])
        case Panic => Panic
        case Parsed(xs, rest) =>
          match Condition(names, rest)
          case Panic => Panic
          case Parsed((cond, thn), r2) => Parsed((xs + cond, thn), r2)
    else Parsed(([], []), ts)
  }

  function ElsePart(names: (byte, string) -> u32, ts: Tokens): (r: Parsed<seq<Instr>>)
    ensures r.Parsed? ==> |r.rest| <= |ts|
    decreases |ts|, 0
  {
    if Starts(ts, LParen) then
      if Starts(ts[1..], Kw(Bare(ELSE))) then
        match Instrs(names, ts[2..])
        case Panic => Panic
        case Parsed(els, rest) => Close(els, rest)
      else Skip(ts[1..], 1)
    else Parsed([], ts)
  }

  function IfInstrs(bt: byte, cond: seq<Instr>, thn: seq<Instr>, els: seq<Instr>): seq<Instr> {
    cond + [Typed(IF, bt)] + thn + (if els != [] then [Simple(ELSE)] + els else []) + [Simple(END)]
  }

  /** `parse_folded_if`, after the keyword. */
  function FoldedIf(names: (byte, string) -> u32, ts: Tokens): (r: Parsed<seq<Instr>>)
    ensures r.Parsed? ==> |r.rest| <= |ts|
    decreases |ts|, 1
  {
    match BlockType(Label(ts))
    case Panic => Panic
    case Parsed(bt, r1) =>
      match Condition(names, r1)
      case Panic => Panic
      case Parsed((cond, thn), r2) =>
        match ElsePart(names, r2)
        case Panic => Panic
        case Parsed(els, r3) => Close(IfInstrs(bt, cond, thn, els), r3)
  }

  // ---- expression trees --------------------------------------------------------------------------------------

  /** How an index is written: as a number, which is taken modulo 2^32, as an identifier, or not at all. */
  datatype IndexText = Number(n: int) | Named(name: string) | Missing

  /** An operator with its immediates, as written: `given` is false for a constant without a number, an offset or an
      alignment may be missing, and they may stand in either order. */
  datatype Op =
    | NoImm(op: byte)
    | Idx(op: byte, i: u32, text: IndexText)
    | Cst(op: byte, v: int, given: bool)
    | Mem(op: byte, offset: Option<u32>, align: Option<u32>, alignFirst: bool)

  datatype Expr =
    | Apply(op: Op, args: Exprs)
    | If(lbl: Option<string>, bt: Option<ValType>, cond: Exprs, thn: Body, els: Option<Body>)
    | Nest(opener: byte, lbl: Option<string>, bt: Option<ValType>, body: Body)

  datatype Exprs = Nil | Cons(head: Expr, tail: Exprs)

  /** Bodies mix folded expressions with flat instructions; a flat opener carries its block type. */
  datatype Body =
    | Empty
    | Fold(e: Expr, tail: Body)
    | Flat(op: Op, tail: Body)
    | FlatOpen(opener: byte, bt: Option<ValType>, tail: Body)

  function OpTokens(o: Op): Tokens {
    match o
    case NoImm(op) => [Kw(Bare(op))]
    case Idx(op, _, text) => [Kw(WithIndex(op))] + IndexTokens(text)
    case Cst(op, v, given) => [Kw(WithConst(op))] + if given then [Int(v)] else []
    case Mem(op, offset, align, alignFirst) =>
      var o := if offset.Some? then [Kw(Offset(offset.value))] else [];
      var a := if align.Some? then [Kw(Align(align.value))] else [];
      [Kw(WithMemory(op))] + if alignFirst then a + o else o + a
  }

  function IndexTokens(t: IndexText): Tokens {
    match t
    case Number(n) => [Int(n)]
    case Named(name) => [Ident(name)]
    case Missing => []
  }

  /** The index a text stands for; what is missing is 0. */
  predicate Resolves(names: (byte, string) -> u32, o: Op) {
    match o
    case Idx(op, i, Number(n)) => i == n % 0x1_0000_0000
    case Idx(op, i, Named(name)) => i == names(op, name)
    case Idx(_, i, Missing) => i == 0
    case Cst(_, v, given) => given || v == 0
    case _ => true
  }

  function OpInstr(o: Op): Instr {
    match o
    case NoImm(op) => Simple(op)
    case Idx(op, i, _) => Indexed(op, i)
    case Cst(op, v, _) => Const(op, v)
    case Mem(op, offset, align, _) =>
      Memory(op, if align.Some? then align.value else 0, if offset.Some? then offset.value else 0)
  }

  function LabelTokens(l: Option<string>): Tokens {
    match l case None => [] case Some(s) => [Ident(s)]
  }

  function TypeTokens(bt: Option<ValType>): Tokens {
    match bt case None => [] case Some(t) => [LParen, Kw(Result), Kw(Type(t)), RParen]
  }

  function TypeOf(bt: Option<ValType>): byte {
    match bt
    case None => 0x40
    case Some(I32) => 0x7F
    case Some(I64) => 0x7E
    case Some(F32) => 0x7D
    case Some(F64) => 0x7C
  }

  /** The tokens of an expression after its opening parenthesis. */
  function Inner(e: Expr): Tokens
    decreases e, 1
  {
    match e
    case Apply(op, args) => OpTokens(op) + ArgTokens(args) + [RParen]
    case If(l, bt, cond, thn, els) =>
      [Kw(Opener(IF))] + LabelTokens(l) + TypeTokens(bt) + ArgTokens(cond)
      + [LParen, Kw(Then)] + BodyTokens(thn) + [RParen] + ElseTokens(els) + [RParen]
    case Nest(op, l, bt, body) =>
      [Kw(Opener(op))] + LabelTokens(l) + TypeTokens(bt) + BodyTokens(body) + [RParen]
  }

  function ElseTokens(els: Option<Body>): Tokens
    decreases els, 0
  {
    match els
    case None => []
    case Some(b) => [LParen, Kw(Bare(ELSE))] + BodyTokens(b) + [RParen]
  }

  function ArgTokens(es: Exprs): Tokens
    decreases es, 0
  {
    match es case Nil => [] case Cons(e, tail) => [LParen] + Inner(e) + ArgTokens(tail)
  }

  function BodyTokens(b: Body): Tokens
    decreases b, 0
  {
    match b
    case Empty => []
    case Fold(e, tail) => [LParen] + Inner(e) + BodyTokens(tail)
    case Flat(op, tail) => OpTokens(op) + BodyTokens(tail)
    case FlatOpen(op, bt, tail) => [Kw(Opener(op))] + TypeTokens(bt) + BodyTokens(tail)
  }

  /** The instruction list an expression means: operands first, then the operator. */
  function Post(e: Expr): seq<Instr>
    decreases e, 1
  {
    match e
    case Apply(op, args) => PostArgs(args) + [OpInstr(op)]
    case If(_, bt, cond, thn, els) =>
      PostArgs(cond) + [Typed(0x04, TypeOf(bt))] + PostBody(thn)
      + (if els.Some? && PostBody(els.value) != [] then [Simple(0x05)] + PostBody(els.value) else []) + [Simple(0x0B)]
    case Nest(op, _, bt, body) => [Typed(op, TypeOf(bt))] + PostBody(body) + [Simple(0x0B)]
  }

  function PostArgs(es: Exprs): seq<Instr>
    decreases es, 0
  {
    match es case Nil => [] case Cons(e, tail) => Post(e) + PostArgs(tail)
  }

  function PostBody(b: Body): seq<Instr>
    decreases b, 0
  {
    match b
    case Empty => []
    case Fold(e, tail) => Post(e) + PostBody(tail)
    case Flat(op, tail) => [OpInstr(op)] + PostBody(tail)
    case FlatOpen(op, bt, tail) => [Typed(op, TypeOf(bt))] + PostBody(tail)
  }

  /** Expressions whose nested constructs are really `block` or `loop`, and whose indices are what their texts mean. */
  predicate Proper(names: (byte, string) -> u32, e: Expr)
    decreases e, 1
  {
    match e
    case Apply(op, args) => Resolves(names, op) && ProperArgs(names, args)
    case If(_, _, cond, thn, els) =>
      ProperArgs(names, cond) && ProperBody(names, thn) && (els.Some? ==> ProperBody(names, els.value))
    case Nest(op, _, _, body) => op != IF && ProperBody(names, body)
  }

  predicate ProperArgs(names: (byte, string) -> u32, es: Exprs)
    decreases es, 0
  {
    match es case Nil => true case Cons(e, tail) => Proper(names, e) && ProperArgs(names, tail)
  }

  predicate ProperBody(names: (byte, string) -> u32, b: Body)
    decreases b, 0
  {
    match b
    case Empty => true
    case Fold(e, tail) => Proper(names, e) && ProperBody(names, tail)
    case Flat(op, tail) => Resolves(names, op) && ProperBody(names, tail)
    case FlatOpen(_, _, tail) => ProperBody(names, tail)
  }

  // ---- parsing the tokens of a tree gives its post-order --------------------------------------------------------

  /** What may follow a complete item: the end, a closing parenthesis, another item. */
  predicate Follows(ts: Tokens) {
    || ts == []
    || ts[0] == RParen
    || (ts[0] == LParen && |ts| > 1 && ts[1].Kw? && ts[1] != Kw(Result))
    || (ts[0].Kw? && !ts[0].k.Offset? && !ts[0].k.Align?)
  }

  predicate Closes(ts: Tokens) {
    ts == [] || ts[0] == RParen
  }

  lemma InnerHead(e: Expr)
    ensures Inner(e) != [] && Inner(e)[0].Kw?
    ensures Inner(e)[0] != Kw(Then) && Inner(e)[0] != Kw(Result)
  {
  }

  lemma ArgsFollow(es: Exprs, rest: Tokens)
    requires Follows(rest)
    ensures Follows(ArgTokens(es) + rest)
  {
    if es.Cons? {
      InnerHead(es.head);
      var ts := ArgTokens(es) + rest;
      assert ts[1] == Inner(es.head)[0];
    } else {
      assert ArgTokens(es) + rest == rest;
    }
  }

  lemma BodyFollows(b: Body, rest: Tokens)
    requires Closes(rest)
    ensures Follows(BodyTokens(b) + rest)
  {
    if b.Fold? {
      InnerHead(b.e);
      var ts := BodyTokens(b) + rest;
      assert ts[1] == Inner(b.e)[0];
    } else if b.Empty? {
      assert BodyTokens(b) + rest == rest;
    }
  }

  lemma OpParsed(names: (byte, string) -> u32, o: Op, rest: Tokens)
    requires Follows(rest) && Resolves(names, o)
    ensures var ts := OpTokens(o) + rest;
            && ts != [] && ts[0].Kw? && !ts[0].k.Opener?
            && Build(names, ts[0].k, ts[1..]) == Parsed(Some(OpInstr(o)), rest)
  {
    hide Build, Follows, IndexTokens, MemArg;
    match o
    case NoImm(op) =>
      Cut([Kw(Bare(op))], rest);
      BareParsed(names, op, rest);
    case Idx(op, i, text) =>
      SplitHead([Kw(WithIndex(op))], IndexTokens(text), rest);
      IndexParsed(names, op, i, text, rest);
    case Cst(op, v, given) =>
      SplitHead([Kw(WithConst(op))], if given then [Int(v)] else [], rest);
      ConstParsed(names, op, v, given, rest);
    case Mem(op, _, _, _) =>
      MemParsed(o, rest);
      MemoryBuilt(names, op, (OpTokens(o) + rest)[1..]);
  }

  lemma SplitHead(k: Tokens, x: Tokens, rest: Tokens)
    requires |k| == 1
    ensures (k + x + rest) != [] && (k + x + rest)[0] == k[0] && (k + x + rest)[1..] == x + rest
  {
  }

  lemma BareParsed(names: (byte, string) -> u32, op: byte, rest: Tokens)
    ensures Build(names, Bare(op), rest) == Parsed(Some(Simple(op)), rest)
  {
  }

  lemma MemoryBuilt(names: (byte, string) -> u32, op: byte, ts: Tokens)
    ensures var ((offset, align), rest) := MemArg(ts, 0, 0);
            Build(names, WithMemory(op), ts) == Parsed(Some(Memory(op, align, offset)), rest)
  {
    hide MemArg;
  }

  lemma IndexParsed(names: (byte, string) -> u32, op: byte, i: u32, text: IndexText, rest: Tokens)
    requires Follows(rest) && Resolves(names, Idx(op, i, text))
    ensures Build(names, WithIndex(op), IndexTokens(text) + rest) == Parsed(Some(Indexed(op, i)), rest)
  {
    if text == Missing { assert IndexTokens(text) + rest == rest; } else { Cut(IndexTokens(text), rest); }
  }

  lemma ConstParsed(names: (byte, string) -> u32, op: byte, v: int, given: bool, rest: Tokens)
    requires Follows(rest) && (given || v == 0)
    ensures Build(names, WithConst(op), (if given then [Int(v)] else []) + rest) == Parsed(Some(Const(op, v)), rest)
  {
    if given { Cut([Int(v)], rest); } else { assert [] + rest == rest; }
  }

  /** The immediates of a memory instruction, those that are there, in either order. */
  lemma MemParsed(o: Op, rest: Tokens)
    requires o.Mem? && Follows(rest)
    ensures (OpTokens(o) + rest)[0] == Kw(WithMemory(o.op))
    ensures MemArg((OpTokens(o) + rest)[1..], 0, 0)
            == ((if o.offset.Some? then o.offset.value else 0, if o.align.Some? then o.align.value else 0), rest)
  {
    var offset, align := if o.offset.Some? then o.offset.value else 0, if o.align.Some? then o.align.value else 0;
    var x := if o.offset.Some? then [Kw(Offset(offset))] else [];
    var y := if o.align.Some? then [Kw(Align(align))] else [];
    assert MemArg(rest, offset, align) == ((offset, align), rest);
    if o.alignFirst {
      assert (OpTokens(o) + rest)[1..] == y + (x + rest);
      assert MemArg(x + rest, 0, align) == ((offset, align), rest) by { MemNext(x, rest, 0, align); }
      MemNext(y, x + rest, 0, 0);
    } else {
      assert (OpTokens(o) + rest)[1..] == x + (y + rest);
      assert MemArg(y + rest, offset, 0) == ((offset, align), rest) by { MemNext(y, rest, offset, 0); }
      MemNext(x, y + rest, 0, 0);
    }
  }

  /** At most one immediate more. */
  lemma MemNext(x: Tokens, rest: Tokens, offset: u32, align: u32)
    requires x == [] || (|x| == 1 && x[0].Kw? && (x[0].k.Offset? || x[0].k.Align?))
    ensures MemArg(x + rest, offset, align)
            == if x == [] then MemArg(rest, offset, align)
               else if x[0].k.Offset? then MemArg(rest, x[0].k.n, align)
               else MemArg(rest, offset, x[0].k.n)
  {
    if x == [] { assert x + rest == rest; } else { Cut(x, rest); }
  }

  lemma TypeParsed(bt: Option<ValType>, rest: Tokens)
    requires Follows(rest)
    ensures BlockType(TypeTokens(bt) + rest) == Parsed(TypeOf(bt), rest)
  {
    var ts := TypeTokens(bt) + rest;
    if bt.Some? {
      assert ts[1..][0] == Kw(Result) && ts[3..] == [RParen] + rest;
      assert ts[3..][1..] == rest;
    } else {
      assert ts == rest;
      if Starts(ts, LParen) { assert ts[1..][0] == ts[1]; }
    }
  }

  /** Label and block type of a folded construct. */
  lemma HeaderParsed(l: Option<string>, bt: Option<ValType>, rest: Tokens)
    requires Follows(rest)
    ensures BlockType(Label(LabelTokens(l) + (TypeTokens(bt) + rest))) == Parsed(TypeOf(bt), rest)
  {
    var ts := TypeTokens(bt) + rest;
    if l.Some? {
      assert (LabelTokens(l) + ts)[1..] == ts;
    } else {
      assert LabelTokens(l) + ts == ts;
      if bt.None? { assert ts == rest; }
    }
    TypeParsed(bt, rest);
  }

  lemma Cut(a: Tokens, b: Tokens)
    requires |a| == 1
    ensures (a + b) != [] && (a + b)[0] == a[0] && (a + b)[1..] == b
  {
  }

  /** The folded form of a tree parses to its post-order instruction list, leaving exactly what follows it. */
  lemma {:induction false} FoldedParses(names: (byte, string) -> u32, e: Expr, rest: Tokens)
    requires Proper(names, e)
    ensures FoldedInstr(names, Inner(e) + rest) == Parsed(Post(e), rest)
    decreases e, 1
  {
    match e
    case Apply(op, args) => ApplyParses(names, op, args, rest);
    case If(l, bt, cond, thn, els) => IfParses(names, e, rest);
    case Nest(op, l, bt, body) => NestParses(names, op, l, bt, body, rest);
  }

  lemma {:induction false} ApplyParses(names: (byte, string) -> u32, op: Op, args: Exprs, rest: Tokens)
    requires Resolves(names, op) && ProperArgs(names, args)
    ensures FoldedInstr(names, Inner(Apply(op, args)) + rest) == Parsed(Post(Apply(op, args)), rest)
    decreases args, 2
  {
    hide *;
    var close := [RParen] + rest;
    ApplyTokens(op, args, rest);
    ClosesAfter(rest);
    ArgsFollow(args, close);
    OpParsed(names, op, ArgTokens(args) + close);
    ArgsParse(names, args, close);
    ApplyUnfolds(names, op, args, OpTokens(op) + (ArgTokens(args) + close), rest);
  }

  lemma ApplyTokens(op: Op, args: Exprs, rest: Tokens)
    ensures Inner(Apply(op, args)) + rest == OpTokens(op) + (ArgTokens(args) + ([RParen] + rest))
    ensures Post(Apply(op, args)) == PostArgs(args) + [OpInstr(op)]
  {
    hide OpTokens, ArgTokens, PostArgs, OpInstr;
  }

  lemma ClosesAfter(rest: Tokens)
    ensures Follows([RParen] + rest) && Closes([RParen] + rest)
  {
  }

  /** The operator, then its operands, then the parenthesis. */
  lemma ApplyUnfolds(names: (byte, string) -> u32, op: Op, args: Exprs, ts: Tokens, rest: Tokens)
    requires ts != [] && ts[0].Kw? && !ts[0].k.Opener?
    requires Build(names, ts[0].k, ts[1..]) == Parsed(Some(OpInstr(op)), ArgTokens(args) + ([RParen] + rest))
    requires Operands(names, ArgTokens(args) + ([RParen] + rest)) == Parsed(PostArgs(args), [RParen] + rest)
    ensures FoldedInstr(names, ts) == Parsed(PostArgs(args) + [OpInstr(op)], rest)
  {
    hide Build, Operands, ArgTokens, PostArgs, OpInstr, FoldedIf, BlockType, Instrs, Skip;
    Cut([RParen], rest);
  }

  lemma {:induction false} ArgsParse(names: (byte, string) -> u32, es: Exprs, rest: Tokens)
    requires ProperArgs(names, es) && Closes(rest)
    ensures Operands(names, ArgTokens(es) + rest) == Parsed(PostArgs(es), rest)
    decreases es, 0
  {
    hide FoldedInstr, Inner, Post;
    match es
    case Nil =>
      assert ArgTokens(es) + rest == rest;
    case Cons(e, tail) =>
      var more := ArgTokens(tail) + rest;
      var ts := Inner(e) + more;
      assert ArgTokens(es) + rest == [LParen] + ts;
      Cut([LParen], ts);
      FoldedParses(names, e, more);
      ArgsParse(names, tail, rest);
  }

  // Single unfoldings of the parser.

  lemma InstrsFold(names: (byte, string) -> u32, inner: Tokens, xs: seq<Instr>, more: Tokens, ys: seq<Instr>,
                   rest: Tokens)
    requires FoldedInstr(names, inner) == Parsed(xs, more) && Instrs(names, more) == Parsed(ys, rest)
    ensures Instrs(names, [LParen] + inner) == Parsed(xs + ys, rest)
  {
    Cut([LParen], inner);
    hide FoldedInstr, Build;
  }

  lemma InstrsKeyword(names: (byte, string) -> u32, ts: Tokens, x: Instr, more: Tokens, ys: seq<Instr>, rest: Tokens)
    requires ts != [] && ts[0].Kw? && Build(names, ts[0].k, ts[1..]) == Parsed(Some(x), more)
    requires Instrs(names, more) == Parsed(ys, rest)
    ensures Instrs(names, ts) == Parsed([x] + ys, rest)
  {
    hide FoldedInstr, Build;
  }

  lemma ConditionMore(names: (byte, string) -> u32, inner: Tokens, xs: seq<Instr>, more: Tokens, cond: seq<Instr>,
                      thn: seq<Instr>, rest: Tokens)
    requires inner != [] && inner[0] != Kw(Then)
    requires FoldedInstr(names, inner) == Parsed(xs, more) && Condition(names, more) == Parsed((cond, thn), rest)
    ensures Condition(names, [LParen] + inner) == Parsed((xs + cond, thn), rest)
  {
    Cut([LParen], inner);
    hide FoldedInstr, Instrs;
  }

  lemma ConditionThen(names: (byte, string) -> u32, inner: Tokens, thn: seq<Instr>, rest: Tokens)
    requires Instrs(names, inner) == Parsed(thn, [RParen] + rest)
    ensures Condition(names, [LParen, Kw(Then)] + inner) == Parsed(([], thn), rest)
  {
    var ts := [LParen, Kw(Then)] + inner;
    assert ts[1..] == [Kw(Then)] + inner && ts[2..] == inner;
    Cut([RParen], rest);
    hide FoldedInstr, Instrs;
  }

  lemma FoldedNest(names: (byte, string) -> u32, op: byte, header: Tokens, bt: byte, inside: Tokens, body: seq<Instr>,
                   rest: Tokens)
    requires op != IF && BlockType(Label(header)) == Parsed(bt, inside)
    requires Instrs(names, inside) == Parsed(body, [RParen] + rest)
    ensures FoldedInstr(names, [Kw(Opener(op))] + header) == Parsed([Typed(op, bt)] + body + [Simple(END)], rest)
  {
    Cut([Kw(Opener(op))], header);
    Cut([RParen], rest);
    hide BlockType, Label, Instrs, FoldedIf, Build, Operands;
  }

  lemma {:induction false} BodyParses(names: (byte, string) -> u32, b: Body, rest: Tokens)
    requires ProperBody(names, b) && Closes(rest)
    ensures Instrs(names, BodyTokens(b) + rest) == Parsed(PostBody(b), rest)
    decreases b, 0
  {
    match b
    case Empty =>
      assert BodyTokens(b) + rest == rest;
      hide FoldedInstr, Build;
    case Fold(e, tail) =>
      hide *;
      BodyParses(names, tail, rest);
      FoldedParses(names, e, BodyTokens(tail) + rest);
      FoldThenBody(names, e, tail, rest);
    case Flat(op, tail) =>
      assert Resolves(names, op) && ProperBody(names, tail);
      hide *;
      BodyParses(names, tail, rest);
      FlatThenBody(names, op, tail, rest);
    case FlatOpen(op, bt, tail) =>
      hide *;
      BodyParses(names, tail, rest);
      OpenThenBody(names, op, bt, tail, rest);
  }

  lemma FoldTokens(e: Expr, tail: Body, rest: Tokens)
    ensures BodyTokens(Fold(e, tail)) + rest == [LParen] + (Inner(e) + (BodyTokens(tail) + rest))
    ensures PostBody(Fold(e, tail)) == Post(e) + PostBody(tail)
  {
    hide Inner, Post;
  }

  lemma FoldThenBody(names: (byte, string) -> u32, e: Expr, tail: Body, rest: Tokens)
    requires Instrs(names, BodyTokens(tail) + rest) == Parsed(PostBody(tail), rest)
    requires FoldedInstr(names, Inner(e) + (BodyTokens(tail) + rest)) == Parsed(Post(e), BodyTokens(tail) + rest)
    ensures Instrs(names, BodyTokens(Fold(e, tail)) + rest) == Parsed(PostBody(Fold(e, tail)), rest)
  {
    FoldTokens(e, tail, rest);
    hide *;
    var more := BodyTokens(tail) + rest;
    InstrsFold(names, Inner(e) + more, Post(e), more, PostBody(tail), rest);
  }

  lemma FlatThenBody(names: (byte, string) -> u32, op: Op, tail: Body, rest: Tokens)
    requires Resolves(names, op)
    requires Closes(rest) && Instrs(names, BodyTokens(tail) + rest) == Parsed(PostBody(tail), rest)
    ensures Instrs(names, BodyTokens(Flat(op, tail)) + rest) == Parsed(PostBody(Flat(op, tail)), rest)
  {
    hide Instrs, Build, OpTokens, OpInstr, Follows;
    var more := BodyTokens(tail) + rest;
    assert BodyTokens(Flat(op, tail)) + rest == OpTokens(op) + more;
    BodyFollows(tail, rest);
    OpParsed(names, op, more);
    InstrsKeyword(names, OpTokens(op) + more, OpInstr(op), more, PostBody(tail), rest);
  }

  lemma OpenThenBody(names: (byte, string) -> u32, op: byte, bt: Option<ValType>, tail: Body, rest: Tokens)
    requires Closes(rest) && Instrs(names, BodyTokens(tail) + rest) == Parsed(PostBody(tail), rest)
    ensures Instrs(names, BodyTokens(FlatOpen(op, bt, tail)) + rest) == Parsed(PostBody(FlatOpen(op, bt, tail)), rest)
  {
    OpenTokens(op, bt, tail, rest);
    hide Instrs, Build, TypeTokens, TypeOf, Follows, BodyTokens;
    var more := BodyTokens(tail) + rest;
    var ts := [Kw(Opener(op))] + (TypeTokens(bt) + more);
    BodyFollows(tail, rest);
    OpenParsed(names, op, bt, more);
    InstrsKeyword(names, ts, Typed(op, TypeOf(bt)), more, PostBody(tail), rest);
  }

  lemma OpenTokens(op: byte, bt: Option<ValType>, tail: Body, rest: Tokens)
    ensures BodyTokens(FlatOpen(op, bt, tail)) + rest
            == [Kw(Opener(op))] + (TypeTokens(bt) + (BodyTokens(tail) + rest))
    ensures PostBody(FlatOpen(op, bt, tail)) == [Typed(op, TypeOf(bt))] + PostBody(tail)
  {
    hide TypeTokens, TypeOf;
  }

  lemma OpenParsed(names: (byte, string) -> u32, op: byte, bt: Option<ValType>, rest: Tokens)
    requires Follows(rest)
    ensures var ts := [Kw(Opener(op))] + (TypeTokens(bt) + rest);
            && ts != [] && ts[0] == Kw(Opener(op))
            && Build(names, Opener(op), ts[1..]) == Parsed(Some(Typed(op, TypeOf(bt))), rest)
  {
    TypeParsed(bt, rest);
    Cut([Kw(Opener(op))], TypeTokens(bt) + rest);
    hide BlockType, TypeTokens;
  }

  lemma {:induction false} NestParses(names: (byte, string) -> u32, op: byte, l: Option<string>, bt: Option<ValType>,
                                      body: Body, rest: Tokens)
    requires ProperBody(names, body) && op != IF
    ensures FoldedInstr(names, Inner(Nest(op, l, bt, body)) + rest) == Parsed(Post(Nest(op, l, bt, body)), rest)
    decreases body, 2
  {
    hide FoldedInstr, BlockType, Label, Instrs, BodyTokens, LabelTokens, TypeTokens, TypeOf, PostBody, Follows;
    var close := [RParen] + rest;
    var inside := BodyTokens(body) + close;
    var header := LabelTokens(l) + (TypeTokens(bt) + inside);
    Regroup([Kw(Opener(op))], LabelTokens(l), TypeTokens(bt), BodyTokens(body), [RParen], [], [], [], [], rest);
    assert Inner(Nest(op, l, bt, body)) + rest == [Kw(Opener(op))] + header;
    BodyFollows(body, close);
    HeaderParsed(l, bt, inside);
    BodyParses(names, body, close);
    FoldedNest(names, op, header, TypeOf(bt), inside, PostBody(body), rest);
  }

  lemma {:induction false} ConditionParses(names: (byte, string) -> u32, es: Exprs, thn: Body, rest: Tokens)
    requires ProperArgs(names, es)
    requires Instrs(names, BodyTokens(thn) + ([RParen] + rest)) == Parsed(PostBody(thn), [RParen] + rest)
    ensures Condition(names, ArgTokens(es) + ([LParen, Kw(Then)] + (BodyTokens(thn) + ([RParen] + rest))))
            == Parsed((PostArgs(es), PostBody(thn)), rest)
    decreases es, 0
  {
    hide FoldedInstr, Inner, Post, Instrs, Condition, BodyTokens, PostBody;
    var close := [RParen] + rest;
    var t := [LParen, Kw(Then)] + (BodyTokens(thn) + close);
    match es
    case Nil =>
      assert ArgTokens(es) + t == t;
      ConditionThen(names, BodyTokens(thn) + close, PostBody(thn), rest);
    case Cons(e, tail) =>
      var more := ArgTokens(tail) + t;
      assert ArgTokens(es) + t == [LParen] + (Inner(e) + more);
      InnerHead(e);
      FoldedParses(names, e, more);
      ConditionParses(names, tail, thn, rest);
      ConditionMore(names, Inner(e) + more, Post(e), more, PostArgs(tail), PostBody(thn), rest);
  }

  lemma {:induction false} ElseParses(names: (byte, string) -> u32, els: Option<Body>, rest: Tokens)
    requires els.Some? ==> ProperBody(names, els.value)
    ensures ElsePart(names, ElseTokens(els) + ([RParen] + rest))
            == Parsed(if els.Some? then PostBody(els.value) else [], [RParen] + rest)
    decreases els, 0
  {
    var close := [RParen] + rest;
    if els.None? {
      assert ElseTokens(els) + close == close;
    } else {
      var inside := BodyTokens(els.value) + ([RParen] + close);
      var ts := ElseTokens(els) + close;
      assert ts == [LParen, Kw(Bare(ELSE))] + inside;
      assert ts[1..] == [Kw(Bare(ELSE))] + inside && ts[2..] == inside;
      BodyParses(names, els.value, [RParen] + close);
      Cut([RParen], close);
      hide Instrs, BodyTokens, PostBody;
    }
  }

  lemma {:induction false} IfParses(names: (byte, string) -> u32, e: Expr, rest: Tokens)
    requires e.If? && Proper(names, e)
    ensures FoldedInstr(names, Inner(e) + rest) == Parsed(Post(e), rest)
    decreases e, 0
  {
    var If(l, bt, cond, thn, els) := e;
    var close := [RParen] + rest;
    var elses := ElseTokens(els) + close;
    var thens := [LParen, Kw(Then)] + (BodyTokens(thn) + ([RParen] + elses));
    var conds := ArgTokens(cond) + thens;
    var header := LabelTokens(l) + (TypeTokens(bt) + conds);
    IfTokens(e, rest);
    Cut([Kw(Opener(IF))], header);
    ArgsFollow(cond, thens);
    HeaderParsed(l, bt, conds);
    BodyParses(names, thn, [RParen] + elses);
    ConditionParses(names, cond, thn, elses);
    ElseParses(names, els, rest);
    Cut([RParen], rest);
    hide Inner, BlockType, Label, Instrs, BodyTokens, ArgTokens, ElseTokens, LabelTokens, TypeTokens, Follows,
         Condition,
         ElsePart;
  }

  lemma IfTokens(e: Expr, rest: Tokens)
    requires e.If?
    ensures var If(l, bt, cond, thn, els) := e;
            var elses := ElseTokens(els) + ([RParen] + rest);
            var thens := [LParen, Kw(Then)] + (BodyTokens(thn) + ([RParen] + elses));
            Inner(e) + rest
            == [Kw(Opener(IF))] + (LabelTokens(l) + (TypeTokens(bt) + (ArgTokens(cond) + thens)))
  {
    var If(l, bt, cond, thn, els) := e;
    var a, b, c, d, f := LabelTokens(l), TypeTokens(bt), ArgTokens(cond), BodyTokens(thn), ElseTokens(els);
    hide LabelTokens, TypeTokens, ArgTokens, BodyTokens, ElseTokens;
    Regroup([Kw(Opener(IF))], a, b, c, [LParen, Kw(Then)], d, [RParen], f, [RParen], rest);
  }

  lemma Regroup(k: Tokens, a: Tokens, b: Tokens, c: Tokens, t: Tokens, d: Tokens, r1: Tokens, f: Tokens, r2: Tokens,
                rest: Tokens)
    ensures k + a + b + c + t + d + r1 + f + r2 + rest == k + (a + (b + (c + (t + (d + (r1 + (f + (r2 + rest))))))))
  {
  }
}
