/** The parser object: one token of lookahead, one unget slot and a token source. */
module FoldedParser {
  import opened Words
  import opened Opcode
  import opened Emitter
  import opened Folded

  /** A method's result and the remaining stream against the specification. */
  ghost predicate Agrees<T>(r: Option<T>, rest: Tokens, p: Parsed<T>) {
    match p
    case Panic => r.None?
    case Parsed(v, s) => r == Some(v) && rest == s
  }

  function Slot(t: Option<Token>): Tokens {
    match t case None => [] case Some(x) => [x]
  }

  lemma PrependPrepend(xs: seq<Instr>, ys: seq<Instr>, r: Parsed<seq<Instr>>)
    ensures Prepend(xs, Prepend(ys, r)) == Prepend(xs + ys, r)
  {
    if r.Parsed? { assert xs + (ys + r.value) == xs + ys + r.value; }
  }

  lemma PrependNothing(r: Parsed<seq<Instr>>)
    ensures Prepend([], r) == r
  {
    if r.Parsed? { assert [] + r.value == r.value; }
  }

  class Parser {
    const names: (byte, string) -> u32
    const tokens: Tokens
    var pos: nat
    var lookahead: Option<Token>
    var unget: Option<Token>

    ghost predicate Valid()
      reads this
    {
      pos <= |tokens| && (lookahead.None? ==> unget.None? && pos == |tokens|)
    }

    /** The tokens still to come, in order. */
    ghost function Stream(): Tokens
      requires Valid()
      reads this
    {
      Slot(lookahead) + Slot(unget) + tokens[pos..]
    }

    constructor (names: (byte, string) -> u32, tokens: Tokens)
      ensures Valid() && Stream() == tokens && unget.None? && this.names == names
    {
      this.names, this.tokens := names, tokens;
      unget := None;
      lookahead := if tokens == [] then None else Some(tokens[0]);
      pos := if tokens == [] then 0 else 1;
    }

    /** `bump`: exactly the current token goes. */
    method Bump()
      requires Valid()
      modifies this`pos, this`lookahead, this`unget
      ensures Valid() && unget.None?
      ensures Stream() == if old(Stream()) == [] then [] else old(Stream())[1..]
    {
      if unget.Some? {
        lookahead := unget;
        unget := None;
      } else if pos < |tokens| {
        lookahead := Some(tokens[pos]);
        pos := pos + 1;
      } else {
        lookahead := None;
      }
    }

    /** `unget_lparen`: a parenthesis comes back in front, and nothing is lost or reordered. */
    method UngetLparen()
      requires Valid() && unget.None?
      modifies this`lookahead, this`unget
      ensures Valid() && Stream() == [LParen] + old(Stream())
    {
      unget := lookahead;
      lookahead := Some(LParen);
    }

    lemma Head()
      requires Valid()
      ensures lookahead.None? <==> Stream() == []
      ensures lookahead.Some? ==> Stream()[0] == lookahead.value
    {
    }

    method ExpectRParen() returns (ok: bool)
      requires Valid()
      modifies this`pos, this`lookahead, this`unget
      ensures Valid() && (ok <==> Starts(old(Stream()), RParen))
      ensures ok ==> Stream() == old(Stream())[1..]
    {
      Head();
      ok := lookahead == Some(RParen);
      if ok { Bump(); }
    }

    /** `parse_block_type`. */
    method ParseBlockType() returns (r: Option<byte>)
      requires Valid()
      modifies this`pos, this`lookahead, this`unget
      ensures Valid() && Agrees(r, Stream(), BlockType(old(Stream())))
    {
      hide Valid, Stream;
      ghost var ts := Stream();
      Head();
      if lookahead == Some(LParen) {
        Bump();
        Head();
        if lookahead == Some(Kw(Result)) {
          Bump();
          r := ParseResultType();
          return;
        }
        UngetLparen();
        assert [ts[0]] + ts[1..] == ts;
      }
      return Some(VOID);
    }

    /** The type and the parenthesis after `(result`. */
    method ParseResultType() returns (r: Option<byte>)
      requires Valid()
      modifies this`pos, this`lookahead, this`unget
      ensures Valid() && Agrees(r, Stream(), ResultType(old(Stream())))
    {
      hide Valid, Stream;
      Head();
      var bt := if lookahead.Some? && lookahead.value.Kw? && lookahead.value.k.Type? then TypeByte(lookahead.value.k.t)
                else VOID;
      Bump();
      var ok := ExpectRParen();
      return if ok then Some(bt) else None;
    }

    method ParseMemArg() returns (offset: u32, align: u32)
      requires Valid()
      modifies this`pos, this`lookahead, this`unget
      ensures Valid() && ((offset, align), Stream()) == MemArg(old(Stream()), 0, 0)
    {
      offset, align := 0, 0;
      while true
        invariant Valid() && MemArg(old(Stream()), 0, 0) == MemArg(Stream(), offset, align)
        decreases |Stream()|
      {
        Head();
        if lookahead.Some? && lookahead.value.Kw? && lookahead.value.k.Offset? {
          offset := lookahead.value.k.n;
        } else if lookahead.Some? && lookahead.value.Kw? && lookahead.value.k.Align? {
          align := lookahead.value.k.n;
        } else {
          return;
        }
        Bump();
      }
    }

    /** `build_instr`. */
    method BuildInstr(k: Keyword) returns (r: Option<Option<Instr>>)
      requires Valid()
      modifies this`pos, this`lookahead, this`unget
      ensures Valid() && Agrees(r, Stream(), Build(names, k, old(Stream())))
    {
      Head();
      match k
      case Bare(op) => return Some(Some(Simple(op)));
      case WithIndex(op) =>
        if lookahead.Some? && lookahead.value.Int? {
          var n := lookahead.value.n;
          Bump();
          return Some(Some(Indexed(op, AsU32(n))));
        } else if lookahead.Some? && lookahead.value.Ident? {
          var name := lookahead.value.name;
          Bump();
          return Some(Some(Indexed(op, names(op, name))));
        }
        return Some(Some(Indexed(op, 0)));
      case WithConst(op) =>
        if lookahead.Some? && lookahead.value.Int? {
          var n := lookahead.value.n;
          Bump();
          return Some(Some(Const(op, n)));
        }
        return Some(Some(Const(op, 0)));
      case WithMemory(op) =>
        var offset, align := ParseMemArg();
        return Some(Some(Memory(op, align, offset)));
      case Opener(op) =>
        var bt := ParseBlockType();
        return match bt case None => None case Some(b) => Some(Some(Typed(op, b)));
      case _ => return Some(None);
    }

    method SkipRestOfList() returns (r: Option<seq<Instr>>)
      requires Valid()
      modifies this`pos, this`lookahead, this`unget
      ensures Valid() && Agrees(r, Stream(), Skip(old(Stream()), 1))
    {
      var depth := 1;
      while depth > 0
        invariant Valid() && Skip(old(Stream()), 1) == Skip(Stream(), depth)
        decreases |Stream()|
      {
        Head();
        if lookahead.None? { return None; }
        if lookahead.value == LParen { depth := depth + 1; }
        else if lookahead.value == RParen { depth := depth - 1; }
        Bump();
      }
      return Some([]);
    }

    method TryIdentifier()
      requires Valid()
      modifies this`pos, this`lookahead, this`unget
      ensures Valid() && Stream() == Label(old(Stream()))
    {
      Head();
      if lookahead.Some? && lookahead.value.Ident? { Bump(); }
    }

    /** `parse_instrs`. */
    method ParseInstrs() returns (r: Option<seq<Instr>>)
      requires Valid()
      modifies this`pos, this`lookahead, this`unget
      ensures Valid() && Agrees(r, Stream(), Instrs(names, old(Stream())))
      decreases |Stream()|, 0
    {
      hide FoldedInstr, Build;
      var out: seq<Instr> := [];
      PrependNothing(Instrs(names, Stream()));
      while true
        invariant Valid() && |Stream()| <= |old(Stream())|
        invariant Instrs(names, old(Stream())) == Prepend(out, Instrs(names, Stream()))
        decreases |Stream()|
      {
        Head();
        ghost var ts := Stream();
        if lookahead.None? || lookahead.value == RParen {
          assert out + [] == out;
          return Some(out);
        } else if lookahead.value == LParen {
          Bump();
          var xs := ParseFoldedInstr();
          if xs.None? { return None; }
          PrependPrepend(out, xs.value, Instrs(names, Stream()));
          out := out + xs.value;
        } else if lookahead.value.Kw? {
          var k := lookahead.value.k;
          Bump();
          var x := BuildInstr(k);
          if x.None? { return None; }
          PrependPrepend(out, OptionToSeq(x.value), Instrs(names, Stream()));
          out := out + OptionToSeq(x.value);
        } else {
          Bump();
        }
      }
    }

    /** The operand loop of `parse_folded_instr`. */
    method ParseOperands() returns (r: Option<seq<Instr>>)
      requires Valid()
      modifies this`pos, this`lookahead, this`unget
      ensures Valid() && Agrees(r, Stream(), Operands(names, old(Stream())))
      decreases |Stream()|, 0
    {
      hide FoldedInstr;
      var out: seq<Instr> := [];
      PrependNothing(Operands(names, Stream()));
      while lookahead == Some(LParen)
        invariant Valid() && |Stream()| <= |old(Stream())|
        invariant Operands(names, old(Stream())) == Prepend(out, Operands(names, Stream()))
        decreases |Stream()|
      {
        Head();
        Bump();
        var xs := ParseFoldedInstr();
        if xs.None? { return None; }
        PrependPrepend(out, xs.value, Operands(names, Stream()));
        out := out + xs.value;
      }
      Head();
      assert out + [] == out;
      return Some(out);
    }

    /** `parse_folded_instr`, after its opening parenthesis. */
    method ParseFoldedInstr() returns (r: Option<seq<Instr>>)
      requires Valid()
      modifies this`pos, this`lookahead, this`unget
      ensures Valid() && Agrees(r, Stream(), FoldedInstr(names, old(Stream())))
      decreases |Stream()|, 0
    {
      hide FoldedIf, BlockType, Instrs, Build, Operands, Skip, Label;
      Head();
      if lookahead.None? || !lookahead.value.Kw? {
        r := SkipRestOfList();
        return;
      }
      var k := lookahead.value.k;
      Bump();
      if k == Opener(IF) {
        r := ParseFoldedIf();
      } else if k.Opener? {
        r := ParseFoldedBlock(k.op);
      } else {
        var op := BuildInstr(k);
        if op.None? { return None; }
        var subs := ParseOperands();
        if subs.None? { return None; }
        var ok := ExpectRParen();
        return if ok then Some(subs.value + OptionToSeq(op.value)) else None;
      }
    }

    /** `parse_folded_block_or_loop`, after the keyword. */
    method ParseFoldedBlock(op: byte) returns (r: Option<seq<Instr>>)
      requires Valid()
      modifies this`pos, this`lookahead, this`unget
      ensures Valid() && Agrees(r, Stream(), Nested(names, op, old(Stream())))
      decreases |Stream()|, 1
    {
      hide BlockType, Instrs, Label;
      TryIdentifier();
      var bt := ParseBlockType();
      if bt.None? { return None; }
      var body := ParseInstrs();
      if body.None? { return None; }
      var ok := ExpectRParen();
      return if ok then Some([Typed(op, bt.value)] + body.value + [Simple(END)]) else None;
    }

    /** `parse_folded_if`, after the keyword. */
    method ParseFoldedIf() returns (r: Option<seq<Instr>>)
      requires Valid()
      modifies this`pos, this`lookahead, this`unget
      ensures Valid() && Agrees(r, Stream(), FoldedIf(names, old(Stream())))
      decreases |Stream()|, 1
    {
      hide BlockType, Condition, ElsePart, Label, IfInstrs;
      TryIdentifier();
      var bt := ParseBlockType();
      if bt.None? { return None; }
      var c := ParseCondition();
      if c.None? { return None; }
      var els := ParseElse();
      if els.None? { return None; }
      var ok := ExpectRParen();
      return if ok then Some(IfInstrs(bt.value, c.value.0, c.value.1, els.value)) else None;
    }

    method ParseCondition() returns (r: Option<(seq<Instr>, seq<Instr>)>)
      requires Valid()
      modifies this`pos, this`lookahead, this`unget
      ensures Valid() && Agrees(r, Stream(), Condition(names, old(Stream())))
      decreases |Stream()|, 0
    {
      hide FoldedInstr, Instrs;
      var cond: seq<Instr> := [];
      ConditionNothing(Condition(names, Stream()));
      while lookahead == Some(LParen)
        invariant Valid() && |Stream()| <= |old(Stream())|
        invariant Condition(names, old(Stream())) == WithCond(cond, Condition(names, Stream()))
        decreases |Stream()|
      {
        Head();
        ghost var ts := Stream();
        Bump();
        Head();
        if lookahead == Some(Kw(Then)) {
          Bump();
          assert ts[1..][1..] == ts[2..];
          var thn := ParseInstrs();
          if thn.None? { return None; }
          var ok := ExpectRParen();
          assert cond + [] == cond;
          return if ok then Some((cond, thn.value)) else None;
        }
        var xs := ParseFoldedInstr();
        if xs.None? { return None; }
        ConditionCons(cond, xs.value, Condition(names, Stream()));
        cond := cond + xs.value;
      }
      Head();
      assert cond + [] == cond;
      return Some((cond, []));
    }

    method ParseElse() returns (r: Option<seq<Instr>>)
      requires Valid()
      modifies this`pos, this`lookahead, this`unget
      ensures Valid() && Agrees(r, Stream(), ElsePart(names, old(Stream())))
      decreases |Stream()|, 0
    {
      hide Instrs, Skip;
      Head();
      if lookahead != Some(LParen) { return Some([]); }
      ghost var ts := Stream();
      Bump();
      Head();
      if lookahead == Some(Kw(Bare(ELSE))) {
        Bump();
        assert ts[1..][1..] == ts[2..];
        var els := ParseInstrs();
        if els.None? { return None; }
        var ok := ExpectRParen();
        return if ok then els else None;
      }
      r := SkipRestOfList();
    }
  }

  /** The block-or-loop arm of the folded parser. */
  function Nested(names: (byte, string) -> u32, op: byte, ts: Tokens): Parsed<seq<Instr>> {
    match BlockType(Label(ts))
    case Panic => Panic
    case Parsed(bt, r1) =>
      match Instrs(names, r1)
      case Panic => Panic
      case Parsed(body, r2) => Close([Typed(op, bt)] + body + [Simple(END)], r2)
  }

  function WithCond(cond: seq<Instr>, p: Parsed<(seq<Instr>, seq<Instr>)>): Parsed<(seq<Instr>, seq<Instr>)> {
    match p
    case Panic => Panic
    case Parsed((c, t), rest) => Parsed((cond + c, t), rest)
  }

  lemma ConditionNothing(p: Parsed<(seq<Instr>, seq<Instr>)>)
    ensures WithCond([], p) == p
  {
    if p.Parsed? { assert [] + p.value.0 == p.value.0; }
  }

  lemma ConditionCons(cond: seq<Instr>, xs: seq<Instr>, p: Parsed<(seq<Instr>, seq<Instr>)>)
    ensures WithCond(cond, WithCond(xs, p)) == WithCond(cond + xs, p)
  {
    if p.Parsed? { assert cond + (xs + p.value.0) == cond + xs + p.value.0; }
  }

  /** Parsing the text form of an expression yields its post-order list and consumes exactly that text. */
  method ParseExpression(names: (byte, string) -> u32, e: Expr, rest: Tokens) returns (p: Parser, r: Option<seq<Instr>>)
    requires Proper(names, e)
    ensures r == Some(Post(e))
    ensures fresh(p) && p.Valid() && p.Stream() == rest
  {
    p := new Parser(names, Inner(e) + rest);
    FoldedParses(names, e, rest);
    r := p.ParseFoldedInstr();
  }
}
