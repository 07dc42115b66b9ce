/** The assembler's output side: module IR to the binary format of section 5.5 of the WebAssembly Core
    Specification. */
module Emitter {
  import opened Words
  import opened Leb128
  import opened Opcode

  // ---- the module IR -----------------------------------------------------------------------------------------

  datatype ValType = I32 | I64 | F32 | F64

  function TypeByte(t: ValType): byte {
    match t
    case I32 => 0x7F
    case I64 => 0x7E
    case F32 => 0x7D
    case F64 => 0x7C
  }

  /** Instructions by the shape of their immediates; the float constants carry their little-endian bytes. */
  datatype Instr =
    | Simple(op: byte)
    | Typed(op: byte, blockType: byte)
    | Indexed(op: byte, index: u32)
    | Const(op: byte, value: int)
    | FloatConst(op: byte, bits: seq<byte>)
    | Memory(op: byte, align: u32, offset: u32)

  datatype FuncType = FuncType(params: seq<ValType>, results: seq<ValType>)
  datatype FuncDef = FuncDef(typeIdx: u32, locals: seq<ValType>, body: seq<Instr>)
  datatype Import = Import(mod: seq<byte>, name: seq<byte>, typeIdx: u32)
  datatype Export = Export(name: seq<byte>, kind: byte, index: u32)
  datatype Limits = Limits(min: u32, max: Option<u32>)
  datatype DataSeg = DataSeg(offset: int, bytes: seq<byte>)

  datatype Module = Module(types: seq<FuncType>, imports: seq<Import>, funcs: seq<FuncDef>, memories: seq<Limits>,
                           exports: seq<Export>, data: seq<DataSeg>)

  // ---- byte forms --------------------------------------------------------------------------------------------

  /** A length is cast to u32 before it is written. */
  function Length(n: nat): seq<byte> {
    WriteU32(n % TWO32)
  }

  function LengthPrefixed(bs: seq<byte>): seq<byte> {
    Length(|bs|) + bs
  }

  function Concat<T>(f: T -> seq<byte>, xs: seq<T>): seq<byte> {
    if xs == [] then [] else Concat(f, xs[..|xs| - 1]) + f(xs[|xs| - 1])
  }

  /** A counted vector of items. */
  function Vector<T>(f: T -> seq<byte>, xs: seq<T>): seq<byte> {
    Length(|xs|) + Concat(f, xs)
  }

  function TypeBytes(ts: seq<ValType>): (bs: seq<byte>)
    ensures |bs| == |ts|
  {
    seq(|ts|, i requires 0 <= i < |ts| => TypeByte(ts[i]))
  }

  function FuncTypeBytes(t: FuncType): seq<byte> {
    [0x60] + Length(|t.params|) + TypeBytes(t.params) + Length(|t.results|) + TypeBytes(t.results)
  }

  function ImportBytes(i: Import): seq<byte> {
    LengthPrefixed(i.mod) + LengthPrefixed(i.name) + [0x00] + WriteU32(i.typeIdx)
  }

  function TypeIndexBytes(f: FuncDef): seq<byte> {
    WriteU32(f.typeIdx)
  }

  function LimitsBytes(m: Limits): seq<byte> {
    match m.max
    case None => [0x00] + WriteU32(m.min)
    case Some(max) => [0x01] + WriteU32(m.min) + WriteU32(max)
  }

  function ExportBytes(e: Export): seq<byte> {
    LengthPrefixed(e.name) + [e.kind] + WriteU32(e.index)
  }

  function Immediates(i: Instr): seq<byte> {
    match i
    case Simple(_) => []
    case Typed(_, t) => [t]
    case Indexed(_, index) => WriteU32(index)
    case Const(_, value) => WriteI32(value)
    case FloatConst(_, bits) => bits
    case Memory(_, align, offset) => WriteU32(align) + WriteU32(offset)
  }

  function InstrBytes(i: Instr): seq<byte> {
    [i.op] + Immediates(i)
  }

  datatype Group = Group(count: nat, ty: ValType)

  function GroupBytes(g: Group): seq<byte> {
    Length(g.count) + [TypeByte(g.ty)]
  }

  function AddLocal(gs: seq<Group>, t: ValType): seq<Group> {
    if gs != [] && gs[|gs| - 1].ty == t
    then gs[..|gs| - 1] + [Group(gs[|gs| - 1].count + 1, t)]
    else gs + [Group(1, t)]
  }

  /** `compress_locals`. */
  function Compress(ts: seq<ValType>): seq<Group> {
    if ts == [] then [] else AddLocal(Compress(ts[..|ts| - 1]), ts[|ts| - 1])
  }

  function CodeOf(f: FuncDef): seq<byte> {
    Concat(InstrBytes, f.body) + [END]
  }

  function EntryBytes(f: FuncDef): seq<byte> {
    Vector(GroupBytes, Compress(f.locals)) + CodeOf(f)
  }

  function BodyBytes(f: FuncDef): seq<byte> {
    LengthPrefixed(EntryBytes(f))
  }

  function DataBytes(d: DataSeg): seq<byte> {
    [0x00, I32_CONST] + WriteI32(d.offset) + [END] + LengthPrefixed(d.bytes)
  }

  // ---- the locals are run-length encoded exactly -----------------------------------------------------------

  function Expand(gs: seq<Group>): seq<ValType> {
    if gs == [] then [] else Expand(gs[..|gs| - 1]) + seq(gs[|gs| - 1].count, _ => gs[|gs| - 1].ty)
  }

  predicate MaximalRuns(gs: seq<Group>) {
    && (forall i :: 0 <= i < |gs| ==> gs[i].count > 0)
    && forall i :: 0 < i < |gs| ==> gs[i - 1].ty != gs[i].ty
  }

  /** The groups spell out the locals again, and no two neighbours could be merged. */
  lemma {:induction false} CompressExact(ts: seq<ValType>)
    ensures Expand(Compress(ts)) == ts && MaximalRuns(Compress(ts))
    decreases |ts|
  {
    hide MaximalRuns, AddLocal;
    if ts == [] {
      assert MaximalRuns([]) by { EmptyRuns(); }
    } else {
      CompressExact(ts[..|ts| - 1]);
      AddLocalExact(Compress(ts[..|ts| - 1]), ts[|ts| - 1]);
      assert ts[..|ts| - 1] + [ts[|ts| - 1]] == ts;
    }
  }

  lemma EmptyRuns()
    ensures MaximalRuns([])
  {
  }

  lemma AddLocalExact(gs: seq<Group>, t: ValType)
    requires MaximalRuns(gs)
    ensures Expand(AddLocal(gs, t)) == Expand(gs) + [t] && MaximalRuns(AddLocal(gs, t))
  {
    var gs' := AddLocal(gs, t);
    if gs != [] && gs[|gs| - 1].ty == t {
      var init, g := gs[..|gs| - 1], gs[|gs| - 1];
      assert gs'[..|gs'| - 1] == init;
      assert seq(g.count + 1, _ => t) == seq(g.count, _ => g.ty) + [t];
      assert Expand(gs') == Expand(init) + seq(g.count + 1, _ => t);
      assert Expand(gs) == Expand(init) + seq(g.count, _ => g.ty);
    } else {
      assert gs'[..|gs'| - 1] == gs;
      assert seq(1, _ => t) == [t];
    }
  }

  // ---- sections ----------------------------------------------------------------------------------------------

  datatype Section = Section(id: byte, body: seq<byte>)

  function SectionBytes(s: Section): seq<byte> {
    [s.id] + LengthPrefixed(s.body)
  }

  const MAGIC: seq<byte> := [0x00, 0x61, 0x73, 0x6D]
  const VERSION: seq<byte> := [0x01, 0x00, 0x00, 0x00]

  function When<T>(c: bool, x: T): seq<T> {
    if c then [x] else []
  }

  function TypeSection(m: Module): Section { Section(1, Vector(FuncTypeBytes, m.types)) }
  function ImportSection(m: Module): Section { Section(2, Vector(ImportBytes, m.imports)) }
  function FunctionSection(m: Module): Section { Section(3, Vector(TypeIndexBytes, m.funcs)) }
  function MemorySection(m: Module): Section { Section(5, Vector(LimitsBytes, m.memories)) }
  function ExportSection(m: Module): Section { Section(7, Vector(ExportBytes, m.exports)) }
  function DataCountSection(m: Module): Section { Section(12, Length(|m.data|)) }
  function CodeSection(m: Module): Section { Section(10, Vector(BodyBytes, m.funcs)) }
  function DataSection(m: Module): Section { Section(11, Vector(DataBytes, m.data)) }

  /** The sections `emit_module` writes, in order. */
  function Sections(m: Module): seq<Section> {
    []
    + When(m.types != [], TypeSection(m)) + When(m.imports != [], ImportSection(m))
    + When(m.funcs != [], FunctionSection(m)) + When(m.memories != [], MemorySection(m))
    + When(m.exports != [], ExportSection(m)) + When(m.data != [] && m.memories != [], DataCountSection(m))
    + When(m.funcs != [], CodeSection(m)) + When(m.data != [], DataSection(m))
  }

  function ModuleBytes(m: Module): seq<byte> {
    MAGIC + VERSION + Concat(SectionBytes, Sections(m))
  }

  lemma ConcatSnoc<T>(f: T -> seq<byte>, xs: seq<T>, x: T)
    ensures Concat(f, xs + [x]) == Concat(f, xs) + f(x)
  {
    assert (xs + [x])[..|xs|] == xs;
  }

  lemma ConcatNext<T>(f: T -> seq<byte>, xs: seq<T>, i: nat)
    requires i < |xs|
    ensures Concat(f, xs[..i + 1]) == Concat(f, xs[..i]) + f(xs[i])
  {
    assert xs[..i + 1] == xs[..i] + [xs[i]];
    ConcatSnoc(f, xs[..i], xs[i]);
  }

  lemma Assoc(a: seq<byte>, b: seq<byte>, c: seq<byte>)
    ensures a + b + c == a + (b + c)
  {
  }

  lemma ConcatNothing(start: seq<byte>)
    ensures start + Concat(SectionBytes, []) == start
  {
  }

  /** One more conditional section. */
  lemma Grow(start: seq<byte>, done: seq<Section>, c: bool, x: Section, now: seq<byte>) returns (done': seq<Section>)
    requires now == start + Concat(SectionBytes, done) + (if c then SectionBytes(x) else [])
    ensures done' == done + When(c, x) && now == start + Concat(SectionBytes, done')
  {
    hide SectionBytes;
    done' := done + When(c, x);
    if c {
      ConcatSnoc(SectionBytes, done, x);
      Assoc(start, Concat(SectionBytes, done), SectionBytes(x));
    } else {
      assert done' == done;
      assert start + Concat(SectionBytes, done) + [] == start + Concat(SectionBytes, done);
    }
  }

  method CompressLocals(locals: seq<ValType>) returns (groups: seq<Group>)
    ensures groups == Compress(locals)
  {
    groups := [];
    for i := 0 to |locals|
      invariant groups == Compress(locals[..i])
    {
      assert locals[..i + 1][..i] == locals[..i];
      if groups != [] && groups[|groups| - 1].ty == locals[i] {
        groups := groups[|groups| - 1 := Group(groups[|groups| - 1].count + 1, locals[i])];
      } else {
        groups := groups + [Group(1, locals[i])];
      }
    }
    assert locals[..|locals|] == locals;
  }

  // ---- the emitter object ------------------------------------------------------------------------------------

  class WasmEmitter {
    var buf: seq<byte>

    constructor ()
      ensures buf == []
    {
      buf := [];
    }

    method WriteU8(x: byte)
      modifies this
      ensures buf == old(buf) + [x]
    {
      buf := buf + [x];
    }

    method Extend(bs: seq<byte>)
      modifies this
      ensures buf == old(buf) + bs
    {
      buf := buf + bs;
    }

    method WriteLeb128U32(v: u32)
      modifies this
      ensures buf == old(buf) + WriteU32(v)
    {
      buf := EncodeU32(buf, v);
    }

    method WriteLength(n: nat)
      modifies this
      ensures buf == old(buf) + Length(n)
    {
      WriteLeb128U32(n % TWO32);
    }

    method WriteBytes(bs: seq<byte>)
      modifies this
      ensures buf == old(buf) + LengthPrefixed(bs)
    {
      WriteLength(|bs|);
      Extend(bs);
      Assoc(old(buf), Length(|bs|), bs);
    }

    /** The item loop of every section. */
    method WriteVector<T>(f: T -> seq<byte>, xs: seq<T>)
      modifies this
      ensures buf == old(buf) + Vector(f, xs)
    {
      WriteLength(|xs|);
      ghost var start := buf;
      for i := 0 to |xs|
        invariant buf == start + Concat(f, xs[..i])
      {
        Extend(f(xs[i]));
        ConcatNext(f, xs, i);
        Assoc(start, Concat(f, xs[..i]), f(xs[i]));
      }
      assert xs[..|xs|] == xs;
      Assoc(old(buf), Length(|xs|), Concat(f, xs));
    }

    /** `emit_section`. */
    method EmitSection(id: byte, inner: WasmEmitter)
      requires inner != this
      modifies this
      ensures buf == old(buf) + SectionBytes(Section(id, inner.buf))
    {
      WriteU8(id);
      WriteBytes(inner.buf);
      Assoc(old(buf), [id], LengthPrefixed(inner.buf));
    }

    /** A section that is left out when it has no items; `done` lists the sections written since `start`. */
    method EmitItems<T>(id: byte, f: T -> seq<byte>, xs: seq<T>, ghost start: seq<byte>, ghost done: seq<Section>)
      returns (ghost done': seq<Section>)
      requires buf == start + Concat(SectionBytes, done)
      modifies this
      ensures done' == done + When(xs != [], Section(id, Vector(f, xs)))
      ensures buf == start + Concat(SectionBytes, done')
    {
      hide SectionBytes, Vector;
      if xs != [] {
        var s := new WasmEmitter();
        s.WriteVector(f, xs);
        assert s.buf == Vector(f, xs);
        EmitSection(id, s);
      } else {
        assert buf == buf + [];
      }
      done' := Grow(start, done, xs != [], Section(id, Vector(f, xs)), buf);
    }

    method EmitDataCount(m: Module, ghost start: seq<byte>, ghost done: seq<Section>)
      returns (ghost done': seq<Section>)
      requires buf == start + Concat(SectionBytes, done)
      modifies this
      ensures done' == done + When(m.data != [] && m.memories != [], DataCountSection(m))
      ensures buf == start + Concat(SectionBytes, done')
    {
      hide SectionBytes;
      if m.data != [] && m.memories != [] {
        var s := new WasmEmitter();
        s.WriteLength(|m.data|);
        assert s.buf == Length(|m.data|);
        EmitSection(12, s);
      } else {
        assert buf == buf + [];
      }
      done' := Grow(start, done, m.data != [] && m.memories != [], DataCountSection(m), buf);
    }

    /** The section part of `emit_module`. */
    method EmitSections(m: Module)
      modifies this
      ensures buf == old(buf) + Concat(SectionBytes, Sections(m))
    {
      hide SectionBytes, Concat, When, Vector;
      ghost var start := buf;
      ConcatNothing(start);
      ghost var done := EmitItems(1, FuncTypeBytes, m.types, start, []);
      done := EmitItems(2, ImportBytes, m.imports, start, done);
      done := EmitItems(3, TypeIndexBytes, m.funcs, start, done);
      done := EmitItems(5, LimitsBytes, m.memories, start, done);
      done := EmitItems(7, ExportBytes, m.exports, start, done);
      done := EmitDataCount(m, start, done);
      done := EmitItems(10, BodyBytes, m.funcs, start, done);
      done := EmitItems(11, DataBytes, m.data, start, done);
    }

    /** `emit_module`. */
    method EmitModule(m: Module)
      modifies this
      ensures buf == old(buf) + ModuleBytes(m)
    {
      hide SectionBytes, Concat, Sections;
      Extend(MAGIC);
      Extend(VERSION);
      EmitSections(m);
      Assoc(old(buf), MAGIC, VERSION);
      Assoc(old(buf), MAGIC + VERSION, Concat(SectionBytes, Sections(m)));
    }
  }
}
