/** The assembler against a reader of the whole binary format, after section 5 of the WebAssembly Core Specification:
    the module that was assembled comes back, value types, limits and instructions included. */
module BinaryFormat {
  import opened Words
  import opened Bytes
  import opened Leb128
  import opened Emitter
  import L = Loader
  import R = RoundTrip

  // ---- reading ---------------------------------------------------------------------------------------------------

  function ByteAt(b: seq<byte>, cur: nat): L.Result<(byte, nat)> {
    if cur < |b| then L.Ok((b[cur], cur + 1)) else L.Err(L.Malformed)
  }

  function BytesAt(b: seq<byte>, cur: nat, n: nat): L.Result<(seq<byte>, nat)> {
    if cur + n <= |b| then L.Ok((b[cur..cur + n], cur + n)) else L.Err(L.Malformed)
  }

  /** A byte vector with its length. */
  function NameAt(b: seq<byte>, cur: nat): L.Result<(seq<byte>, nat)> {
    var n :- L.Leb(b, cur);
    BytesAt(b, n.1, n.0)
  }

  function ValueType(b: seq<byte>, cur: nat): L.Result<(ValType, nat)> {
    var t :- ByteAt(b, cur);
    match t.0
    case 0x7F => L.Ok((I32, t.1))
    case 0x7E => L.Ok((I64, t.1))
    case 0x7D => L.Ok((F32, t.1))
    case 0x7C => L.Ok((F64, t.1))
    case _ => L.Err(L.Malformed)
  }

  function ReadFuncType(b: seq<byte>, cur: nat): L.Result<(FuncType, nat)> {
    var form :- ByteAt(b, cur);
    if form.0 != 0x60 then L.Err(L.Malformed)
    else
      var p :- L.Leb(b, form.1);
      var params :- L.Items(ValueType, b, p.1, p.0);
      var r :- L.Leb(b, params.1);
      var results :- L.Items(ValueType, b, r.1, r.0);
      L.Ok((FuncType(params.0, results.0), results.1))
  }

  function ReadImport(b: seq<byte>, cur: nat): L.Result<(Import, nat)> {
    var mod :- NameAt(b, cur);
    var name :- NameAt(b, mod.1);
    var kind :- ByteAt(b, name.1);
    var t :- L.Leb(b, kind.1);
    if kind.0 == 0x00 then L.Ok((Import(mod.0, name.0, t.0), t.1)) else L.Err(L.Malformed)
  }

  function ReadLimits(b: seq<byte>, cur: nat): L.Result<(Limits, nat)> {
    var flag :- ByteAt(b, cur);
    var min :- L.Leb(b, flag.1);
    if flag.0 == 0x00 then L.Ok((Limits(min.0, None), min.1))
    else if flag.0 == 0x01 then
      var max :- L.Leb(b, min.1);
      L.Ok((Limits(min.0, Some(max.0)), max.1))
    else L.Err(L.Malformed)
  }

  function ReadExport(b: seq<byte>, cur: nat): L.Result<(Export, nat)> {
    var name :- NameAt(b, cur);
    var kind :- ByteAt(b, name.1);
    var index :- L.Leb(b, kind.1);
    L.Ok((Export(name.0, kind.0, index.0), index.1))
  }

  function ReadGroup(b: seq<byte>, cur: nat): L.Result<(Group, nat)> {
    var n :- L.Leb(b, cur);
    var t :- ValueType(b, n.1);
    L.Ok((Group(n.0, t.0), t.1))
  }

  /** An instruction, by its opcode. */
  function ReadInstr(b: seq<byte>, cur: nat): (r: L.Result<(Instr, nat)>)
    ensures r.Ok? ==> cur < r.value.1
  {
    var o :- ByteAt(b, cur);
    var op := o.0;
    if 0x02 <= op <= 0x04 then
      var t :- ByteAt(b, o.1);
      L.Ok((Typed(op, t.0), t.1))
    else if op == 0x0C || op == 0x0D || op == 0x10 || 0x20 <= op <= 0x24 then
      var i :- L.Leb(b, o.1);
      L.Ok((Indexed(op, i.0), i.1))
    else if op == 0x41 || op == 0x42 then
      match ReadI32(b[o.1..])
      case None => L.Err(L.Malformed)
      case Some((v, n)) => L.Ok((Const(op, v), o.1 + n))
    else if op == 0x43 || op == 0x44 then
      var bits :- BytesAt(b, o.1, if op == 0x43 then 4 else 8);
      L.Ok((FloatConst(op, bits.0), bits.1))
    else if 0x28 <= op <= 0x3E then
      var align :- L.Leb(b, o.1);
      var offset :- L.Leb(b, align.1);
      L.Ok((Memory(op, align.0, offset.0), offset.1))
    else L.Ok((Simple(op), o.1))
  }

  /** The instructions up to the `end` that is the last byte. */
  function ReadInstrs(b: seq<byte>, cur: nat): L.Result<seq<Instr>>
    decreases |b| - cur
  {
    if cur + 1 == |b| && b[cur] == 0x0B then L.Ok([])
    else if cur >= |b| then L.Err(L.Malformed)
    else
      var i :- ReadInstr(b, cur);
      var rest :- ReadInstrs(b, i.1);
      L.Ok([i.0] + rest)
  }

  datatype Code = Code(locals: seq<ValType>, body: seq<Instr>)

  function ReadEntry(entry: seq<byte>): L.Result<Code> {
    var n :- L.Leb(entry, 0);
    var groups :- L.Items(ReadGroup, entry, n.1, n.0);
    if groups.1 > |entry| then L.Err(L.Malformed)
    else
      var body :- ReadInstrs(entry[groups.1..], 0);
      L.Ok(Code(Expand(groups.0), body))
  }

  function ReadCode(b: seq<byte>, cur: nat): L.Result<(Code, nat)> {
    var entry :- NameAt(b, cur);
    var c :- ReadEntry(entry.0);
    L.Ok((c, entry.1))
  }

  function ReadData(b: seq<byte>, cur: nat): L.Result<(DataSeg, nat)> {
    var kind :- ByteAt(b, cur);
    var op :- ByteAt(b, kind.1);
    if kind.0 != 0x00 || op.0 != 0x41 then L.Err(L.Malformed)
    else
      match ReadI32(b[op.1..])
      case None => L.Err(L.Malformed)
      case Some((offset, n)) =>
        var end :- ByteAt(b, op.1 + n);
        var bytes :- NameAt(b, end.1);
        if end.0 == 0x0B then L.Ok((DataSeg(offset, bytes.0), bytes.1)) else L.Err(L.Malformed)
  }

  // ---- what was written, item by item ------------------------------------------------------------------------------

  lemma MapSame<T>(g: T -> T, xs: seq<T>)
    requires forall x :: g(x) == x
    ensures R.Map(g, xs) == xs
  {
  }

  lemma NameRead(b: seq<byte>, cur: nat, name: seq<byte>)
    requires At(b, cur, LengthPrefixed(name)) && |name| < TWO32
    ensures NameAt(b, cur) == L.Ok((name, cur + |LengthPrefixed(name)|))
  {
    hide Length, L.Leb;
    AtSplit(b, cur, Length(|name|), name);
    R.LengthAt(b, cur, |name|);
  }

  lemma {:induction false} ValueTypesRead(b: seq<byte>, cur: nat, ts: seq<ValType>)
    requires At(b, cur, TypeBytes(ts))
    ensures L.Items(ValueType, b, cur, |ts|) == L.Ok((ts, cur + |ts|))
    decreases |ts|
  {
    if ts != [] {
      var n := |ts| - 1;
      assert TypeBytes(ts) == TypeBytes(ts[..n]) + [TypeByte(ts[n])];
      AtSplit(b, cur, TypeBytes(ts[..n]), [TypeByte(ts[n])]);
      AtOne(b, cur + n, TypeByte(ts[n]));
      ValueTypesRead(b, cur, ts[..n]);
      assert ts == ts[..n] + [ts[n]];
    } else {
      assert ts == [];
    }
  }

  lemma FuncTypeRead(b: seq<byte>, cur: nat, t: FuncType)
    requires R.TypeFits(t) && At(b, cur, FuncTypeBytes(t))
    ensures ReadFuncType(b, cur) == L.Ok((t, cur + |FuncTypeBytes(t)|))
  {
    hide Length, L.Leb, L.Items, ValueType, TypeBytes;
    var p, q := Length(|t.params|), Length(|t.results|);
    var h: seq<byte> := [0x60];
    AtSplit(b, cur, h + p + TypeBytes(t.params) + q, TypeBytes(t.results));
    AtSplit(b, cur, h + p + TypeBytes(t.params), q);
    AtSplit(b, cur, h + p, TypeBytes(t.params));
    AtSplit(b, cur, h, p);
    AtOne(b, cur, 0x60);
    R.LengthAt(b, cur + 1, |t.params|);
    ValueTypesRead(b, cur + 1 + |p|, t.params);
    R.LengthAt(b, cur + 1 + |p| + |t.params|, |t.results|);
    ValueTypesRead(b, cur + 1 + |p| + |t.params| + |q|, t.results);
  }

  lemma ImportRead(b: seq<byte>, cur: nat, i: Import)
    requires R.ImportFits(i) && At(b, cur, ImportBytes(i))
    ensures ReadImport(b, cur) == L.Ok((i, cur + |ImportBytes(i)|))
  {
    hide LengthPrefixed, L.Leb, WriteU32, NameAt;
    var x, y := LengthPrefixed(i.mod), LengthPrefixed(i.name);
    AtSplit(b, cur, x + y + [0x00], WriteU32(i.typeIdx));
    AtSplit(b, cur, x + y, [0x00]);
    AtSplit(b, cur, x, y);
    NameRead(b, cur, i.mod);
    NameRead(b, cur + |x|, i.name);
    AtOne(b, cur + |x| + |y|, 0x00);
    R.LebAt(b, cur + |x| + |y| + 1, i.typeIdx);
  }

  lemma LimitsRead(b: seq<byte>, cur: nat, m: Limits)
    requires At(b, cur, LimitsBytes(m))
    ensures ReadLimits(b, cur) == L.Ok((m, cur + |LimitsBytes(m)|))
  {
    hide L.Leb, At, WriteU32;
    var flag: byte := if m.max.Some? then 1 else 0;
    if m.max.Some? {
      AtSplit(b, cur, [flag] + WriteU32(m.min), WriteU32(m.max.value));
      R.LebAt(b, cur + 1 + |WriteU32(m.min)|, m.max.value);
    }
    AtSplit(b, cur, [flag], WriteU32(m.min));
    AtOne(b, cur, flag);
    R.LebAt(b, cur + 1, m.min);
  }

  lemma ExportRead(b: seq<byte>, cur: nat, e: Export)
    requires |e.name| < TWO32 && At(b, cur, ExportBytes(e))
    ensures ReadExport(b, cur) == L.Ok((e, cur + |ExportBytes(e)|))
  {
    hide LengthPrefixed, L.Leb, NameAt, WriteU32, At;
    var x := LengthPrefixed(e.name);
    AtSplit(b, cur, x + [e.kind], WriteU32(e.index));
    AtSplit(b, cur, x, [e.kind]);
    NameRead(b, cur, e.name);
    AtOne(b, cur + |x|, e.kind);
    R.LebAt(b, cur + |x| + 1, e.index);
  }

  lemma GroupRead(b: seq<byte>, cur: nat, g: Group)
    requires R.GroupFits(g) && At(b, cur, GroupBytes(g))
    ensures ReadGroup(b, cur) == L.Ok((g, cur + |GroupBytes(g)|))
  {
    hide Length, L.Leb;
    AtSplit(b, cur, Length(g.count), [TypeByte(g.ty)]);
    R.LengthAt(b, cur, g.count);
    AtOne(b, cur + |Length(g.count)|, TypeByte(g.ty));
  }

  lemma DataRead(b: seq<byte>, cur: nat, d: DataSeg)
    requires R.DataFits(d) && At(b, cur, DataBytes(d))
    ensures ReadData(b, cur) == L.Ok((d, cur + |DataBytes(d)|))
  {
    hide LengthPrefixed, NameAt, WriteI32, ReadI32;
    var o := WriteI32(d.offset);
    AtSplit(b, cur, [0x00, 0x41] + o + [0x0B], LengthPrefixed(d.bytes));
    AtSplit(b, cur, [0x00, 0x41] + o, [0x0B]);
    AtSplit(b, cur, [0x00, 0x41], o);
    AtTwo(b, cur, 0x00, 0x41);
    AtOne(b, cur + 2 + |o|, 0x0B);
    var rest := b[cur + 2 + |o|..];
    assert b[cur + 2..] == o + rest;
    I32RoundTrip(d.offset, rest);
    NameRead(b, cur + 3 + |o|, d.bytes);
  }

  // ---- instructions ----------------------------------------------------------------------------------------------

  /** Each opcode with the immediates that it has in the format. */
  predicate Shaped(i: Instr) {
    var op := i.op;
    if 0x02 <= op <= 0x04 then i.Typed?
    else if op == 0x0C || op == 0x0D || op == 0x10 || 0x20 <= op <= 0x24 then i.Indexed?
    else if op == 0x41 || op == 0x42 then i.Const? && -0x8000_0000 <= i.value < 0x8000_0000
    else if op == 0x43 || op == 0x44 then i.FloatConst? && |i.bits| == if op == 0x43 then 4 else 8
    else if 0x28 <= op <= 0x3E then i.Memory?
    else i.Simple?
  }

  lemma InstrRead(b: seq<byte>, cur: nat, i: Instr)
    requires Shaped(i) && At(b, cur, InstrBytes(i))
    ensures cur < |b| && b[cur] == i.op && ReadInstr(b, cur) == L.Ok((i, cur + |InstrBytes(i)|))
  {
    hide At, WriteU32, WriteI32, L.Leb, ReadI32;
    AtSplit(b, cur, [i.op], Immediates(i));
    AtOne(b, cur, i.op);
    match i
    case Simple(_) =>
    case Typed(_, t) => AtOne(b, cur + 1, t);
    case Indexed(_, index) => R.LebAt(b, cur + 1, index);
    case Const(_, v) => ConstRead(b, cur + 1, v);
    case FloatConst(_, bits) => AtIs(b, cur + 1, bits);
    case Memory(_, align, offset) =>
      AtSplit(b, cur + 1, WriteU32(align), WriteU32(offset));
      R.LebAt(b, cur + 1, align);
      R.LebAt(b, cur + 1 + |WriteU32(align)|, offset);
  }

  lemma ConstRead(b: seq<byte>, cur: nat, v: int)
    requires -TWO31 <= v < TWO31 && At(b, cur, WriteI32(v))
    ensures cur <= |b| && ReadI32(b[cur..]) == Some((v, |WriteI32(v)|))
  {
    hide WriteI32, ReadI32;
    var rest := b[cur + |WriteI32(v)|..];
    assert b[cur..] == WriteI32(v) + rest;
    I32RoundTrip(v, rest);
  }

  lemma AtIs(b: seq<byte>, cur: nat, x: seq<byte>)
    requires At(b, cur, x)
    ensures cur + |x| <= |b| && b[cur..cur + |x|] == x
  {
  }

  predicate AllShaped(body: seq<Instr>) {
    forall k :: 0 <= k < |body| ==> Shaped(body[k])
  }

  lemma InstrLonger(i: Instr)
    ensures |InstrBytes(i)| >= 1
  {
  }

  lemma {:induction false} InstrsRead(b: seq<byte>, cur: nat, body: seq<Instr>)
    requires AllShaped(body) && At(b, cur, Concat(InstrBytes, body)) && cur + |Concat(InstrBytes, body)| + 1 == |b|
    requires b[|b| - 1] == 0x0B
    ensures ReadInstrs(b, cur) == L.Ok(body)
    decreases |body|
  {
    hide At, InstrBytes, ReadInstr, Concat, Shaped;
    if body == [] {
      ConcatNothing();
    } else {
      R.FrontAt(InstrBytes, body, b, cur);
      InstrRead(b, cur, body[0]);
      InstrLonger(body[0]);
      InstrsRead(b, cur + |InstrBytes(body[0])|, body[1..]);
      assert [body[0]] + body[1..] == body;
    }
  }

  lemma ConcatNothing()
    ensures |Concat(InstrBytes, [])| == 0
  {
  }

  lemma CodeRead(f: FuncDef)
    requires AllShaped(f.body)
    ensures ReadInstrs(CodeOf(f), 0) == L.Ok(f.body)
  {
    var b, x := CodeOf(f), Concat(InstrBytes, f.body);
    assert b == x + [0x0B];
    hide Concat, ReadInstrs, AllShaped;
    assert b[0..0 + |x|] == x;
    InstrsRead(b, 0, f.body);
  }

  // ---- functions -------------------------------------------------------------------------------------------------

  lemma GroupsRead(gs: seq<Group>, code: seq<byte>)
    requires |gs| < TWO32 && forall i :: 0 <= i < |gs| ==> gs[i].count < TWO32
    ensures var b := Vector(GroupBytes, gs) + code;
            && L.Leb(b, 0) == L.Ok((|gs| as u32, |Length(|gs|)|))
            && L.Items(ReadGroup, b, |Length(|gs|)|, |gs|) == L.Ok((gs, |Vector(GroupBytes, gs)|))
  {
    hide At, GroupBytes, ReadGroup;
    forall b: seq<byte>, cur: nat, g: Group | R.GroupFits(g) && At(b, cur, GroupBytes(g))
      ensures ReadGroup(b, cur) == L.Ok((SameGroup(g), cur + |GroupBytes(g)|))
    {
      GroupRead(b, cur, g);
    }
    assert R.Inverse(GroupBytes, ReadGroup, SameGroup, R.GroupFits);
    hide *;
    R.VectorPrefix(GroupBytes, ReadGroup, SameGroup, R.GroupFits, gs, code) by { GroupsFit(gs); }
    MapSame(SameGroup, gs) by { GroupSame(); }
  }

  function SameGroup(g: Group): Group { g }

  lemma GroupSame()
    ensures forall g :: SameGroup(g) == g
  {
  }

  lemma GroupsFit(gs: seq<Group>)
    requires forall i :: 0 <= i < |gs| ==> gs[i].count < TWO32
    ensures forall i :: 0 <= i < |gs| ==> R.GroupFits(gs[i])
  {
  }

  function Source(f: FuncDef): Code {
    Code(f.locals, f.body)
  }

  predicate FuncFits(f: FuncDef) {
    R.FuncFits(f) && AllShaped(f.body)
  }

  lemma EntryRead(f: FuncDef)
    requires FuncFits(f)
    ensures ReadEntry(EntryBytes(f)) == L.Ok(Source(f))
  {
    var gs, b := Compress(f.locals), EntryBytes(f);
    R.CompressedTotal(f.locals);
    CompressExact(f.locals);
    GroupsRead(gs, CodeOf(f));
    CodeRead(f);
    assert b == Vector(GroupBytes, gs) + CodeOf(f) && b[|Vector(GroupBytes, gs)|..] == CodeOf(f);
    hide Vector, CodeOf, L.Leb, L.Items, ReadInstrs, Compress, Expand, EntryBytes, Length;
  }

  lemma FunctionRead(b: seq<byte>, cur: nat, f: FuncDef)
    requires FuncFits(f) && At(b, cur, BodyBytes(f))
    ensures ReadCode(b, cur) == L.Ok((Source(f), cur + |BodyBytes(f)|))
  {
    hide *;
    BodyIs(f);
    EntryRead(f);
    NameRead(b, cur, EntryBytes(f));
    CodeIs(b, cur, EntryBytes(f), cur + |BodyBytes(f)|, Source(f));
  }

  lemma BodyIs(f: FuncDef)
    requires FuncFits(f)
    ensures |EntryBytes(f)| < TWO32 && BodyBytes(f) == LengthPrefixed(EntryBytes(f))
  {
    hide EntryBytes, AllShaped;
  }

  lemma CodeIs(b: seq<byte>, cur: nat, entry: seq<byte>, next: nat, c: Code)
    requires NameAt(b, cur) == L.Ok((entry, next)) && ReadEntry(entry) == L.Ok(c)
    ensures ReadCode(b, cur) == L.Ok((c, next))
  {
    hide NameAt, ReadEntry;
  }

  // ---- modules ---------------------------------------------------------------------------------------------------

  function SameType(t: FuncType): FuncType { t }
  function SameImport(i: Import): Import { i }
  function SameLimits(m: Limits): Limits { m }
  function SameExport(e: Export): Export { e }
  function SameData(d: DataSeg): DataSeg { d }
  predicate AnyLimits(m: Limits) { true }
  predicate ExportFits(e: Export) { |e.name| < TWO32 }

  lemma AllInverse()
    ensures R.Inverse(FuncTypeBytes, ReadFuncType, SameType, R.TypeFits)
    ensures R.Inverse(ImportBytes, ReadImport, SameImport, R.ImportFits)
    ensures R.Inverse(LimitsBytes, ReadLimits, SameLimits, AnyLimits)
    ensures R.Inverse(ExportBytes, ReadExport, SameExport, ExportFits)
    ensures R.Inverse(BodyBytes, ReadCode, Source, FuncFits)
    ensures R.Inverse(DataBytes, ReadData, SameData, R.DataFits)
  {
    hide At, FuncTypeBytes, ReadFuncType, ImportBytes, ReadImport, LimitsBytes, ReadLimits, ExportBytes, ReadExport,
         BodyBytes, ReadCode, DataBytes, ReadData, Source, FuncFits, R.TypeFits, R.ImportFits, R.DataFits;
    forall b: seq<byte>, cur: nat, t: FuncType | R.TypeFits(t) && At(b, cur, FuncTypeBytes(t))
      ensures ReadFuncType(b, cur) == L.Ok((SameType(t), cur + |FuncTypeBytes(t)|))
    {
      FuncTypeRead(b, cur, t);
    }
    forall b: seq<byte>, cur: nat, i: Import | R.ImportFits(i) && At(b, cur, ImportBytes(i))
      ensures ReadImport(b, cur) == L.Ok((SameImport(i), cur + |ImportBytes(i)|))
    {
      ImportRead(b, cur, i);
    }
    forall b: seq<byte>, cur: nat, l: Limits | AnyLimits(l) && At(b, cur, LimitsBytes(l))
      ensures ReadLimits(b, cur) == L.Ok((SameLimits(l), cur + |LimitsBytes(l)|))
    {
      LimitsRead(b, cur, l);
    }
    forall b: seq<byte>, cur: nat, e: Export | ExportFits(e) && At(b, cur, ExportBytes(e))
      ensures ReadExport(b, cur) == L.Ok((SameExport(e), cur + |ExportBytes(e)|))
    {
      ExportRead(b, cur, e);
    }
    forall b: seq<byte>, cur: nat, f: FuncDef | FuncFits(f) && At(b, cur, BodyBytes(f))
      ensures ReadCode(b, cur) == L.Ok((Source(f), cur + |BodyBytes(f)|))
    {
      FunctionRead(b, cur, f);
    }
    forall b: seq<byte>, cur: nat, d: DataSeg | R.DataFits(d) && At(b, cur, DataBytes(d))
      ensures ReadData(b, cur) == L.Ok((SameData(d), cur + |DataBytes(d)|))
    {
      DataRead(b, cur, d);
    }
  }

  /** Lengths that fit u32, instructions with their own immediates. */
  predicate Fits(m: Module) {
    && R.BodiesFit(m)
    && |m.types| < TWO32 && (forall i :: 0 <= i < |m.types| ==> R.TypeFits(m.types[i]))
    && |m.imports| < TWO32 && (forall i :: 0 <= i < |m.imports| ==> R.ImportFits(m.imports[i]))
    && |m.funcs| < TWO32 && (forall i :: 0 <= i < |m.funcs| ==> FuncFits(m.funcs[i]))
    && |m.memories| < TWO32
    && |m.exports| < TWO32 && (forall i :: 0 <= i < |m.exports| ==> ExportFits(m.exports[i]))
    && |m.data| < TWO32 && (forall i :: 0 <= i < |m.data| ==> R.DataFits(m.data[i]))
  }

  lemma SectionsRead(m: Module)
    requires Fits(m)
    ensures L.Counted(ReadFuncType, TypeSection(m).body, TWO32) == L.Ok(m.types)
    ensures L.Counted(ReadImport, ImportSection(m).body, TWO32) == L.Ok(m.imports)
    ensures L.Counted(ReadLimits, MemorySection(m).body, TWO32) == L.Ok(m.memories)
    ensures L.Counted(ReadExport, ExportSection(m).body, TWO32) == L.Ok(m.exports)
    ensures L.Counted(ReadCode, CodeSection(m).body, TWO32) == L.Ok(R.Map(Source, m.funcs))
    ensures L.Counted(ReadData, DataSection(m).body, TWO32) == L.Ok(m.data)
  {
    AllInverse();
    MapSame(SameType, m.types);
    MapSame(SameImport, m.imports);
    MapSame(SameLimits, m.memories);
    MapSame(SameExport, m.exports);
    MapSame(SameData, m.data);
    R.SectionBodies(m);
    assert forall i :: 0 <= i < |m.memories| ==> AnyLimits(m.memories[i]);
    hide *;
    R.VectorAt(FuncTypeBytes, ReadFuncType, SameType, R.TypeFits, m.types, TWO32);
    R.VectorAt(ImportBytes, ReadImport, SameImport, R.ImportFits, m.imports, TWO32);
    R.VectorAt(LimitsBytes, ReadLimits, SameLimits, AnyLimits, m.memories, TWO32);
    R.VectorAt(ExportBytes, ReadExport, SameExport, ExportFits, m.exports, TWO32);
    R.VectorAt(BodyBytes, ReadCode, Source, FuncFits, m.funcs, TWO32);
    R.VectorAt(DataBytes, ReadData, SameData, R.DataFits, m.data, TWO32);
  }

  /** The items of a section, none where it is absent. */
  function Part<T>(s: L.Loaded, id: byte, p: L.Item<T>): L.Result<seq<T>> {
    if id in s then L.Counted(p, s[id], TWO32) else L.Ok([])
  }

  lemma PartRead<T>(s: L.Loaded, id: byte, p: L.Item<T>, xs: seq<T>, body: seq<byte>, present: bool)
    requires R.Holds(s, id, present, body) && (present <==> xs != []) && L.Counted(p, body, TWO32) == L.Ok(xs)
    ensures Part(s, id, p) == L.Ok(xs)
  {
  }

  /** The module comes back: what `load` keeps of the assembled bytes, read as the binary format prescribes, is the
      module that was assembled, with its types, imports, type indices, locals, instructions, memories, exports and
      data. */
  lemma ModuleComesBack(m: Module)
    requires Fits(m)
    ensures L.LoadOf(ModuleBytes(m)).Ok?
    ensures var s := L.LoadOf(ModuleBytes(m)).value;
            && Part(s, 1, ReadFuncType) == L.Ok(m.types) && Part(s, 2, ReadImport) == L.Ok(m.imports)
            && Part(s, 3, L.Leb) == L.Ok(R.Map(R.TypeIdxOf, m.funcs)) && Part(s, 5, ReadLimits) == L.Ok(m.memories)
            && Part(s, 7, ReadExport) == L.Ok(m.exports) && Part(s, 10, ReadCode) == L.Ok(R.Map(Source, m.funcs))
            && Part(s, 11, ReadData) == L.Ok(m.data)
  {
    assert R.BodiesFit(m) && |m.funcs| < TWO32;
    hide *;
    R.AssembledLoads(m);
    SectionsRead(m);
    IndicesRead(m);
    var s := L.LoadOf(ModuleBytes(m)).value;
    PartRead(s, 1, ReadFuncType, m.types, TypeSection(m).body, m.types != []);
    PartRead(s, 2, ReadImport, m.imports, ImportSection(m).body, m.imports != []);
    PartRead(s, 3, L.Leb, R.Map(R.TypeIdxOf, m.funcs), FunctionSection(m).body, m.funcs != []);
    PartRead(s, 5, ReadLimits, m.memories, MemorySection(m).body, m.memories != []);
    PartRead(s, 7, ReadExport, m.exports, ExportSection(m).body, m.exports != []);
    PartRead(s, 10, ReadCode, R.Map(Source, m.funcs), CodeSection(m).body, m.funcs != []);
    PartRead(s, 11, ReadData, m.data, DataSection(m).body, m.data != []);
  }

  lemma IndicesRead(m: Module)
    requires |m.funcs| < TWO32
    ensures L.Counted(L.Leb, FunctionSection(m).body, TWO32) == L.Ok(R.Map(R.TypeIdxOf, m.funcs))
  {
    forall b: seq<byte>, cur: nat, f: FuncDef | R.AnyFunc(f) && At(b, cur, TypeIndexBytes(f))
      ensures L.Leb(b, cur) == L.Ok((R.TypeIdxOf(f), cur + |TypeIndexBytes(f)|))
    {
      R.LebAt(b, cur, f.typeIdx);
    }
    assert R.Inverse(TypeIndexBytes, L.Leb, R.TypeIdxOf, R.AnyFunc);
    assert forall i :: 0 <= i < |m.funcs| ==> R.AnyFunc(m.funcs[i]);
    R.SectionBodies(m);
    hide *;
    R.VectorAt(TypeIndexBytes, L.Leb, R.TypeIdxOf, R.AnyFunc, m.funcs, TWO32);
  }
}
