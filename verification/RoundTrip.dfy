/** Assembling and loading are inverse: what `emit_module` writes, `load` and the section parsers read back. */
module RoundTrip {
  import opened Words
  import opened Bytes
  import opened Leb128
  import opened Opcode
  import opened Emitter
  import L = Loader

  lemma LebAt(b: seq<byte>, cur: nat, v: u32)
    requires At(b, cur, WriteU32(v))
    ensures L.Leb(b, cur) == L.Ok((v, cur + |WriteU32(v)|))
  {
    hide WriteU32, ReadU32;
    var rest := b[cur + |WriteU32(v)|..];
    assert b[cur..] == WriteU32(v) + rest;
    U32RoundTrip(v, rest);
  }

  lemma LengthAt(b: seq<byte>, cur: nat, n: nat)
    requires At(b, cur, Length(n)) && n < TWO32
    ensures L.Leb(b, cur) == L.Ok((n as u32, cur + |Length(n)|))
  {
    assert n % TWO32 == n;
    LebAt(b, cur, n);
  }

  // ---- items -------------------------------------------------------------------------------------------------

  function Map<S, T>(g: S -> T, xs: seq<S>): (r: seq<T>)
    ensures |r| == |xs|
  {
    seq(|xs|, i requires 0 <= i < |xs| => g(xs[i]))
  }

  /** Parser `p` reads back what `f` wrote, as `g`. */
  ghost predicate Inverse<S(!new), T>(f: S -> seq<byte>, p: L.Item<T>, g: S -> T, ok: S -> bool) {
    forall b: seq<byte>, cur: nat, x: S :: ok(x) && At(b, cur, f(x)) ==> p(b, cur) == L.Ok((g(x), cur + |f(x)|))
  }

  lemma {:induction false} ItemsAt<S(!new), T>(f: S -> seq<byte>, p: L.Item<T>, g: S -> T, ok: S -> bool, xs: seq<S>,
                                               b: seq<byte>, cur: nat)
    requires Inverse(f, p, g, ok) && At(b, cur, Concat(f, xs)) && forall i :: 0 <= i < |xs| ==> ok(xs[i])
    ensures L.Items(p, b, cur, |xs|) == L.Ok((Map(g, xs), cur + |Concat(f, xs)|))
    decreases |xs|
  {
    hide At;
    if xs != [] {
      var n := |xs| - 1;
      AtSplit(b, cur, Concat(f, xs[..n]), f(xs[n]));
      ItemsAt(f, p, g, ok, xs[..n], b, cur);
      assert Map(g, xs[..n]) + [g(xs[n])] == Map(g, xs);
    }
  }

  lemma VectorPrefix<S(!new), T>(f: S -> seq<byte>, p: L.Item<T>, g: S -> T, ok: S -> bool, xs: seq<S>, rest: seq<byte>)
    requires Inverse(f, p, g, ok) && |xs| < TWO32 && forall i :: 0 <= i < |xs| ==> ok(xs[i])
    ensures var b := Vector(f, xs) + rest;
            && L.Leb(b, 0) == L.Ok((|xs| as u32, |Length(|xs|)|))
            && L.Items(p, b, |Length(|xs|)|, |xs|) == L.Ok((Map(g, xs), |Vector(f, xs)|))
  {
    assert Vector(f, xs) == Length(|xs|) + Concat(f, xs);
    hide *;
    var b := Vector(f, xs) + rest;
    AtWhole(b);
    AtSplit(b, 0, Vector(f, xs), rest);
    AtSplit(b, 0, Length(|xs|), Concat(f, xs));
    LengthAt(b, 0, |xs|);
    ItemsAt(f, p, g, ok, xs, b, |Length(|xs|)|);
  }

  /** A written vector is read back by the counted loop, within its capacity. */
  lemma VectorAt<S(!new), T>(f: S -> seq<byte>, p: L.Item<T>, g: S -> T, ok: S -> bool, xs: seq<S>, max: nat)
    requires Inverse(f, p, g, ok) && |xs| <= max && |xs| < TWO32 && forall i :: 0 <= i < |xs| ==> ok(xs[i])
    ensures L.Counted(p, Vector(f, xs), max) == L.Ok(Map(g, xs))
  {
    VectorPrefix(f, p, g, ok, xs, []);
    assert Vector(f, xs) + [] == Vector(f, xs);
    hide L.Items, L.Leb, Vector, Map, Length;
  }

  lemma AtWhole(b: seq<byte>)
    ensures At(b, 0, b)
  {
  }

  // ---- types, functions, imports ------------------------------------------------------------------------------

  predicate TypeFits(t: FuncType) { |t.params| < TWO32 && |t.results| < TWO32 }
  function Arity(t: FuncType): (nat, nat) { (|t.params|, |t.results|) }

  lemma TypesInverse()
    ensures Inverse(FuncTypeBytes, L.TypeItem, Arity, TypeFits)
  {
    hide FuncTypeBytes, L.TypeItem, Arity, TypeFits, At;
    forall b: seq<byte>, cur: nat, t: FuncType | TypeFits(t) && At(b, cur, FuncTypeBytes(t))
      ensures L.TypeItem(b, cur) == L.Ok((Arity(t), cur + |FuncTypeBytes(t)|))
    {
      TypeAt(b, cur, t);
    }
  }

  lemma TypeAt(b: seq<byte>, cur: nat, t: FuncType)
    requires TypeFits(t) && At(b, cur, FuncTypeBytes(t))
    ensures L.TypeItem(b, cur) == L.Ok((Arity(t), cur + |FuncTypeBytes(t)|))
  {
    hide Length, L.Leb, TypeBytes;
    var p, q := Length(|t.params|), Length(|t.results|);
    var h: seq<byte> := [0x60];
    AtSplit(b, cur, h + p + TypeBytes(t.params) + q, TypeBytes(t.results));
    AtSplit(b, cur, h + p + TypeBytes(t.params), q);
    AtSplit(b, cur, h + p, TypeBytes(t.params));
    AtSplit(b, cur, h, p);
    LengthAt(b, cur + 1, |t.params|);
    LengthAt(b, cur + 1 + |p| + |t.params|, |t.results|);
  }

  function TypeIdxOf(f: FuncDef): u32 { f.typeIdx }
  predicate AnyFunc(f: FuncDef) { true }

  lemma IndicesInverse()
    ensures Inverse(TypeIndexBytes, L.IndexItem, TypeIdxOf, AnyFunc)
  {
    forall b: seq<byte>, cur: nat, f: FuncDef | At(b, cur, TypeIndexBytes(f))
      ensures L.IndexItem(b, cur) == L.Ok((TypeIdxOf(f), cur + |TypeIndexBytes(f)|))
    {
      LebAt(b, cur, f.typeIdx);
    }
  }

  predicate ImportFits(i: Import) { |i.mod| < TWO32 && |i.name| < TWO32 }
  function ImportType(i: Import): Option<u32> { Some(i.typeIdx) }

  lemma ImportsInverse()
    ensures Inverse(ImportBytes, L.ImportItem, ImportType, ImportFits)
  {
    hide ImportBytes, L.ImportItem, ImportType, ImportFits, At;
    forall b: seq<byte>, cur: nat, i: Import | ImportFits(i) && At(b, cur, ImportBytes(i))
      ensures L.ImportItem(b, cur) == L.Ok((ImportType(i), cur + |ImportBytes(i)|))
    {
      ImportItemAt(b, cur, i);
    }
  }

  lemma ImportItemAt(b: seq<byte>, cur: nat, i: Import)
    requires ImportFits(i) && At(b, cur, ImportBytes(i))
    ensures L.ImportItem(b, cur) == L.Ok((ImportType(i), cur + |ImportBytes(i)|))
  {
    hide ImportBytes, L.Leb, L.DescriptorEnd, At, Length;
    ImportAt(b, cur, i);
  }

  /** The pieces of a written import. */
  lemma ImportAt(b: seq<byte>, cur: nat, i: Import)
    requires ImportFits(i) && At(b, cur, ImportBytes(i))
    ensures var m := cur + |Length(|i.mod|)|;
            var c := m + |i.mod|;
            var n := c + |Length(|i.name|)|;
            var at := n + |i.name|;
            && L.Leb(b, cur) == L.Ok((|i.mod| as u32, m)) && At(b, m, i.mod)
            && L.Leb(b, c) == L.Ok((|i.name| as u32, n)) && At(b, n, i.name)
            && at < |b| && b[at] == 0
            && L.Leb(b, at + 1) == L.Ok((i.typeIdx, cur + |ImportBytes(i)|))
            && L.DescriptorEnd(b, at) == L.Ok(cur + |ImportBytes(i)|)
  {
    hide Length, L.Leb, WriteU32;
    var x, y := LengthPrefixed(i.mod), LengthPrefixed(i.name);
    AtSplit(b, cur, x + y + [0x00], WriteU32(i.typeIdx));
    AtSplit(b, cur, x + y, [0x00]);
    AtSplit(b, cur, x, y);
    AtSplit(b, cur, Length(|i.mod|), i.mod);
    AtSplit(b, cur + |x|, Length(|i.name|), i.name);
    LengthAt(b, cur, |i.mod|);
    LengthAt(b, cur + |x|, |i.name|);
    var at := cur + |x| + |y|;
    AtOne(b, at, 0x00);
    LebAt(b, at + 1, i.typeIdx);
  }

  function ImportIdx(i: Import): u32 { i.typeIdx }

  /** Every emitted import is a function import. */
  lemma {:induction false} AllFuncs(imports: seq<Import>)
    ensures L.FuncsOnly(Map(ImportType, imports)) == Map(ImportIdx, imports)
    decreases |imports|
  {
    hide L.FuncsOnly;
    if imports == [] {
      L.NoFuncs();
      assert Map(ImportType, imports) == [];
    } else {
      var n := |imports| - 1;
      AllFuncs(imports[..n]);
      MapSnoc(ImportType, imports);
      MapSnoc(ImportIdx, imports);
      L.FuncsOnlyNext(Map(ImportType, imports[..n]), ImportType(imports[n]));
    }
  }

  lemma MapSnoc<S, T>(g: S -> T, xs: seq<S>)
    requires xs != []
    ensures Map(g, xs) == Map(g, xs[..|xs| - 1]) + [g(xs[|xs| - 1])]
  {
  }

  // ---- code ----------------------------------------------------------------------------------------------------

  predicate GroupFits(g: Group) { g.count < TWO32 }
  function CountOf(g: Group): u32 { g.count % TWO32 }

  lemma GroupsInverse()
    ensures Inverse(GroupBytes, L.GroupItem, CountOf, GroupFits)
  {
    forall b: seq<byte>, cur: nat, g: Group | GroupFits(g) && At(b, cur, GroupBytes(g))
      ensures L.GroupItem(b, cur) == L.Ok((CountOf(g), cur + |GroupBytes(g)|))
    {
      AtSplit(b, cur, Length(g.count), [TypeByte(g.ty)]);
      LengthAt(b, cur, g.count);
      assert g.count % TWO32 == g.count;
    }
  }

  /** The declared groups add up to the locals, none larger than all of them. */
  lemma {:induction false} CompressedTotal(ts: seq<ValType>)
    requires |ts| < TWO32
    ensures forall i :: 0 <= i < |Compress(ts)| ==> Compress(ts)[i].count <= |ts|
    ensures |Compress(ts)| <= |ts|
    ensures L.Total(Map(CountOf, Compress(ts))) == |ts|
    decreases |ts|
  {
    if ts != [] {
      var init, t := ts[..|ts| - 1], ts[|ts| - 1];
      CompressedTotal(init);
      TotalAfter(Compress(init), t, |init|);
      CountsAfter(Compress(init), t, |init|);
    }
  }

  lemma TotalAfter(gs: seq<Group>, t: ValType, n: nat)
    requires n + 1 < TWO32 && L.Total(Map(CountOf, gs)) == n
    requires forall i :: 0 <= i < |gs| ==> gs[i].count <= n
    ensures L.Total(Map(CountOf, AddLocal(gs, t))) == n + 1
  {
    hide L.Total, Map, CountOf;
    if gs != [] && gs[|gs| - 1].ty == t {
      var init, c := gs[..|gs| - 1], gs[|gs| - 1].count;
      TotalSnoc(gs);
      TotalPlus(init, Group(c + 1, t));
    } else {
      TotalPlus(gs, Group(1, t));
    }
  }

  lemma CountsAfter(gs: seq<Group>, t: ValType, n: nat)
    requires |gs| <= n && forall i :: 0 <= i < |gs| ==> gs[i].count <= n
    ensures |AddLocal(gs, t)| <= n + 1
    ensures forall i :: 0 <= i < |AddLocal(gs, t)| ==> AddLocal(gs, t)[i].count <= n + 1
  {
  }

  lemma TotalPlus(gs: seq<Group>, g: Group)
    requires g.count < TWO32
    ensures L.Total(Map(CountOf, gs + [g])) == L.Total(Map(CountOf, gs)) + g.count
  {
    hide L.Total, Map, CountOf;
    TotalSnoc(gs + [g]);
    assert (gs + [g])[..|gs|] == gs;
  }

  lemma TotalSnoc(gs: seq<Group>)
    requires gs != [] && gs[|gs| - 1].count < TWO32
    ensures L.Total(Map(CountOf, gs)) == L.Total(Map(CountOf, gs[..|gs| - 1])) + gs[|gs| - 1].count
  {
    var k := |gs| - 1;
    MapSnoc(CountOf, gs);
    var init, c := Map(CountOf, gs[..k]), CountOf(gs[k]);
    assert (init + [c])[..|init|] == init;
    assert c == gs[k].count;
  }

  predicate FuncFits(f: FuncDef) { |f.locals| < TWO32 && |EntryBytes(f)| < TWO32 }
  function LocalsAndCode(f: FuncDef): (nat, seq<byte>) { (|f.locals|, CodeOf(f)) }

  lemma EntryRead(f: FuncDef)
    requires FuncFits(f)
    ensures L.EntryOf(EntryBytes(f)) == L.Ok(LocalsAndCode(f))
  {
    var gs := Compress(f.locals);
    CompressedTotal(f.locals);
    hide *;
    GroupsRead(gs, CodeOf(f));
    assert EntryBytes(f) == Vector(GroupBytes, gs) + CodeOf(f) by { EntryBytesAre(f); }
    assert LocalsAndCode(f) == (|f.locals|, CodeOf(f)) by { LocalsAndCodeAre(f); }
  }

  lemma EntryBytesAre(f: FuncDef)
    ensures EntryBytes(f) == Vector(GroupBytes, Compress(f.locals)) + CodeOf(f)
  {
  }

  lemma LocalsAndCodeAre(f: FuncDef)
    ensures LocalsAndCode(f) == (|f.locals|, CodeOf(f))
  {
  }

  lemma GroupsRead(gs: seq<Group>, code: seq<byte>)
    requires |gs| < TWO32 && forall i :: 0 <= i < |gs| ==> gs[i].count < TWO32
    ensures L.EntryOf(Vector(GroupBytes, gs) + code) == L.Ok((L.Total(Map(CountOf, gs)), code))
  {
    GroupsInverse();
    assert forall i :: 0 <= i < |gs| ==> GroupFits(gs[i]);
    hide *;
    VectorPrefix(GroupBytes, L.GroupItem, CountOf, GroupFits, gs, code);
    var b := Vector(GroupBytes, gs) + code;
    EntryIs(b, |gs|, |Length(|gs|)|, Map(CountOf, gs), |Vector(GroupBytes, gs)|);
    assert b[|Vector(GroupBytes, gs)|..] == code;
  }

  lemma EntryIs(b: seq<byte>, groups: u32, at: nat, counts: seq<u32>, end: nat)
    requires L.Leb(b, 0) == L.Ok((groups, at)) && L.Items(L.GroupItem, b, at, groups) == L.Ok((counts, end))
    requires end <= |b|
    ensures L.EntryOf(b) == L.Ok((L.Total(counts), b[end..]))
  {
    hide L.Items, L.Leb, L.GroupItem, L.Total;
  }

  lemma CodeInverse()
    ensures Inverse(BodyBytes, L.CodeItem, LocalsAndCode, FuncFits)
  {
    hide BodyBytes, L.CodeItem, LocalsAndCode, FuncFits, At;
    forall b: seq<byte>, cur: nat, f: FuncDef | FuncFits(f) && At(b, cur, BodyBytes(f))
      ensures L.CodeItem(b, cur) == L.Ok((LocalsAndCode(f), cur + |BodyBytes(f)|))
    {
      CodeAt(b, cur, f);
    }
  }

  lemma CodeAt(b: seq<byte>, cur: nat, f: FuncDef)
    requires FuncFits(f) && At(b, cur, BodyBytes(f))
    ensures L.CodeItem(b, cur) == L.Ok((LocalsAndCode(f), cur + |BodyBytes(f)|))
  {
    hide *;
    var e := EntryBytes(f);
    EntryRead(f);
    assert |e| < TWO32 && BodyBytes(f) == Length(|e|) + e by { BodyIs(f); }
    AtSplit(b, cur, Length(|e|), e);
    LengthAt(b, cur, |e|);
    CodeIs(b, cur, e, cur + |Length(|e|)|);
  }

  lemma BodyIs(f: FuncDef)
    requires FuncFits(f)
    ensures |EntryBytes(f)| < TWO32 && BodyBytes(f) == Length(|EntryBytes(f)|) + EntryBytes(f)
  {
  }

  lemma CodeIs(b: seq<byte>, cur: nat, e: seq<byte>, at: nat)
    requires |e| < TWO32 && L.Leb(b, cur) == L.Ok((|e| as u32, at)) && At(b, at, e) && L.EntryOf(e).Ok?
    ensures L.CodeItem(b, cur) == L.Ok((L.EntryOf(e).value, at + |e|))
  {
    hide L.Leb, L.EntryOf;
  }

  // ---- walks from the front -------------------------------------------------------------------------------------

  lemma {:induction false} ConcatFront<S>(f: S -> seq<byte>, xs: seq<S>)
    requires xs != []
    ensures Concat(f, xs) == f(xs[0]) + Concat(f, xs[1..])
    decreases |xs|
  {
    var n := |xs| - 1;
    if n == 0 {
      assert xs[..n] == [] && xs[1..] == [];
      assert Concat(f, xs) == [] + f(xs[0]);
    } else {
      ConcatFront(f, xs[..n]);
      assert xs[..n][1..] == xs[1..][..n - 1];
      Assoc(f(xs[0]), Concat(f, xs[1..][..n - 1]), f(xs[n]));
    }
  }

  /** The first item of a concatenation and where the rest stands. */
  lemma FrontAt<S>(f: S -> seq<byte>, xs: seq<S>, b: seq<byte>, cur: nat)
    requires xs != [] && At(b, cur, Concat(f, xs))
    ensures At(b, cur, f(xs[0])) && At(b, cur + |f(xs[0])|, Concat(f, xs[1..]))
    ensures |Concat(f, xs)| == |f(xs[0])| + |Concat(f, xs[1..])|
  {
    hide *;
    ConcatFront(f, xs);
    AtSplit(b, cur, f(xs[0]), Concat(f, xs[1..]));
  }

  lemma NameAt(utf8: seq<byte> -> bool, b: seq<byte>, cur: nat, name: seq<byte>)
    requires At(b, cur, LengthPrefixed(name)) && |name| < TWO32 && utf8(name)
    ensures L.NameItem(utf8, b, cur) == L.Ok((name, cur + |LengthPrefixed(name)|))
  {
    hide Length, L.Leb;
    AtSplit(b, cur, Length(|name|), name);
    LengthAt(b, cur, |name|);
  }

  // ---- exports --------------------------------------------------------------------------------------------------

  predicate ExportFits(utf8: seq<byte> -> bool, e: Export) { |e.name| < TWO32 && utf8(e.name) }

  /** The first function export of that name. */
  function FirstExport(xs: seq<Export>, name: seq<byte>): Option<u32> {
    if xs == [] then None
    else if xs[0].kind == 0 && xs[0].name == name then Some(xs[0].index)
    else FirstExport(xs[1..], name)
  }

  lemma ExportAt(utf8: seq<byte> -> bool, b: seq<byte>, cur: nat, e: Export)
    requires ExportFits(utf8, e) && At(b, cur, ExportBytes(e))
    ensures var at := cur + |LengthPrefixed(e.name)|;
            && L.NameItem(utf8, b, cur) == L.Ok((e.name, at)) && at < |b| && b[at] == e.kind
            && L.Leb(b, at + 1) == L.Ok((e.index, cur + |ExportBytes(e)|))
  {
    hide LengthPrefixed, L.Leb, L.NameItem, WriteU32;
    var x := LengthPrefixed(e.name);
    AtSplit(b, cur, x + [e.kind], WriteU32(e.index));
    AtSplit(b, cur, x, [e.kind]);
    AtOne(b, cur + |x|, e.kind);
    NameAt(utf8, b, cur, e.name);
    LebAt(b, cur + |x| + 1, e.index);
  }

  lemma {:induction false} ExportsAt(utf8: seq<byte> -> bool, b: seq<byte>, cur: nat, xs: seq<Export>, name: seq<byte>)
    requires At(b, cur, Concat(ExportBytes, xs)) && forall i :: 0 <= i < |xs| ==> ExportFits(utf8, xs[i])
    ensures L.ExportFrom(utf8, b, cur, |xs|, name) == FirstExport(xs, name)
    decreases |xs|
  {
    hide At, ExportBytes, ExportFits, L.NameItem, L.Leb, Concat;
    if xs != [] {
      FrontAt(ExportBytes, xs, b, cur);
      ExportAt(utf8, b, cur, xs[0]);
      ExportsAt(utf8, b, cur + |ExportBytes(xs[0])|, xs[1..], name);
    }
  }

  // ---- import names ---------------------------------------------------------------------------------------------

  predicate ImportText(utf8: seq<byte> -> bool, i: Import) { ImportFits(i) && utf8(i.mod) && utf8(i.name) }
  function NamesOf(i: Import): (seq<byte>, seq<byte>) { (i.mod, i.name) }

  lemma ImportNamesAt(utf8: seq<byte> -> bool, b: seq<byte>, cur: nat, i: Import)
    requires ImportText(utf8, i) && At(b, cur, ImportBytes(i))
    ensures var c := cur + |LengthPrefixed(i.mod)|;
            var at := c + |LengthPrefixed(i.name)|;
            && L.NameItem(utf8, b, cur) == L.Ok((i.mod, c)) && L.NameItem(utf8, b, c) == L.Ok((i.name, at))
            && at < |b| && b[at] == 0 && L.DescriptorEnd(b, at) == L.Ok(cur + |ImportBytes(i)|)
  {
    hide L.Leb, L.NameItem, L.DescriptorEnd, At, Length, ImportBytes;
    ImportAt(b, cur, i);
    NameIs(utf8, b, cur, i.mod, cur + |Length(|i.mod|)|);
    var c := cur + |LengthPrefixed(i.mod)|;
    NameIs(utf8, b, c, i.name, c + |Length(|i.name|)|);
  }

  lemma NameIs(utf8: seq<byte> -> bool, b: seq<byte>, cur: nat, name: seq<byte>, at: nat)
    requires |name| < TWO32 && L.Leb(b, cur) == L.Ok((|name| as u32, at)) && At(b, at, name) && utf8(name)
    ensures L.NameItem(utf8, b, cur) == L.Ok((name, at + |name|))
  {
    hide L.Leb;
  }

  lemma {:induction false} NamesAt(utf8: seq<byte> -> bool, b: seq<byte>, cur: nat, xs: seq<Import>)
    requires At(b, cur, Concat(ImportBytes, xs)) && forall i :: 0 <= i < |xs| ==> ImportText(utf8, xs[i])
    ensures L.NamesFrom(utf8, b, cur, |xs|) == Map(NamesOf, xs)
    decreases |xs|
  {
    hide At, ImportBytes, ImportText, L.NameItem, L.Leb, L.DescriptorEnd, Concat;
    if xs != [] {
      FrontAt(ImportBytes, xs, b, cur);
      ImportNamesAt(utf8, b, cur, xs[0]);
      NamesAt(utf8, b, cur + |ImportBytes(xs[0])|, xs[1..]);
      assert Map(NamesOf, xs) == [NamesOf(xs[0])] + Map(NamesOf, xs[1..]);
    }
  }

  // ---- data -----------------------------------------------------------------------------------------------------

  predicate DataFits(d: DataSeg) { |d.bytes| < TWO32 && -TWO31 <= d.offset < TWO31 }

  lemma SegmentAt(b: seq<byte>, cur: nat, d: DataSeg)
    requires DataFits(d) && At(b, cur, DataBytes(d))
    ensures L.SegmentItem(b, cur) == L.Ok((Some((d.offset, d.bytes)), cur + |DataBytes(d)|))
  {
    hide Length, L.Leb, ReadI32, WriteI32, At, DataBytes, DataFits;
    SegmentParts(b, cur, d);
  }

  lemma SegmentParts(b: seq<byte>, cur: nat, d: DataSeg)
    requires DataFits(d) && At(b, cur, DataBytes(d))
    ensures var e := cur + 2 + |WriteI32(d.offset)|;
            var at := e + 1 + |Length(|d.bytes|)|;
            && L.Leb(b, cur) == L.Ok((0, cur + 1))
            && e < |b| && b[cur + 1] == I32_CONST && b[e] == END
            && ReadI32(b[cur + 2..]) == Some((d.offset, |WriteI32(d.offset)|))
            && L.Leb(b, e + 1) == L.Ok((|d.bytes| as u32, at))
            && at + |d.bytes| <= |b| && b[at..at + |d.bytes|] == d.bytes
            && cur + |DataBytes(d)| == at + |d.bytes|
  {
    hide Length, L.Leb, ReadI32, WriteI32, At;
    var h: seq<byte> := [0x00, I32_CONST];
    var o, x := WriteI32(d.offset), LengthPrefixed(d.bytes);
    var e := cur + 2 + |o|;
    AtSplit(b, cur, h + o + [END], x);
    AtSplit(b, cur, h + o, [END]);
    AtOne(b, e, END);
    OffsetAt(b, cur, d.offset);
    AtSplit(b, e + 1, Length(|d.bytes|), d.bytes);
    LengthAt(b, e + 1, |d.bytes|);
    AtIs(b, e + 1 + |Length(|d.bytes|)|, d.bytes);
  }

  lemma AtIs(b: seq<byte>, cur: nat, piece: seq<byte>)
    requires At(b, cur, piece)
    ensures cur + |piece| <= |b| && b[cur..cur + |piece|] == piece
  {
  }

  lemma OffsetAt(b: seq<byte>, cur: nat, offset: int)
    requires -TWO31 <= offset < TWO31 && At(b, cur, [0x00, I32_CONST] + WriteI32(offset))
    ensures L.Leb(b, cur) == L.Ok((0, cur + 1))
    ensures cur + 2 + |WriteI32(offset)| <= |b| && b[cur + 1] == I32_CONST
    ensures ReadI32(b[cur + 2..]) == Some((offset, |WriteI32(offset)|))
  {
    hide L.Leb, ReadI32, WriteI32;
    var h: seq<byte>, o := [0x00, I32_CONST], WriteI32(offset);
    AtSplit(b, cur, h, o);
    assert h == [0x00] + [I32_CONST];
    AtSplit(b, cur, [0x00], [I32_CONST]);
    AtOne(b, cur + 1, I32_CONST);
    ZeroByte();
    LebAt(b, cur, 0);
    var rest := b[cur + 2 + |o|..];
    assert b[cur + 2..] == o + rest;
    I32RoundTrip(offset, rest);
  }

  lemma ZeroByte()
    ensures WriteU32(0) == [0x00]
  {
  }

  /** The segments copied in order, each cut at the end of memory. */
  function PlaceAll(mem: seq<byte>, ds: seq<DataSeg>): L.Init
    decreases |ds|
  {
    if ds == [] then L.Init(L.Done, mem)
    else
      match L.Place(mem, ds[0].offset, ds[0].bytes)
      case None => L.Init(L.Panicked, mem)
      case Some(mem') => PlaceAll(mem', ds[1..])
  }

  lemma {:induction false} SegmentsAt(b: seq<byte>, cur: nat, ds: seq<DataSeg>, mem: seq<byte>)
    requires At(b, cur, Concat(DataBytes, ds)) && forall i :: 0 <= i < |ds| ==> DataFits(ds[i])
    ensures L.InitFrom(b, cur, |ds|, mem) == PlaceAll(mem, ds)
    decreases |ds|
  {
    hide At, DataBytes, DataFits, L.SegmentItem, L.Place, Concat;
    if ds != [] {
      FrontAt(DataBytes, ds, b, cur);
      SegmentAt(b, cur, ds[0]);
      var r := L.Place(mem, ds[0].offset, ds[0].bytes);
      if r.Some? { SegmentsAt(b, cur + |DataBytes(ds[0])|, ds[1..], r.value); }
    }
  }

  /** The byte at `k` once all segments are placed: that of the last segment covering it, else what was there. */
  function LastByte(ds: seq<DataSeg>, k: nat, was: byte): byte {
    if ds == [] then was
    else
      var d := ds[|ds| - 1];
      if d.offset <= k < d.offset + |d.bytes| then d.bytes[k - d.offset] else LastByte(ds[..|ds| - 1], k, was)
  }

  /** Initialisation completes exactly when every offset lies within memory (its end included); then every byte is
      the last segment's that covers it. */
  lemma {:induction false} PlaceAllMeaning(mem: seq<byte>, ds: seq<DataSeg>)
    ensures PlaceAll(mem, ds).status == L.Done <==> forall i :: 0 <= i < |ds| ==> 0 <= ds[i].offset <= |mem|
    ensures PlaceAll(mem, ds).status != L.Refused && |PlaceAll(mem, ds).mem| == |mem|
    ensures PlaceAll(mem, ds).status == L.Done ==>
              forall k: nat :: k < |mem| ==> PlaceAll(mem, ds).mem[k] == LastByte(ds, k, mem[k])
    decreases |ds|
  {
    if ds != [] {
      var d := ds[0];
      L.PlaceDefined(mem, d.offset, d.bytes);
      var r := L.Place(mem, d.offset, d.bytes);
      if r.Some? {
        PlaceAllMeaning(r.value, ds[1..]);
        var out := PlaceAll(mem, ds);
        assert forall i :: 1 <= i < |ds| ==> ds[1..][i - 1] == ds[i];
        if out.status == L.Done {
          forall k: nat | k < |mem| ensures out.mem[k] == LastByte(ds, k, mem[k]) {
            PlacedByte(mem, d, k);
            LastByteFront(ds, k, mem[k]);
          }
        }
      }
    }
  }

  lemma PlacedByte(mem: seq<byte>, d: DataSeg, k: nat)
    requires 0 <= d.offset <= |mem| && k < |mem|
    ensures L.Place(mem, d.offset, d.bytes).value[k] == LastByte([d], k, mem[k])
  {
    assert [d][..0] == [];
    assert LastByte([], k, mem[k]) == mem[k];
  }

  lemma {:induction false} LastByteFront(ds: seq<DataSeg>, k: nat, was: byte)
    requires ds != []
    ensures LastByte(ds, k, was) == LastByte(ds[1..], k, LastByte([ds[0]], k, was))
    decreases |ds|
  {
    var n := |ds| - 1;
    if n == 0 {
      assert ds == [ds[0]] && ds[1..] == [];
    } else {
      LastByteFront(ds[..n], k, was);
      assert ds[1..][..n - 1] == ds[..n][1..];
    }
  }

  // ---- sections -------------------------------------------------------------------------------------------------

  function Assign(m: L.Loaded, secs: seq<Section>): L.Loaded
    decreases |secs|
  {
    if secs == [] then m
    else Assign(if L.Known(secs[0].id) then m[secs[0].id := secs[0].body] else m, secs[1..])
  }

  lemma SectionAt(b: seq<byte>, cur: nat, s: Section)
    requires At(b, cur, SectionBytes(s)) && |s.body| < TWO32
    ensures var at := cur + 1 + |Length(|s.body|)|;
            && cur < |b| && b[cur] == s.id && L.Leb(b, cur + 1) == L.Ok((|s.body| as u32, at))
            && at + |s.body| == cur + |SectionBytes(s)| <= |b| && b[at..at + |s.body|] == s.body
  {
    hide Length, L.Leb, At;
    AtSplit(b, cur, [s.id], LengthPrefixed(s.body));
    AtOne(b, cur, s.id);
    AtSplit(b, cur + 1, Length(|s.body|), s.body);
    LengthAt(b, cur + 1, |s.body|);
    AtIs(b, cur + 1 + |Length(|s.body|)|, s.body);
  }

  lemma {:induction false} SectionsAt(b: seq<byte>, cur: nat, secs: seq<Section>, m: L.Loaded)
    requires At(b, cur, Concat(SectionBytes, secs)) && cur + |Concat(SectionBytes, secs)| == |b|
    requires forall i :: 0 <= i < |secs| ==> |secs[i].body| < TWO32
    ensures L.LoadFrom(b, cur, m) == L.Ok(Assign(m, secs))
    decreases |secs|
  {
    hide At, SectionBytes, L.Leb, Concat, Length;
    if secs == [] {
      assert |Concat(SectionBytes, secs)| == 0 by { ConcatNothing([]); }
    } else {
      FrontAt(SectionBytes, secs, b, cur);
      SectionAt(b, cur, secs[0]);
      var m' := if L.Known(secs[0].id) then m[secs[0].id := secs[0].body] else m;
      SectionsAt(b, cur + |SectionBytes(secs[0])|, secs[1..], m');
    }
  }

  predicate BodiesFit(m: Module) {
    forall i :: 0 <= i < |Sections(m)| ==> |Sections(m)[i].body| < TWO32
  }

  lemma LoadsSections(m: Module)
    requires BodiesFit(m)
    ensures L.LoadOf(ModuleBytes(m)) == L.Ok(Assign(map[], Sections(m)))
  {
    hide Sections, L.LoadFrom, Assign, SectionBytes, Concat;
    var b := ModuleBytes(m);
    var body := Concat(SectionBytes, Sections(m));
    assert b[..4] == L.MAGIC && b[4..8] == L.VERSION && |MAGIC + VERSION| == 8;
    AtWhole(b);
    AtSplit(b, 0, MAGIC + VERSION, body);
    SectionsAt(b, 8, Sections(m), map[]);
  }

  lemma {:induction false} AssignAppend(m: L.Loaded, a: seq<Section>, b: seq<Section>)
    ensures Assign(m, a + b) == Assign(Assign(m, a), b)
    decreases |a|
  {
    if a == [] {
      assert a + b == b;
    } else {
      var m' := if L.Known(a[0].id) then m[a[0].id := a[0].body] else m;
      AssignAppend(m', a[1..], b);
      assert (a + b)[1..] == a[1..] + b;
    }
  }

  function Put(m: L.Loaded, c: bool, s: Section): L.Loaded {
    if c && L.Known(s.id) then m[s.id := s.body] else m
  }

  /** One more optional section. */
  lemma AssignWhen(m: L.Loaded, a: seq<Section>, c: bool, s: Section)
    ensures Assign(m, a + When(c, s)) == Put(Assign(m, a), c, s)
  {
    AssignAppend(m, a, When(c, s));
    if c { assert When(c, s)[1..] == []; }
  }

  lemma AssignChain(m: Module)
    ensures Assign(map[], Sections(m))
            == Put(Put(Put(Put(Put(Put(Put(Put(map[],
                   m.types != [], TypeSection(m)), m.imports != [], ImportSection(m)),
                   m.funcs != [], FunctionSection(m)), m.memories != [], MemorySection(m)),
                   m.exports != [], ExportSection(m)), m.data != [] && m.memories != [], DataCountSection(m)),
                   m.funcs != [], CodeSection(m)), m.data != [], DataSection(m))
  {
    hide Assign, When, Put, TypeSection, ImportSection, FunctionSection, MemorySection, ExportSection,
         DataCountSection, CodeSection, DataSection;
    var a: seq<Section> := [];
    NothingAssigned();
    AssignWhen(map[], a, m.types != [], TypeSection(m));
    a := a + When(m.types != [], TypeSection(m));
    AssignWhen(map[], a, m.imports != [], ImportSection(m));
    a := a + When(m.imports != [], ImportSection(m));
    AssignWhen(map[], a, m.funcs != [], FunctionSection(m));
    a := a + When(m.funcs != [], FunctionSection(m));
    AssignWhen(map[], a, m.memories != [], MemorySection(m));
    a := a + When(m.memories != [], MemorySection(m));
    AssignWhen(map[], a, m.exports != [], ExportSection(m));
    a := a + When(m.exports != [], ExportSection(m));
    AssignWhen(map[], a, m.data != [] && m.memories != [], DataCountSection(m));
    a := a + When(m.data != [] && m.memories != [], DataCountSection(m));
    AssignWhen(map[], a, m.funcs != [], CodeSection(m));
    a := a + When(m.funcs != [], CodeSection(m));
    AssignWhen(map[], a, m.data != [], DataSection(m));
  }

  /** The loaded module has exactly the non-empty parts, under their section numbers. */
  lemma AssignedSections(m: Module)
    ensures var s := Assign(map[], Sections(m));
            && Holds(s, 1, m.types != [], TypeSection(m).body)
            && Holds(s, 2, m.imports != [], ImportSection(m).body)
            && Holds(s, 3, m.funcs != [], FunctionSection(m).body)
            && Holds(s, 5, m.memories != [], MemorySection(m).body)
            && Holds(s, 7, m.exports != [], ExportSection(m).body)
            && Holds(s, 10, m.funcs != [], CodeSection(m).body)
            && Holds(s, 11, m.data != [], DataSection(m).body)
  {
    hide Assign, Vector, Sections, TypeSection, ImportSection, FunctionSection, MemorySection, ExportSection,
         DataCountSection, CodeSection, DataSection;
    SectionIds(m);
    AssignChain(m);
  }

  lemma SectionIds(m: Module)
    ensures TypeSection(m).id == 1 && ImportSection(m).id == 2 && FunctionSection(m).id == 3 && MemorySection(m).id == 5
    ensures ExportSection(m).id == 7 && CodeSection(m).id == 10 && DataSection(m).id == 11
    ensures DataCountSection(m).id == 12
  {
  }

  predicate Holds(s: L.Loaded, id: byte, present: bool, body: seq<byte>) {
    if present then id in s && s[id] == body else id !in s
  }

  lemma NothingAssigned()
    ensures Assign(map[], []) == map[]
  {
  }

  // ---- the whole module -----------------------------------------------------------------------------------------

  /** Within the loader's tables, with lengths that fit u32 and names that are text. */
  predicate Fits(m: Module, utf8: seq<byte> -> bool) {
    && BodiesFit(m)
    && |m.types| <= 128 && (forall i :: 0 <= i < |m.types| ==> TypeFits(m.types[i]))
    && |m.funcs| <= 512 && (forall i :: 0 <= i < |m.funcs| ==> FuncFits(m.funcs[i]))
    && |m.imports| < TWO32 && (forall i :: 0 <= i < |m.imports| ==> ImportText(utf8, m.imports[i]))
    && |m.exports| < TWO32 && (forall i :: 0 <= i < |m.exports| ==> ExportFits(utf8, m.exports[i]))
    && |m.data| < TWO32 && (forall i :: 0 <= i < |m.data| ==> DataFits(m.data[i]))
    && |m.memories| < TWO32
  }

  /** Loading what was assembled succeeds, with a section for exactly each non-empty part of the module. */
  lemma AssembledLoads(m: Module)
    requires BodiesFit(m)
    ensures L.LoadOf(ModuleBytes(m)).Ok?
    ensures var s := L.LoadOf(ModuleBytes(m)).value;
            && Holds(s, 1, m.types != [], TypeSection(m).body)
            && Holds(s, 2, m.imports != [], ImportSection(m).body)
            && Holds(s, 3, m.funcs != [], FunctionSection(m).body)
            && Holds(s, 5, m.memories != [], MemorySection(m).body)
            && Holds(s, 7, m.exports != [], ExportSection(m).body)
            && Holds(s, 10, m.funcs != [], CodeSection(m).body)
            && Holds(s, 11, m.data != [], DataSection(m).body)
  {
    hide *;
    LoadsSections(m);
    AssignedSections(m);
  }

  /** The parsers recover the module from its loaded sections: arities, type indices, local totals and instruction
      bytes, import and export names, memory limits and data. */
  lemma SectionsRecovered(m: Module, utf8: seq<byte> -> bool)
    requires Fits(m, utf8)
    ensures L.Counted(L.TypeItem, TypeSection(m).body, 128) == L.Ok(Map(Arity, m.types))
    ensures L.Counted(L.IndexItem, FunctionSection(m).body, 512) == L.Ok(Map(TypeIdxOf, m.funcs))
    ensures L.Counted(L.CodeItem, CodeSection(m).body, 512) == L.Ok(Map(LocalsAndCode, m.funcs))
    ensures L.Counted(L.ImportItem, ImportSection(m).body, TWO32) == L.Ok(Map(ImportType, m.imports))
    ensures L.FuncsOnly(Map(ImportType, m.imports)) == Map(ImportIdx, m.imports)
    ensures L.ImportNames(utf8, ImportSection(m).body) == Map(NamesOf, m.imports)
    ensures forall name :: L.ExportIn(utf8, ExportSection(m).body, name) == FirstExport(m.exports, name)
    ensures m.memories != [] ==> L.MinPages(MemorySection(m).body) == m.memories[0].min
    ensures forall mem :: L.InitMemoryOf(DataSection(m).body, mem) == PlaceAll(mem, m.data)
  {
    TypesInverse();
    IndicesInverse();
    CodeInverse();
    ImportsInverse();
    assert forall i :: 0 <= i < |m.imports| ==> ImportFits(m.imports[i]);
    assert forall i :: 0 <= i < |m.funcs| ==> AnyFunc(m.funcs[i]);
    hide *;
    VectorAt(FuncTypeBytes, L.TypeItem, Arity, TypeFits, m.types, L.MAX_TYPES);
    VectorAt(TypeIndexBytes, L.IndexItem, TypeIdxOf, AnyFunc, m.funcs, L.MAX_FUNCS);
    VectorAt(BodyBytes, L.CodeItem, LocalsAndCode, FuncFits, m.funcs, L.MAX_FUNCS);
    VectorAt(ImportBytes, L.ImportItem, ImportType, ImportFits, m.imports, TWO32);
    AllFuncs(m.imports);
    ImportNamesRead(m.imports, utf8);
    forall name ensures L.ExportIn(utf8, ExportSection(m).body, name) == FirstExport(m.exports, name) {
      ExportsRead(m.exports, utf8, name);
    }
    if m.memories != [] { MemoryRead(m.memories); }
    forall mem ensures L.InitMemoryOf(DataSection(m).body, mem) == PlaceAll(mem, m.data) {
      DataRead(m.data, mem);
    }
    SectionBodies(m);
  }

  // What the runtime reads out of a loaded module; an absent section is an empty part.

  function Part<T>(s: L.Loaded, id: byte, p: L.Item<T>, max: nat): L.Result<seq<T>> {
    if id in s then L.Counted(p, s[id], max) else L.Ok([])
  }

  function NamesIn(s: L.Loaded, utf8: seq<byte> -> bool): seq<(seq<byte>, seq<byte>)> {
    if 2 in s then L.ImportNames(utf8, s[2]) else []
  }

  function ExportOf(s: L.Loaded, utf8: seq<byte> -> bool, name: seq<byte>): Option<u32> {
    if 7 in s then L.ExportIn(utf8, s[7], name) else None
  }

  function PagesOf(s: L.Loaded): nat {
    if 5 in s then L.MinPages(s[5]) else 0
  }

  function MemoryFrom(s: L.Loaded, mem: seq<byte>): L.Init {
    if 11 in s then L.InitMemoryOf(s[11], mem) else L.Init(L.Done, mem)
  }

  lemma PartRead<S, T>(s: L.Loaded, id: byte, p: L.Item<T>, max: nat, g: S -> T, xs: seq<S>, body: seq<byte>)
    requires Holds(s, id, xs != [], body) && L.Counted(p, body, max) == L.Ok(Map(g, xs))
    ensures Part(s, id, p, max) == L.Ok(Map(g, xs))
  {
    if xs == [] { assert Map(g, xs) == []; }
  }

  /** The round trip, whole: loading the assembled bytes of a module succeeds, and the runtime's readers get back
      from what was loaded its function types, functions, code, imports, exports, memory and data. */
  lemma ModuleRecovered(m: Module, utf8: seq<byte> -> bool)
    requires Fits(m, utf8)
    ensures L.LoadOf(ModuleBytes(m)).Ok?
    ensures var s := L.LoadOf(ModuleBytes(m)).value;
            && Part(s, 1, L.TypeItem, 128) == L.Ok(Map(Arity, m.types))
            && Part(s, 2, L.ImportItem, TWO32) == L.Ok(Map(ImportType, m.imports))
            && Part(s, 3, L.IndexItem, 512) == L.Ok(Map(TypeIdxOf, m.funcs))
            && Part(s, 10, L.CodeItem, 512) == L.Ok(Map(LocalsAndCode, m.funcs))
            && NamesIn(s, utf8) == Map(NamesOf, m.imports)
            && PagesOf(s) == (if m.memories == [] then 0 else m.memories[0].min)
            && (forall name :: ExportOf(s, utf8, name) == FirstExport(m.exports, name))
            && forall mem :: MemoryFrom(s, mem) == PlaceAll(mem, m.data)
  {
    assert BodiesFit(m);
    hide Fits, L.LoadOf, ModuleBytes, L.Counted, L.ImportNames, L.ExportIn, L.MinPages, L.InitMemoryOf, BodiesFit,
         TypeSection, ImportSection, FunctionSection, MemorySection, ExportSection, CodeSection, DataSection;
    AssembledLoads(m);
    SectionsRecovered(m, utf8);
    var s := L.LoadOf(ModuleBytes(m)).value;
    PartRead(s, 1, L.TypeItem, L.MAX_TYPES, Arity, m.types, TypeSection(m).body);
    PartRead(s, 2, L.ImportItem, TWO32, ImportType, m.imports, ImportSection(m).body);
    PartRead(s, 3, L.IndexItem, L.MAX_FUNCS, TypeIdxOf, m.funcs, FunctionSection(m).body);
    PartRead(s, 10, L.CodeItem, L.MAX_FUNCS, LocalsAndCode, m.funcs, CodeSection(m).body);
  }

  lemma SectionBodies(m: Module)
    ensures TypeSection(m).body == Vector(FuncTypeBytes, m.types)
    ensures ImportSection(m).body == Vector(ImportBytes, m.imports)
    ensures FunctionSection(m).body == Vector(TypeIndexBytes, m.funcs)
    ensures MemorySection(m).body == Vector(LimitsBytes, m.memories)
    ensures ExportSection(m).body == Vector(ExportBytes, m.exports)
    ensures CodeSection(m).body == Vector(BodyBytes, m.funcs)
    ensures DataSection(m).body == Vector(DataBytes, m.data)
  {
  }

  /** Count and first item of a written vector. */
  lemma VectorStart<S>(f: S -> seq<byte>, xs: seq<S>)
    requires |xs| < TWO32
    ensures var b := Vector(f, xs);
            && L.Leb(b, 0) == L.Ok((|xs| as u32, |Length(|xs|)|))
            && At(b, |Length(|xs|)|, Concat(f, xs))
  {
    assert Vector(f, xs) == Length(|xs|) + Concat(f, xs);
    hide *;
    var b := Vector(f, xs);
    AtWhole(b);
    AtSplit(b, 0, Length(|xs|), Concat(f, xs));
    LengthAt(b, 0, |xs|);
  }

  lemma ImportNamesRead(xs: seq<Import>, utf8: seq<byte> -> bool)
    requires |xs| < TWO32 && forall i :: 0 <= i < |xs| ==> ImportText(utf8, xs[i])
    ensures L.ImportNames(utf8, Vector(ImportBytes, xs)) == Map(NamesOf, xs)
  {
    hide Vector, Length, L.Leb, L.NamesFrom, Map, At, Concat, ImportText;
    VectorStart(ImportBytes, xs);
    NamesAt(utf8, Vector(ImportBytes, xs), |Length(|xs|)|, xs);
  }

  lemma ExportsRead(xs: seq<Export>, utf8: seq<byte> -> bool, name: seq<byte>)
    requires |xs| < TWO32 && forall i :: 0 <= i < |xs| ==> ExportFits(utf8, xs[i])
    ensures L.ExportIn(utf8, Vector(ExportBytes, xs), name) == FirstExport(xs, name)
  {
    hide Vector, Length, L.Leb, L.ExportFrom, FirstExport, At, Concat, ExportFits;
    VectorStart(ExportBytes, xs);
    ExportsAt(utf8, Vector(ExportBytes, xs), |Length(|xs|)|, xs, name);
  }

  lemma DataRead(xs: seq<DataSeg>, mem: seq<byte>)
    requires |xs| < TWO32 && forall i :: 0 <= i < |xs| ==> DataFits(xs[i])
    ensures L.InitMemoryOf(Vector(DataBytes, xs), mem) == PlaceAll(mem, xs)
  {
    hide Vector, Length, L.Leb, L.InitFrom, PlaceAll, At, Concat, DataFits;
    VectorStart(DataBytes, xs);
    SegmentsAt(Vector(DataBytes, xs), |Length(|xs|)|, xs, mem);
  }

  lemma MemoryRead(xs: seq<Limits>)
    requires 0 < |xs| < TWO32
    ensures L.MinPages(Vector(LimitsBytes, xs)) == xs[0].min
  {
    var b, cur := Vector(LimitsBytes, xs), |Length(|xs|)|;
    hide Vector, Length, L.Leb, At, Concat;
    VectorStart(LimitsBytes, xs);
    FrontAt(LimitsBytes, xs, b, cur);
    LimitsAt(b, cur, xs[0]);
  }

  lemma LimitsAt(b: seq<byte>, cur: nat, m: Limits)
    requires At(b, cur, LimitsBytes(m))
    ensures cur < |b| && L.Leb(b, cur + 1) == L.Ok((m.min, cur + 1 + |WriteU32(m.min)|))
  {
    hide L.Leb, At, WriteU32;
    var flag: byte := if m.max.Some? then 1 else 0;
    if m.max.Some? { AtSplit(b, cur, [flag] + WriteU32(m.min), WriteU32(m.max.value)); }
    AtSplit(b, cur, [flag], WriteU32(m.min));
    AtOne(b, cur, flag);
    LebAt(b, cur + 1, m.min);
  }

  /** Assemble, load and initialise memory: it completes exactly when every data offset lies within memory. */
  lemma DataInitialises(m: Module, utf8: seq<byte> -> bool, mem: seq<byte>)
    requires Fits(m, utf8)
    ensures var r := L.InitMemoryOf(DataSection(m).body, mem);
            && (r.status == L.Done <==> forall i :: 0 <= i < |m.data| ==> 0 <= m.data[i].offset <= |mem|)
            && (r.status == L.Done ==>
                  |r.mem| == |mem| && forall k: nat :: k < |mem| ==> r.mem[k] == LastByte(m.data, k, mem[k]))
  {
    hide PlaceAll, L.InitMemoryOf, LastByte, Vector;
    DataRead(m.data, mem);
    PlaceAllMeaning(mem, m.data);
  }
}
