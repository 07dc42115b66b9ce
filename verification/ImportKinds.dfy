/** Imports of every kind, written as section 5.5.5 of the WebAssembly Core Specification lays them out: the two
    walks over an import section find the functions among them. */
module ImportKinds {
  import opened Words
  import opened Bytes
  import opened Leb128
  import E = Emitter
  import L = Loader
  import R = RoundTrip

  datatype Limits = AtLeast(min: u32) | Between(min: u32, max: u32)

  /** What is imported; a table carries its element type, a global its value type and mutability, one byte each. */
  datatype Kind = Func(typeIdx: u32) | Table(element: byte, size: Limits) | Memory(size: Limits)
                | Global(valType: byte, mut: byte)

  datatype Import = Import(mod: seq<byte>, name: seq<byte>, kind: Kind)

  function LimitsBytes(l: Limits): seq<byte> {
    match l
    case AtLeast(min) => [0x00] + WriteU32(min)
    case Between(min, max) => [0x01] + WriteU32(min) + WriteU32(max)
  }

  function KindBytes(k: Kind): seq<byte> {
    match k
    case Func(t) => [0x00] + WriteU32(t)
    case Table(element, size) => [0x01, element] + LimitsBytes(size)
    case Memory(size) => [0x02] + LimitsBytes(size)
    case Global(t, m) => [0x03, t, m]
  }

  function ImportBytes(i: Import): seq<byte> {
    E.LengthPrefixed(i.mod) + E.LengthPrefixed(i.name) + KindBytes(i.kind)
  }

  predicate Fits(i: Import) { |i.mod| < TWO32 && |i.name| < TWO32 }

  function TypeOf(i: Import): Option<u32> {
    if i.kind.Func? then Some(i.kind.typeIdx) else None
  }

  /** The type indices of the function imports, in order. */
  function TypesOf(xs: seq<Import>): seq<u32> {
    if xs == [] then []
    else TypesOf(xs[..|xs| - 1]) + match xs[|xs| - 1].kind case Func(t) => [t] case _ => []
  }

  /** And their names. */
  function NamesOf(xs: seq<Import>): seq<(seq<byte>, seq<byte>)> {
    if xs == [] then []
    else (if xs[0].kind.Func? then [(xs[0].mod, xs[0].name)] else []) + NamesOf(xs[1..])
  }

  // ---- one import ------------------------------------------------------------------------------------------------

  lemma LimitsAt(b: seq<byte>, cur: nat, l: Limits)
    requires At(b, cur, LimitsBytes(l))
    ensures L.LimitsEnd(b, cur) == L.Ok(cur + |LimitsBytes(l)|)
  {
    hide L.Leb, At, WriteU32;
    match l
    case AtLeast(min) =>
      AtSplit(b, cur, [0x00], WriteU32(min));
      AtOne(b, cur, 0x00);
      R.LebAt(b, cur + 1, min);
    case Between(min, max) =>
      AtSplit(b, cur, [0x01] + WriteU32(min), WriteU32(max));
      AtSplit(b, cur, [0x01], WriteU32(min));
      AtOne(b, cur, 0x01);
      R.LebAt(b, cur + 1, min);
      R.LebAt(b, cur + 1 + |WriteU32(min)|, max);
  }

  /** Every kind of descriptor is passed over exactly, and a function's type index is what follows its kind. */
  lemma DescriptorAt(b: seq<byte>, at: nat, k: Kind)
    requires At(b, at, KindBytes(k))
    ensures at < |b| && (b[at] == 0 <==> k.Func?) && L.DescriptorEnd(b, at) == L.Ok(at + |KindBytes(k)|)
    ensures k.Func? ==> L.Leb(b, at + 1) == L.Ok((k.typeIdx, at + |KindBytes(k)|))
  {
    hide L.Leb, WriteU32, LimitsBytes, L.LimitsEnd;
    match k
    case Func(t) =>
      AtSplit(b, at, [0x00], WriteU32(t));
      AtOne(b, at, 0x00);
      R.LebAt(b, at + 1, t);
    case Table(element, size) =>
      AtSplit(b, at, [0x01, element], LimitsBytes(size));
      AtTwo(b, at, 0x01, element);
      LimitsAt(b, at + 2, size);
    case Memory(size) =>
      AtSplit(b, at, [0x02], LimitsBytes(size));
      AtOne(b, at, 0x02);
      LimitsAt(b, at + 1, size);
    case Global(t, m) =>
      assert [0x03, t, m] == [0x03] + [t, m];
      AtSplit(b, at, [0x03], [t, m]);
      AtOne(b, at, 0x03);
  }

  /** The pieces of an import. */
  lemma Pieces(b: seq<byte>, cur: nat, i: Import)
    requires Fits(i) && At(b, cur, ImportBytes(i))
    ensures var m := cur + |E.Length(|i.mod|)|;
            var c := m + |i.mod|;
            var n := c + |E.Length(|i.name|)|;
            && L.Leb(b, cur) == L.Ok((|i.mod| as u32, m)) && At(b, m, i.mod)
            && L.Leb(b, c) == L.Ok((|i.name| as u32, n)) && At(b, n, i.name)
            && At(b, n + |i.name|, KindBytes(i.kind))
            && n + |i.name| + |KindBytes(i.kind)| == cur + |ImportBytes(i)|
  {
    hide E.Length, L.Leb, KindBytes;
    var x, y := E.LengthPrefixed(i.mod), E.LengthPrefixed(i.name);
    AtSplit(b, cur, x + y, KindBytes(i.kind));
    AtSplit(b, cur, x, y);
    AtSplit(b, cur, E.Length(|i.mod|), i.mod);
    AtSplit(b, cur + |x|, E.Length(|i.name|), i.name);
    R.LengthAt(b, cur, |i.mod|);
    R.LengthAt(b, cur + |x|, |i.name|);
  }

  lemma ItemAt(b: seq<byte>, cur: nat, i: Import)
    requires Fits(i) && At(b, cur, ImportBytes(i))
    ensures L.ImportItem(b, cur) == L.Ok((TypeOf(i), cur + |ImportBytes(i)|))
  {
    hide E.Length, L.Leb, KindBytes, ImportBytes, At, L.DescriptorEnd;
    Pieces(b, cur, i);
    DescriptorAt(b, cur + |E.Length(|i.mod|)| + |i.mod| + |E.Length(|i.name|)| + |i.name|, i.kind);
  }

  predicate Text(utf8: seq<byte> -> bool, i: Import) {
    Fits(i) && utf8(i.mod) && utf8(i.name)
  }

  lemma StepAt(utf8: seq<byte> -> bool, b: seq<byte>, cur: nat, i: Import)
    requires Text(utf8, i) && At(b, cur, ImportBytes(i))
    ensures L.ImportStep(utf8, b, cur)
            == L.Ok((if i.kind.Func? then Some((i.mod, i.name)) else None, cur + |ImportBytes(i)|))
  {
    hide *;
    TextMeans(utf8, i);
    Pieces(b, cur, i);
    var m := cur + |E.Length(|i.mod|)|;
    var c := m + |i.mod|;
    var n := c + |E.Length(|i.name|)|;
    R.NameIs(utf8, b, cur, i.mod, m);
    R.NameIs(utf8, b, c, i.name, n);
    DescriptorAt(b, n + |i.name|, i.kind);
    StepIs(utf8, b, cur, i.mod, c, i.name, n + |i.name|, cur + |ImportBytes(i)|);
  }

  lemma TextMeans(utf8: seq<byte> -> bool, i: Import)
    requires Text(utf8, i)
    ensures Fits(i) && |i.mod| < TWO32 && |i.name| < TWO32 && utf8(i.mod) && utf8(i.name)
  {
  }

  lemma StepIs(utf8: seq<byte> -> bool, b: seq<byte>, cur: nat, mod: seq<byte>, c: nat, name: seq<byte>, at: nat,
               next: nat)
    requires L.NameItem(utf8, b, cur) == L.Ok((mod, c)) && L.NameItem(utf8, b, c) == L.Ok((name, at))
    requires at < |b| && L.DescriptorEnd(b, at) == L.Ok(next)
    ensures L.ImportStep(utf8, b, cur) == L.Ok((if b[at] == 0 then Some((mod, name)) else None, next))
  {
    hide L.NameItem, L.DescriptorEnd;
  }

  // ---- the walks -------------------------------------------------------------------------------------------------

  lemma {:induction false} OnlyFuncs(xs: seq<Import>)
    ensures L.FuncsOnly(R.Map(TypeOf, xs)) == TypesOf(xs)
    decreases |xs|
  {
    hide L.FuncsOnly;
    if xs == [] {
      L.NoFuncs();
      assert R.Map(TypeOf, xs) == [];
    } else {
      var n := |xs| - 1;
      OnlyFuncs(xs[..n]);
      R.MapSnoc(TypeOf, xs);
      L.FuncsOnlyNext(R.Map(TypeOf, xs[..n]), TypeOf(xs[n]));
    }
  }

  lemma AtFits(b: seq<byte>, i: nat, x: seq<byte>)
    requires At(b, i, x)
    ensures i <= |b|
  {
  }

  lemma {:induction false} NamesAt(utf8: seq<byte> -> bool, b: seq<byte>, cur: nat, xs: seq<Import>)
    requires At(b, cur, E.Concat(ImportBytes, xs)) && forall i :: 0 <= i < |xs| ==> Text(utf8, xs[i])
    ensures L.NamesFrom(utf8, b, cur, |xs|) == NamesOf(xs) && !L.PanicsFrom(utf8, b, cur, |xs|)
    decreases |xs|
  {
    hide At, ImportBytes, Text, L.ImportStep, E.Concat;
    if xs != [] {
      R.FrontAt(ImportBytes, xs, b, cur);
      assert cur <= |b| by { AtFits(b, cur, ImportBytes(xs[0])); }
      StepAt(utf8, b, cur, xs[0]);
      NamesAt(utf8, b, cur + |ImportBytes(xs[0])|, xs[1..]);
    }
  }

  /** An import section with functions, tables, memories and globals in any order: the type walk gives the type
      indices of exactly the functions, in order, and the name walk calls for exactly these, by their names, and does
      not panic. */
  lemma ImportsRead(xs: seq<Import>, utf8: seq<byte> -> bool)
    requires |xs| < TWO32 && forall i :: 0 <= i < |xs| ==> Text(utf8, xs[i])
    ensures var b := E.Vector(ImportBytes, xs);
            && L.Counted(L.ImportItem, b, TWO32) == L.Ok(R.Map(TypeOf, xs))
            && L.FuncsOnly(R.Map(TypeOf, xs)) == TypesOf(xs)
            && L.ImportNames(utf8, b) == NamesOf(xs) && !L.ImportsPanic(utf8, b)
  {
    hide E.Vector, E.Length, L.Leb, L.NamesFrom, L.PanicsFrom, At, E.Concat, ImportBytes, L.ImportItem, TypeOf,
         L.Counted, L.FuncsOnly, TypesOf, NamesOf, L.Items;
    forall b: seq<byte>, cur: nat, i: Import | Fits(i) && At(b, cur, ImportBytes(i))
      ensures L.ImportItem(b, cur) == L.Ok((TypeOf(i), cur + |ImportBytes(i)|))
    {
      ItemAt(b, cur, i);
    }
    assert R.Inverse(ImportBytes, L.ImportItem, TypeOf, Fits);
    R.VectorAt(ImportBytes, L.ImportItem, TypeOf, Fits, xs, TWO32);
    OnlyFuncs(xs);
    R.VectorStart(ImportBytes, xs);
    NamesAt(utf8, E.Vector(ImportBytes, xs), |E.Length(|xs|)|, xs);
  }
}
