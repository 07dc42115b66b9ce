/** The loader and the section parsers: cursor walks over untrusted bytes. */
module Loader {
  import opened Words
  import opened Leb128
  import opened Opcode

  const MAX_FUNCS: nat := 512
  const MAX_TYPES: nat := 128

  /** `Panic` is a slice taken past the end of the section. */
  datatype Error = TooShort | BadMagic | BadVersion | InvalidLeb128 | UnexpectedEof | Malformed | TooMany | Panic

  datatype Result<+T> = Ok(value: T) | Err(error: Error) {
    predicate IsFailure() { Err? }
    function PropagateFailure<U>(): Result<U>
      requires Err?
    {
      Err(error)
    }
    function Extract(): T
      requires Ok?
    {
      value
    }
  }

  /** `read_u32_leb128(&bytes[cur..])`: the value and the cursor after it. */
  function Leb(b: seq<byte>, cur: nat): (r: Result<(u32, nat)>)
    ensures r.Ok? ==> cur < r.value.1 <= |b|
  {
    if cur > |b| then Err(Panic)
    else
      match ReadU32(b[cur..])
      case None => Err(Malformed)
      case Some((v, n)) => Ok((v, cur + n))
  }

  method ReadLeb(b: seq<byte>, cur: nat) returns (r: Result<(u32, nat)>)
    ensures r == Leb(b, cur)
  {
    if cur > |b| { return Err(Panic); }
    var v := DecodeU32(b[cur..]);
    return match v case None => Err(Malformed) case Some((x, n)) => Ok((x, cur + n));
  }

  // ---- item by item ------------------------------------------------------------------------------------------

  type Item<T> = (seq<byte>, nat) -> Result<(T, nat)>

  /** `k` items from cursor `cur`. */
  function Items<T>(p: Item<T>, b: seq<byte>, cur: nat, k: nat): Result<(seq<T>, nat)> {
    if k == 0 then Ok(([], cur))
    else
      var r :- Items(p, b, cur, k - 1);
      var x :- p(b, r.1);
      Ok((r.0 + [x.0], x.1))
  }

  lemma {:induction false} ItemsFail<T>(p: Item<T>, b: seq<byte>, cur: nat, i: nat, k: nat)
    requires i <= k && Items(p, b, cur, i).Err?
    ensures Items(p, b, cur, k) == Items(p, b, cur, i)
  {
    if i < k { ItemsFail(p, b, cur, i, k - 1); }
  }

  /** A counted vector: at most `max` items. */
  function Counted<T>(p: Item<T>, b: seq<byte>, max: nat): Result<seq<T>> {
    var c :- Leb(b, 0);
    if c.0 > max then Err(TooMany)
    else
      var r :- Items(p, b, c.1, c.0);
      Ok(r.0)
  }

  /** The loop shared by the section parsers: the items done so far, then one more or the first failure. */
  lemma ItemsNext<T>(p: Item<T>, b: seq<byte>, start: nat, i: nat, k: nat, done: seq<T>, cur: nat)
    requires i < k && Items(p, b, start, i) == Ok((done, cur))
    ensures p(b, cur).Ok? ==> Items(p, b, start, i + 1) == Ok((done + [p(b, cur).value.0], p(b, cur).value.1))
    ensures p(b, cur).Err? ==> Items(p, b, start, k) == Err(p(b, cur).error)
  {
    if p(b, cur).Err? { ItemsFail(p, b, start, i + 1, k); }
  }

  lemma CountedIs<T>(p: Item<T>, b: seq<byte>, max: nat)
    ensures Leb(b, 0).Err? ==> Counted(p, b, max) == Err(Leb(b, 0).error)
    ensures Leb(b, 0).Ok? && Leb(b, 0).value.0 > max ==> Counted(p, b, max) == Err(TooMany)
    ensures Leb(b, 0).Ok? && Leb(b, 0).value.0 <= max ==>
              var r := Items(p, b, Leb(b, 0).value.1, Leb(b, 0).value.0);
              Counted(p, b, max) == if r.Ok? then Ok(r.value.0) else Err(r.error)
  {
  }

  lemma NoItems<T>(p: Item<T>, b: seq<byte>, cur: nat)
    ensures Items(p, b, cur, 0) == Ok(([], cur))
  {
  }

  // ---- type, function and import sections ----------------------------------------------------------------------

  function TypeItem(b: seq<byte>, cur: nat): Result<((nat, nat), nat)> {
    if cur >= |b| then Err(Malformed)
    else
      var params :- Leb(b, cur + 1);
      var results :- Leb(b, params.1 + params.0);
      Ok(((params.0, results.0), results.1 + results.0))
  }

  method ReadType(b: seq<byte>, cur: nat) returns (r: Result<((nat, nat), nat)>)
    ensures r == TypeItem(b, cur)
  {
    if cur >= |b| { return Err(Malformed); }
    var p := ReadLeb(b, cur + 1);
    if p.Err? { return Err(p.error); }
    var q := ReadLeb(b, p.value.1 + p.value.0);
    if q.Err? { return Err(q.error); }
    return Ok(((p.value.0, q.value.0), q.value.1 + q.value.0));
  }

  /** `parse_type_section`. */
  method ParseTypeSection(b: seq<byte>, paramOut: array<nat>, resultOut: array<nat>) returns (r: Result<nat>)
    requires paramOut.Length == resultOut.Length == MAX_TYPES && paramOut != resultOut
    modifies paramOut, resultOut
    ensures var s := Counted(TypeItem, b, 128);
            && (s.Err? ==> r == Err(s.error))
            && (s.Ok? ==>
                  && r == Ok(|s.value|) && |s.value| <= 128
                  && forall i :: 0 <= i < |s.value| ==> paramOut[i] == s.value[i].0 && resultOut[i] == s.value[i].1)
  {
    CountedIs(TypeItem, b, MAX_TYPES);
    hide Items, Counted, TypeItem, Leb;
    var c := ReadLeb(b, 0);
    if c.Err? { return Err(c.error); }
    var count: nat, cur: nat := c.value.0, c.value.1;
    ghost var start := cur;
    if count > MAX_TYPES { return Err(TooMany); }
    ghost var done: seq<(nat, nat)> := [];
    NoItems(TypeItem, b, cur);
    for i := 0 to count
      invariant Items(TypeItem, b, start, i) == Ok((done, cur)) && |done| == i
      invariant forall j :: 0 <= j < i ==> paramOut[j] == done[j].0 && resultOut[j] == done[j].1
    {
      var t := ReadType(b, cur);
      ItemsNext(TypeItem, b, start, i, count, done, cur);
      if t.Err? { return Err(t.error); }
      paramOut[i], resultOut[i] := t.value.0.0, t.value.0.1;
      cur := t.value.1;
      done := done + [t.value.0];
    }
    return Ok(count);
  }

  function IndexItem(b: seq<byte>, cur: nat): Result<(u32, nat)> {
    Leb(b, cur)
  }

  /** `parse_function_section`. */
  method ParseFunctionSection(b: seq<byte>, out: array<nat>) returns (r: Result<()>)
    requires out.Length == MAX_FUNCS
    modifies out
    ensures var s := Counted(IndexItem, b, 512);
            && (s.Err? ==> r == Err(s.error))
            && (s.Ok? ==>
                  && r == Ok(()) && |s.value| <= 512
                  && forall i :: 0 <= i < |s.value| ==> out[i] == s.value[i])
  {
    CountedIs(IndexItem, b, MAX_FUNCS);
    hide Items, Counted, Leb;
    var c := ReadLeb(b, 0);
    if c.Err? { return Err(c.error); }
    var count: nat, cur: nat := c.value.0, c.value.1;
    ghost var start := cur;
    if count > MAX_FUNCS { return Err(TooMany); }
    ghost var done: seq<u32> := [];
    NoItems(IndexItem, b, cur);
    for i := 0 to count
      invariant Items(IndexItem, b, start, i) == Ok((done, cur)) && |done| == i
      invariant forall j :: 0 <= j < i ==> out[j] == done[j]
    {
      var t := ReadLeb(b, cur);
      ItemsNext(IndexItem, b, start, i, count, done, cur);
      if t.Err? { return Err(t.error); }
      out[i] := t.value.0;
      cur := t.value.1;
      done := done + [t.value.0];
    }
    return Ok(());
  }

  /** Limits of a table or memory import: a flag, a minimum and perhaps a maximum. */
  function LimitsEnd(b: seq<byte>, cur: nat): Result<nat> {
    if cur >= |b| then Err(Malformed)
    else
      var min :- Leb(b, cur + 1);
      if b[cur] == 0 then Ok(min.1)
      else
        var max :- Leb(b, min.1);
        Ok(max.1)
  }

  /** Where an import's descriptor ends, given its kind byte's position; function imports are reported. */
  function DescriptorEnd(b: seq<byte>, at: nat): Result<nat> {
    if at >= |b| then Err(Malformed)
    else if b[at] == 0 then
      var t :- Leb(b, at + 1);
      Ok(t.1)
    else if b[at] == 1 then LimitsEnd(b, at + 2)
    else if b[at] == 2 then LimitsEnd(b, at + 1)
    else if b[at] == 3 then Ok(at + 3)
    else Err(Malformed)
  }

  /** The type index of a function import, and where the import ends. */
  function ImportItem(b: seq<byte>, cur: nat): Result<(Option<u32>, nat)> {
    var m :- Leb(b, cur);
    var n :- Leb(b, m.1 + m.0);
    var at := n.1 + n.0;
    var e :- DescriptorEnd(b, at);
    if at < |b| && b[at] == 0 then
      var t :- Leb(b, at + 1);
      Ok((Some(t.0), e))
    else Ok((None, e))
  }

  function FuncsOnly(xs: seq<Option<u32>>): (r: seq<u32>)
    ensures |r| <= |xs|
  {
    if xs == [] then []
    else FuncsOnly(xs[..|xs| - 1]) + match xs[|xs| - 1] case None => [] case Some(t) => [t]
  }

  lemma NoFuncs()
    ensures FuncsOnly([]) == []
  {
  }

  lemma FuncsOnlyNext(xs: seq<Option<u32>>, x: Option<u32>)
    ensures FuncsOnly(xs + [x]) == if x.Some? then FuncsOnly(xs) + [x.value] else FuncsOnly(xs)
  {
    assert (xs + [x])[..|xs|] == xs;
  }

  method ReadLimits(b: seq<byte>, cur: nat) returns (r: Result<nat>)
    ensures r == LimitsEnd(b, cur)
  {
    if cur >= |b| { return Err(Malformed); }
    var min := ReadLeb(b, cur + 1);
    if min.Err? { return Err(min.error); }
    if b[cur] == 0 { return Ok(min.value.1); }
    var max := ReadLeb(b, min.value.1);
    if max.Err? { return Err(max.error); }
    return Ok(max.value.1);
  }

  method ReadDescriptor(b: seq<byte>, at: nat) returns (r: Result<nat>)
    ensures r == DescriptorEnd(b, at)
  {
    if at >= |b| { return Err(Malformed); }
    if b[at] == 0 {
      var t := ReadLeb(b, at + 1);
      return if t.Err? then Err(t.error) else Ok(t.value.1);
    } else if b[at] == 1 || b[at] == 2 {
      r := ReadLimits(b, if b[at] == 1 then at + 2 else at + 1);
    } else if b[at] == 3 {
      return Ok(at + 3);
    } else {
      return Err(Malformed);
    }
  }

  method ReadImport(b: seq<byte>, cur: nat) returns (r: Result<(Option<u32>, nat)>)
    ensures r == ImportItem(b, cur)
  {
    hide Leb, DescriptorEnd;
    var m := ReadLeb(b, cur);
    if m.Err? { return Err(m.error); }
    var n := ReadLeb(b, m.value.1 + m.value.0);
    if n.Err? { return Err(n.error); }
    var at := n.value.1 + n.value.0;
    var e := ReadDescriptor(b, at);
    if e.Err? { return Err(e.error); }
    if at < |b| && b[at] == 0 {
      var t := ReadLeb(b, at + 1);
      if t.Err? { return Err(t.error); }
      return Ok((Some(t.value.0), e.value));
    }
    return Ok((None, e.value));
  }

  /** `parse_import_func_types`: the type indices of the function imports, as many as the table holds. */
  method ParseImportFuncTypes(b: seq<byte>, out: array<nat>) returns (r: Result<nat>)
    requires out.Length == MAX_FUNCS
    modifies out
    ensures var s := Counted(ImportItem, b, TWO32);
            && (s.Err? ==> r == Err(s.error))
            && (s.Ok? ==>
                  var ts := FuncsOnly(s.value);
                  r == Ok(|ts|) && forall i :: 0 <= i < |ts| && i < 512 ==> out[i] == ts[i])
  {
    hide Items, Counted, ImportItem, Leb, FuncsOnly, Holding;
    CountedIs(ImportItem, b, TWO32);
    var c := ReadLeb(b, 0);
    if c.Err? { return Err(c.error); }
    var count: nat, cur: nat := c.value.0, c.value.1;
    ghost var start := cur;
    ghost var done: seq<Option<u32>> := [];
    ghost var ts: seq<u32> := [];
    var n := 0;
    NoItems(ImportItem, b, cur);
    NoFuncs();
    assert Holding(out[..], []) by { HoldingNothing(out[..]); }
    for i := 0 to count
      invariant Items(ImportItem, b, start, i) == Ok((done, cur)) && |done| == i
      invariant ts == FuncsOnly(done) && n == |ts| && Holding(out[..], ts)
    {
      var x := ReadImport(b, cur);
      ItemsNext(ImportItem, b, start, i, count, done, cur);
      if x.Err? { return Err(x.error); }
      FuncsOnlyNext(done, x.value.0);
      if x.value.0.Some? {
        KeepType(out, n, x.value.0.value, ts);
        n := n + 1;
        ts := ts + [x.value.0.value];
      }
      cur := x.value.1;
      done := done + [x.value.0];
    }
    HoldingMeans(out[..], ts);
    return Ok(n);
  }

  /** As many of `ts` as the table has room for stand at its front. */
  ghost predicate Holding(table: seq<nat>, ts: seq<u32>) {
    forall j :: 0 <= j < |ts| && j < |table| ==> table[j] == ts[j]
  }

  lemma HoldingNothing(table: seq<nat>)
    ensures Holding(table, [])
  {
  }

  lemma HoldingMeans(table: seq<nat>, ts: seq<u32>)
    requires Holding(table, ts)
    ensures forall j :: 0 <= j < |ts| && j < |table| ==> table[j] == ts[j]
  {
  }

  method KeepType(out: array<nat>, n: nat, t: u32, ghost ts: seq<u32>)
    requires n == |ts| && Holding(out[..], ts)
    modifies out
    ensures Holding(out[..], ts + [t])
  {
    if n < out.Length { out[n] := t; }
  }

  // ---- code section --------------------------------------------------------------------------------------------

  function GroupItem(b: seq<byte>, cur: nat): Result<(u32, nat)> {
    var c :- Leb(b, cur);
    Ok((c.0, c.1 + 1))
  }

  function Total(counts: seq<u32>): nat {
    if counts == [] then 0 else Total(counts[..|counts| - 1]) + counts[|counts| - 1]
  }

  /** Declared locals and instruction bytes of one entry. */
  function EntryOf(entry: seq<byte>): Result<(nat, seq<byte>)> {
    var groups :- Leb(entry, 0);
    var r :- Items(GroupItem, entry, groups.1, groups.0);
    if r.1 > |entry| then Err(Malformed) else Ok((Total(r.0), entry[r.1..]))
  }

  function CodeItem(b: seq<byte>, cur: nat): Result<((nat, seq<byte>), nat)> {
    var size :- Leb(b, cur);
    var end := size.1 + size.0;
    if end > |b| then Err(Malformed)
    else
      var e :- EntryOf(b[size.1..end]);
      Ok((e, end))
  }

  method ReadEntry(entry: seq<byte>) returns (r: Result<(nat, seq<byte>)>)
    ensures r == EntryOf(entry)
  {
    var g := ReadLeb(entry, 0);
    if g.Err? { return Err(g.error); }
    var lc: nat, total: nat := g.value.1, 0;
    ghost var start := lc;
    ghost var done: seq<u32> := [];
    for i := 0 to g.value.0
      invariant Items(GroupItem, entry, start, i) == Ok((done, lc)) && total == Total(done)
    {
      var c := ReadLeb(entry, lc);
      ItemsNext(GroupItem, entry, start, i, g.value.0, done, lc);
      if c.Err? { return Err(c.error); }
      lc := c.value.1 + 1;
      total := total + c.value.0;
      assert (done + [c.value.0])[..|done|] == done;
      done := done + [c.value.0];
    }
    if lc > |entry| { return Err(Malformed); }
    return Ok((total, entry[lc..]));
  }

  method ReadCode(b: seq<byte>, cur: nat) returns (r: Result<((nat, seq<byte>), nat)>)
    ensures r == CodeItem(b, cur)
  {
    hide EntryOf;
    var size := ReadLeb(b, cur);
    if size.Err? { return Err(size.error); }
    var end := size.value.1 + size.value.0;
    if end > |b| { return Err(Malformed); }
    var e := ReadEntry(b[size.value.1..end]);
    if e.Err? { return Err(e.error); }
    return Ok((e.value, end));
  }

  /** `parse_code_section`. */
  method ParseCodeSection(b: seq<byte>, bodies: array<seq<byte>>, localCounts: array<nat>) returns (r: Result<nat>)
    requires bodies.Length == localCounts.Length == MAX_FUNCS
    modifies bodies, localCounts
    ensures var s := Counted(CodeItem, b, 512);
            && (s.Err? ==> r == Err(s.error))
            && (s.Ok? ==>
                  && r == Ok(|s.value|) && |s.value| <= 512
                  && forall i :: 0 <= i < |s.value| ==> localCounts[i] == s.value[i].0 && bodies[i] == s.value[i].1)
  {
    CountedIs(CodeItem, b, MAX_FUNCS);
    hide Items, Counted, CodeItem, Leb;
    var c := ReadLeb(b, 0);
    if c.Err? { return Err(c.error); }
    var count: nat, cur: nat := c.value.0, c.value.1;
    ghost var start := cur;
    if count > MAX_FUNCS { return Err(TooMany); }
    ghost var done: seq<(nat, seq<byte>)> := [];
    NoItems(CodeItem, b, cur);
    for i := 0 to count
      invariant Items(CodeItem, b, start, i) == Ok((done, cur)) && |done| == i
      invariant forall j :: 0 <= j < i ==> localCounts[j] == done[j].0 && bodies[j] == done[j].1
    {
      var e := ReadCode(b, cur);
      ItemsNext(CodeItem, b, start, i, count, done, cur);
      if e.Err? { return Err(e.error); }
      localCounts[i], bodies[i] := e.value.0.0, e.value.0.1;
      cur := e.value.1;
      done := done + [e.value.0];
    }
    return Ok(count);
  }

  // ---- memory section -------------------------------------------------------------------------------------------

  /** `read_memory_min_pages`. */
  function MinPages(b: seq<byte>): nat {
    match Leb(b, 0)
    case Err(_) => 0
    case Ok((count, cur)) =>
      if count == 0 || cur >= |b| then 0
      else
        match Leb(b, cur + 1)
        case Err(_) => 0
        case Ok((min, _)) => min
  }

  method ReadMemoryMinPages(b: seq<byte>) returns (pages: nat)
    ensures pages == MinPages(b)
  {
    var count := ReadLeb(b, 0);
    if count.Err? { return 0; }
    if count.value.0 == 0 || count.value.1 >= |b| { return 0; }
    var min := ReadLeb(b, count.value.1 + 1);
    return if min.Err? then 0 else min.value.0;
  }

  // ---- exports -------------------------------------------------------------------------------------------------

  /** A name of the length written before it; `utf8` decides which byte strings are text. */
  function NameItem(utf8: seq<byte> -> bool, b: seq<byte>, cur: nat): (r: Result<(seq<byte>, nat)>)
    ensures r.Ok? ==> cur < r.value.1 <= |b|
  {
    var n :- Leb(b, cur);
    var end := n.1 + n.0;
    if end > |b| || !utf8(b[n.1..end]) then Err(Malformed) else Ok((b[n.1..end], end))
  }

  /** The search of `find_export` over `k` entries. */
  function ExportFrom(utf8: seq<byte> -> bool, b: seq<byte>, cur: nat, k: nat, name: seq<byte>): Option<u32>
    decreases k
  {
    if k == 0 then None
    else
      match NameItem(utf8, b, cur)
      case Err(_) => None
      case Ok((found, at)) =>
        if at >= |b| then None
        else
          match Leb(b, at + 1)
          case Err(_) => None
          case Ok((index, next)) =>
            if b[at] == 0 && found == name then Some(index) else ExportFrom(utf8, b, next, k - 1, name)
  }

  function ExportIn(utf8: seq<byte> -> bool, b: seq<byte>, name: seq<byte>): Option<u32> {
    match Leb(b, 0)
    case Err(_) => None
    case Ok((count, cur)) => ExportFrom(utf8, b, cur, count, name)
  }

  method ReadName(utf8: seq<byte> -> bool, b: seq<byte>, cur: nat) returns (r: Result<(seq<byte>, nat)>)
    ensures r == NameItem(utf8, b, cur)
  {
    var n := ReadLeb(b, cur);
    if n.Err? { return Err(n.error); }
    var end := n.value.1 + n.value.0;
    if end > |b| || !utf8(b[n.value.1..end]) { return Err(Malformed); }
    return Ok((b[n.value.1..end], end));
  }

  /** `find_export`. */
  method FindExport(utf8: seq<byte> -> bool, b: seq<byte>, name: seq<byte>) returns (r: Option<u32>)
    ensures r == ExportIn(utf8, b, name)
  {
    hide Leb, NameItem;
    var count := ReadLeb(b, 0);
    if count.Err? { return None; }
    var cur: nat := count.value.1;
    for i := 0 to count.value.0
      invariant ExportIn(utf8, b, name) == ExportFrom(utf8, b, cur, count.value.0 - i, name)
    {
      var found := ReadName(utf8, b, cur);
      if found.Err? { return None; }
      var at := found.value.1;
      if at >= |b| { return None; }
      var index := ReadLeb(b, at + 1);
      if index.Err? { return None; }
      if b[at] == 0 && found.value.0 == name { return Some(index.value.0); }
      cur := index.value.1;
    }
    return None;
  }

  // ---- data ----------------------------------------------------------------------------------------------------

  /** An active segment at a constant offset; other kinds carry nothing that is looked at. */
  function SegmentItem(b: seq<byte>, cur: nat): Result<(Option<(int, seq<byte>)>, nat)> {
    var kind :- Leb(b, cur);
    var at := kind.1;
    if kind.0 != 0 then Ok((None, at))
    else if at >= |b| || b[at] != I32_CONST then Err(Malformed)
    else
      match ReadI32(b[at + 1..])
      case None => Err(Malformed)
      case Some((offset, n)) =>
        var e := at + 1 + n;
        if e >= |b| || b[e] != END then Err(Malformed)
        else
          var len :- Leb(b, e + 1);
          var end := len.1 + len.0;
          if end > |b| then Err(Malformed) else Ok((Some((offset, b[len.1..end])), end))
  }

  /** The copy of one segment, cut at the end of memory; an offset outside memory panics. */
  function Place(mem: seq<byte>, offset: int, data: seq<byte>): (r: Option<seq<byte>>)
    ensures r.Some? ==> |r.value| == |mem|
  {
    if 0 <= offset <= |mem| then
      var n := Min(|data|, |mem| - offset);
      Some(mem[..offset] + data[..n] + mem[offset + n..])
    else None
  }

  datatype Status = Done | Refused | Panicked
  datatype Init = Init(status: Status, mem: seq<byte>)

  function InitFrom(b: seq<byte>, cur: nat, k: nat, mem: seq<byte>): Init
    decreases k
  {
    if k == 0 then Init(Done, mem)
    else
      match SegmentItem(b, cur)
      case Err(_) => Init(Refused, mem)
      case Ok((None, next)) => InitFrom(b, next, k - 1, mem)
      case Ok((Some((offset, data)), next)) =>
        match Place(mem, offset, data)
        case None => Init(Panicked, mem)
        case Some(mem') => InitFrom(b, next, k - 1, mem')
  }

  function InitMemoryOf(b: seq<byte>, mem: seq<byte>): Init {
    match Leb(b, 0)
    case Err(_) => Init(Refused, mem)
    case Ok((count, cur)) => InitFrom(b, cur, count, mem)
  }

  method ReadSegment(b: seq<byte>, cur: nat) returns (r: Result<(Option<(int, seq<byte>)>, nat)>)
    ensures r == SegmentItem(b, cur)
  {
    hide Leb, ReadI32;
    var kind := ReadLeb(b, cur);
    if kind.Err? { return Err(kind.error); }
    var at := kind.value.1;
    if kind.value.0 != 0 { return Ok((None, at)); }
    if at >= |b| || b[at] != I32_CONST { return Err(Malformed); }
    var offset := DecodeI32(b[at + 1..]);
    if offset.None? { return Err(Malformed); }
    var e := at + 1 + offset.value.1;
    if e >= |b| || b[e] != END { return Err(Malformed); }
    var len := ReadLeb(b, e + 1);
    if len.Err? { return Err(len.error); }
    var end := len.value.1 + len.value.0;
    if end > |b| { return Err(Malformed); }
    return Ok((Some((offset.value.0, b[len.value.1..end])), end));
  }

  method PlaceInto(mem: array<byte>, offset: nat, data: seq<byte>)
    requires offset <= mem.Length
    modifies mem
    ensures Some(mem[..]) == Place(old(mem[..]), offset, data)
  {
    var n := Min(|data|, mem.Length - offset);
    ghost var was := mem[..];
    forall k | 0 <= k < n { mem[offset + k] := data[k]; }
    assert mem[..] == was[..offset] + data[..n] + was[offset + n..];
  }

  /** `init_memory`. */
  method InitMemory(b: seq<byte>, mem: array<byte>) returns (status: Status)
    modifies mem
    ensures Init(status, mem[..]) == InitMemoryOf(b, old(mem[..]))
  {
    hide Leb, SegmentItem, Place;
    var count := ReadLeb(b, 0);
    if count.Err? { return Refused; }
    var cur: nat := count.value.1;
    for i := 0 to count.value.0
      invariant InitMemoryOf(b, old(mem[..])) == InitFrom(b, cur, count.value.0 - i, mem[..])
    {
      var seg := ReadSegment(b, cur);
      if seg.Err? { return Refused; }
      if seg.value.0.Some? {
        var (offset, data) := seg.value.0.value;
        PlaceDefined(mem[..], offset, data);
        if !(0 <= offset <= mem.Length) { return Panicked; }
        PlaceInto(mem, offset, data);
      }
      cur := seg.value.1;
    }
    return Done;
  }

  lemma PlaceDefined(mem: seq<byte>, offset: int, data: seq<byte>)
    ensures Place(mem, offset, data).Some? <==> 0 <= offset <= |mem|
  {
  }

  // ---- import names ---------------------------------------------------------------------------------------------

  /** One import: its names if it is a function, and where the next one starts. */
  function ImportStep(utf8: seq<byte> -> bool, b: seq<byte>, cur: nat): Result<(Option<(seq<byte>, seq<byte>)>, nat)> {
    var mod :- NameItem(utf8, b, cur);
    var name :- NameItem(utf8, b, mod.1);
    var next :- DescriptorEnd(b, name.1);
    Ok((if name.1 < |b| && b[name.1] == 0 then Some((mod.0, name.0)) else None, next))
  }

  /** The calls `for_each_func_import` makes, up to the first failure. */
  function NamesFrom(utf8: seq<byte> -> bool, b: seq<byte>, cur: nat, k: nat): seq<(seq<byte>, seq<byte>)>
    decreases k
  {
    if k == 0 then []
    else
      match ImportStep(utf8, b, cur)
      case Err(_) => []
      case Ok((x, next)) => (if x.Some? then [x.value] else []) + NamesFrom(utf8, b, next, k - 1)
  }

  function ImportNames(utf8: seq<byte> -> bool, b: seq<byte>): seq<(seq<byte>, seq<byte>)> {
    match Leb(b, 0)
    case Err(_) => []
    case Ok((count, cur)) => NamesFrom(utf8, b, cur, count)
  }

  /** The slice that panics: an import that starts past the end, after a global whose two bytes are missing. */
  predicate PanicsFrom(utf8: seq<byte> -> bool, b: seq<byte>, cur: nat, k: nat)
    decreases k
  {
    k > 0 && (cur > |b|
              || var r := ImportStep(utf8, b, cur);
                 r.Ok? && PanicsFrom(utf8, b, r.value.1, k - 1))
  }

  predicate ImportsPanic(utf8: seq<byte> -> bool, b: seq<byte>) {
    var c := Leb(b, 0);
    c.Ok? && PanicsFrom(utf8, b, c.value.1, c.value.0)
  }

  method ReadImportStep(utf8: seq<byte> -> bool, b: seq<byte>, cur: nat)
    returns (r: Result<(Option<(seq<byte>, seq<byte>)>, nat)>)
    ensures r == ImportStep(utf8, b, cur)
  {
    hide Leb, NameItem, DescriptorEnd;
    var mod := ReadName(utf8, b, cur);
    if mod.Err? { return Err(mod.error); }
    var name := ReadName(utf8, b, mod.value.1);
    if name.Err? { return Err(name.error); }
    var next := ReadDescriptor(b, name.value.1);
    if next.Err? { return Err(next.error); }
    KindInRange(b, name.value.1);
    return Ok((if b[name.value.1] == 0 then Some((mod.value.0, name.value.0)) else None, next.value));
  }

  /** The calls made, and whether the walk ends in a panic. */
  method ForEachFuncImport(utf8: seq<byte> -> bool, b: seq<byte>)
    returns (calls: seq<(seq<byte>, seq<byte>)>, panicked: bool)
    ensures calls == ImportNames(utf8, b) && panicked == ImportsPanic(utf8, b)
  {
    hide Leb, ImportStep;
    calls, panicked := [], false;
    var count := ReadLeb(b, 0);
    if count.Err? { return; }
    var cur: nat := count.value.1;
    for i := 0 to count.value.0
      invariant ImportNames(utf8, b) == calls + NamesFrom(utf8, b, cur, count.value.0 - i)
      invariant ImportsPanic(utf8, b) == PanicsFrom(utf8, b, cur, count.value.0 - i)
      invariant !panicked
    {
      if cur > |b| {
        PastEnd(utf8, b, cur);
        panicked := true;
        return;
      }
      var x := ReadImportStep(utf8, b, cur);
      if x.Err? { return; }
      if x.value.0.Some? { calls := calls + [x.value.0.value]; }
      cur := x.value.1;
    }
  }

  lemma PastEnd(utf8: seq<byte> -> bool, b: seq<byte>, cur: nat)
    requires cur > |b|
    ensures ImportStep(utf8, b, cur).Err?
  {
  }

  lemma KindInRange(b: seq<byte>, at: nat)
    requires DescriptorEnd(b, at).Ok?
    ensures at < |b|
  {
  }

  // ---- load -----------------------------------------------------------------------------------------------------

  const MAGIC: seq<byte> := [0x00, 0x61, 0x73, 0x6D]
  const VERSION: seq<byte> := [0x01, 0x00, 0x00, 0x00]

  /** The section numbers that have a field in the loaded module. */
  predicate Known(id: byte) {
    1 <= id <= 7 || 9 <= id <= 11
  }

  type Loaded = map<byte, seq<byte>>

  function LoadFrom(b: seq<byte>, cur: nat, m: Loaded): Result<Loaded>
    decreases |b| - cur
  {
    if cur >= |b| then Ok(m)
    else
      match Leb(b, cur + 1)
      case Err(_) => Err(InvalidLeb128)
      case Ok((size, at)) =>
        if at + size > |b| then Err(UnexpectedEof)
        else LoadFrom(b, at + size, if Known(b[cur]) then m[b[cur] := b[at..at + size]] else m)
  }

  function LoadOf(b: seq<byte>): Result<Loaded> {
    if |b| < 8 then Err(TooShort)
    else if b[..4] != MAGIC then Err(BadMagic)
    else if b[4..8] != VERSION then Err(BadVersion)
    else LoadFrom(b, 8, map[])
  }

  method Load(b: seq<byte>) returns (r: Result<Loaded>)
    ensures r == LoadOf(b)
  {
    hide Leb;
    if |b| < 8 { return Err(TooShort); }
    if b[..4] != MAGIC { return Err(BadMagic); }
    if b[4..8] != VERSION { return Err(BadVersion); }
    var m: Loaded := map[];
    var cur := 8;
    while cur < |b|
      invariant LoadOf(b) == LoadFrom(b, cur, m)
      decreases |b| - cur
    {
      var id := b[cur];
      var size := ReadLeb(b, cur + 1);
      if size.Err? { return Err(InvalidLeb128); }
      var end := size.value.1 + size.value.0;
      if end > |b| { return Err(UnexpectedEof); }
      if Known(id) { m := m[id := b[size.value.1..end]]; }
      cur := end;
    }
    return Ok(m);
  }
}
