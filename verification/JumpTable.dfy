/** The pre-computed jump table: an open-addressing hash table from (body, scan start) to the result of
    `scan_block_end`, filled once by walking every body. */
module JumpTable {
  import opened Words
  import opened Leb128
  import opened Opcode
  import opened Scanner

  const JUMP_SLOTS: nat := 4096
  const NO_BODY: int := 0xFFFF
  const NO_ELSE32: int := 0xFFFF_FFFF

  /** `keyBody == NO_BODY` is an empty slot; `elsePc == NO_ELSE32` is no else. */
  datatype JumpSlot = JumpSlot(keyBody: int, keyPc: u32, endPc: u32, elsePc: u32)

  const EMPTY: JumpSlot := JumpSlot(NO_BODY, 0, 0, NO_ELSE32)

  type Table = t: seq<JumpSlot> | |t| == JUMP_SLOTS witness seq(JUMP_SLOTS, _ => EMPTY)

  predicate Free(s: JumpSlot) {
    s.keyBody == NO_BODY
  }

  /** `jump_hash`: two wrapping 64-bit products, xor-ed, folded and masked. */
  function JumpHash(body: nat, start: nat): (h: nat)
    ensures h < JUMP_SLOTS
  {
    var h := Bitwise(BitXor, (body * 2654435761) % TWO64, (start * 2246822519) % TWO64, 64);
    Bitwise(BitXor, h, h / 0x1_0000, 64) % JUMP_SLOTS
  }

  /** The j-th slot probed for a key. */
  function ProbeAt(body: nat, start: nat, j: nat): (p: nat)
    ensures p < JUMP_SLOTS
  {
    (JumpHash(body, start) + j) % JUMP_SLOTS
  }

  type ScanResult = (nat, Option<nat>)

  function SlotResult(s: JumpSlot): ScanResult {
    (s.endPc, if s.elsePc == NO_ELSE32 then None else Some(s.elsePc))
  }

  /** `Diverges` is the unbounded loop of `jump_lookup` coming back to where it started. */
  datatype Lookup = Found(result: ScanResult) | Absent | Diverges

  function LookupFrom(t: Table, body: nat, start: nat, j: nat): Lookup
    requires j <= JUMP_SLOTS
    decreases JUMP_SLOTS - j
  {
    if j == JUMP_SLOTS then Diverges
    else
      var s := t[ProbeAt(body, start, j)];
      if Free(s) then Absent
      else if s.keyBody == body && s.keyPc == start then Found(SlotResult(s))
      else LookupFrom(t, body, start, j + 1)
  }

  function JumpLookup(t: Table, body: nat, start: nat): Lookup {
    LookupFrom(t, body, start, 0)
  }

  function MakeSlot(body: nat, start: nat, r: ScanResult): JumpSlot {
    JumpSlot(body, start % TWO32, r.0 % TWO32, match r.1 case None => NO_ELSE32 case Some(e) => e % TWO32)
  }

  function InsertFrom(t: Table, body: nat, start: nat, r: ScanResult, j: nat): Table
    requires j <= JUMP_SLOTS
    decreases JUMP_SLOTS - j
  {
    if j == JUMP_SLOTS then t
    else
      var p := ProbeAt(body, start, j);
      if Free(t[p]) then t[p := MakeSlot(body, start, r)] else InsertFrom(t, body, start, r, j + 1)
  }

  function JumpInsert(t: Table, body: nat, start: nat, r: ScanResult): Table {
    if body >= NO_BODY then t else InsertFrom(t, body, start, r, 0)
  }

  // ---- the walk over a body ---------------------------------------------------------------------------

  /** `unwrap_or`. */
  function Or(o: Option<nat>, d: nat): nat {
    match o case None => d case Some(n) => n
  }

  function LenientSkip(body: seq<byte>, i: nat, k: nat, d: nat): (r: nat)
    ensures r >= i
    decreases k
  {
    if k == 0 then i else LenientSkip(body, i + Or(SkipLeb(body, i), d), k - 1, d)
  }

  /** Immediates as `pre_scan_body_jumps` skips them: like the scan, but a truncated immediate does not stop
      the walk, except that of a branch table's count. */
  function WalkImmediates(body: seq<byte>, op: byte, i: nat): (r: Option<nat>)
    requires i <= |body|
    ensures r.Some? ==> r.value >= i
  {
    if OneLeb(op) || op == 0xFC then Some(LenientSkip(body, i, 1, 0))
    else if TwoLebs(op) then Some(LenientSkip(body, i, 2, 0))
    else if op == BR_TABLE then
      match ReadU32(body[i..])
      case None => None
      case Some((count, n)) => Some(LenientSkip(body, i + n, count + 1, 1))
    else if op == 0x3F || op == 0x40 then Some(i + 1)
    else if op == 0x43 then Some(i + 4)
    else if op == 0x44 then Some(i + 8)
    else Some(i)
  }

  /** The block bodies met by the walk, by their first position. */
  function Starts(body: seq<byte>, i: nat): seq<nat>
    decreases |body| - i
  {
    if i >= |body| then []
    else if Opens(body[i]) then
      if i + 1 >= |body| then [] else [i + 2] + Starts(body, i + 2)
    else
      match WalkImmediates(body, body[i], i + 1)
      case None => []
      case Some(j) => Starts(body, j)
  }

  function RecordOne(t: Table, body: seq<byte>, idx: nat, start: nat): Table {
    match ScanBlockEnd(body, start)
    case None => t
    case Some(r) => JumpInsert(t, idx, start, r)
  }

  /** Recording the scan results of a list of starts. */
  function Record(t: Table, body: seq<byte>, idx: nat, starts: seq<nat>): Table
    decreases |starts|
  {
    if starts == [] then t
    else
      var t' := RecordOne(t, body, idx, starts[0]);
      Record(t', body, idx, starts[1..])
  }

  /** The table after pre-scanning bodies `0 .. n`. */
  function Build(bodies: seq<seq<byte>>, n: nat): Table
    requires n <= |bodies|
  {
    if n == 0 then seq(JUMP_SLOTS, _ => EMPTY)
    else Record(Build(bodies, n - 1), bodies[n - 1], n - 1, Starts(bodies[n - 1], 0))
  }

  // ---- invariants ---------------------------------------------------------------------------------------

  ghost predicate Taken(t: Table, body: nat, start: nat, d: nat) {
    forall j :: 0 <= j < d ==> !Free(t[ProbeAt(body, start, j)])
  }

  /** A stored key is reached by probing over taken slots only. */
  ghost predicate Reachable(t: Table, p: nat, d: nat)
    requires p < JUMP_SLOTS
  {
    && d < JUMP_SLOTS && t[p].keyBody >= 0
    && ProbeAt(t[p].keyBody, t[p].keyPc, d) == p && Taken(t, t[p].keyBody, t[p].keyPc, d)
  }

  /** A stored key belongs to a body, and its slot holds the scan result for it. */
  ghost predicate Truthful(t: Table, bodies: seq<seq<byte>>, p: nat)
    requires p < JUMP_SLOTS
  {
    && 0 <= t[p].keyBody < |bodies|
    && ScanBlockEnd(bodies[t[p].keyBody], t[p].keyPc) == Some(SlotResult(t[p]))
  }

  ghost predicate Valid(t: Table, bodies: seq<seq<byte>>) {
    forall p :: 0 <= p < JUMP_SLOTS && !Free(t[p]) ==>
      Truthful(t, bodies, p) && exists d :: Reachable(t, p, d)
  }

  ghost predicate Stored(t: Table, body: nat, start: nat) {
    exists p :: 0 <= p < JUMP_SLOTS && t[p].keyBody == body && t[p].keyPc == start
  }

  /** What the walk relies on: body indices fit 16 bits and positions fit 32 bits. */
  predicate Sized(bodies: seq<seq<byte>>) {
    |bodies| < NO_BODY && forall k :: 0 <= k < |bodies| ==> |bodies[k]| < TWO32
  }

  // ---- lookup -------------------------------------------------------------------------------------------

  /** A found result comes from a slot with that key. */
  lemma {:induction false} FoundIsStored(t: Table, body: nat, start: nat, j: nat) returns (p: nat)
    requires j <= JUMP_SLOTS && LookupFrom(t, body, start, j).Found?
    ensures p < JUMP_SLOTS && !Free(t[p]) && t[p].keyBody == body && t[p].keyPc == start
    ensures LookupFrom(t, body, start, j).result == SlotResult(t[p])
    decreases JUMP_SLOTS - j
  {
    p := ProbeAt(body, start, j);
    if !(t[p].keyBody == body && t[p].keyPc == start) {
      p := FoundIsStored(t, body, start, j + 1);
    }
  }

  /** Probing over taken slots up to a slot that holds the key finds it. */
  lemma {:induction false} ProbingFinds(t: Table, body: nat, start: nat, j: nat, d: nat)
    requires j <= d < JUMP_SLOTS && Taken(t, body, start, d)
    requires var s := t[ProbeAt(body, start, d)]; !Free(s) && s.keyBody == body && s.keyPc == start
    ensures LookupFrom(t, body, start, j).Found?
    decreases d - j
  {
    if j < d { ProbingFinds(t, body, start, j + 1, d); }
  }

  /** Every stored key is found, with the scan's result. */
  lemma StoredIsFound(t: Table, bodies: seq<seq<byte>>, body: nat, start: nat)
    requires Valid(t, bodies) && Stored(t, body, start) && body != NO_BODY
    ensures body < |bodies| && ScanBlockEnd(bodies[body], start).Some?
    ensures JumpLookup(t, body, start) == Found(ScanBlockEnd(bodies[body], start).value)
  {
    var p :| 0 <= p < JUMP_SLOTS && t[p].keyBody == body && t[p].keyPc == start;
    assert !Free(t[p]) && Truthful(t, bodies, p);
    var d :| Reachable(t, p, d);
    ProbingFinds(t, body, start, 0, d);
    var q := FoundIsStored(t, body, start, 0);
    assert Truthful(t, bodies, q);
  }

  /** A lookup that answers, answers as the scan does: found results are the scan's, and on absence the
      dispatch falls back to the scan. */
  function LookupOrScan(t: Table, bodies: seq<seq<byte>>, body: nat, start: nat): Option<ScanResult>
    requires body < |bodies|
  {
    match JumpLookup(t, body, start)
    case Found(r) => Some(r)
    case _ => ScanBlockEnd(bodies[body], start)
  }

  lemma LookupAgreesWithScan(t: Table, bodies: seq<seq<byte>>, body: nat, start: nat)
    requires Valid(t, bodies) && body < |bodies|
    ensures LookupOrScan(t, bodies, body, start) == ScanBlockEnd(bodies[body], start)
  {
    if JumpLookup(t, body, start).Found? {
      var p := FoundIsStored(t, body, start, 0);
      assert Truthful(t, bodies, p);
    }
  }

  // ---- termination of lookup ----------------------------------------------------------------------------

  lemma ProbeCovers(body: nat, start: nat, p: nat) returns (j: nat)
    requires p < JUMP_SLOTS
    ensures j < JUMP_SLOTS && ProbeAt(body, start, j) == p
  {
    var h := JumpHash(body, start);
    j := if p >= h then p - h else p + JUMP_SLOTS - h;
    hide JumpHash;
    if p < h { DivUnique(h + j, JUMP_SLOTS, 1, p); } else { DivUnique(h + j, JUMP_SLOTS, 0, p); }
  }

  lemma {:induction false} ReachesFree(t: Table, body: nat, start: nat, j: nat, d: nat)
    requires j <= d < JUMP_SLOTS && Free(t[ProbeAt(body, start, d)])
    ensures LookupFrom(t, body, start, j) != Diverges
    decreases d - j
  {
    if j < d { ReachesFree(t, body, start, j + 1, d); }
  }

  lemma {:induction false} NeverFree(t: Table, body: nat, start: nat, j: nat)
    requires j <= JUMP_SLOTS && !Stored(t, body, start) && forall p :: 0 <= p < JUMP_SLOTS ==> !Free(t[p])
    ensures LookupFrom(t, body, start, j) == Diverges
    decreases JUMP_SLOTS - j
  {
    if j < JUMP_SLOTS { NeverFree(t, body, start, j + 1); }
  }

  /** The probe loop ends exactly when some slot is free or the key is in the table. */
  lemma LookupTerminates(t: Table, bodies: seq<seq<byte>>, body: nat, start: nat)
    requires Valid(t, bodies) && body < NO_BODY
    ensures JumpLookup(t, body, start) != Diverges <==>
            (exists p :: 0 <= p < JUMP_SLOTS && Free(t[p])) || Stored(t, body, start)
  {
    if p :| 0 <= p < JUMP_SLOTS && Free(t[p]) {
      var j := ProbeCovers(body, start, p);
      ReachesFree(t, body, start, 0, j);
    } else if Stored(t, body, start) {
      StoredIsFound(t, bodies, body, start);
    } else {
      NeverFree(t, body, start, 0);
    }
  }

  // ---- insertion ----------------------------------------------------------------------------------------

  /** Insertion fills the first free slot on the key's probe path, if there is one. */
  lemma {:induction false} InsertPlace(t: Table, body: nat, start: nat, r: ScanResult, j: nat) returns (d: nat)
    requires j <= JUMP_SLOTS && Taken(t, body, start, j)
    ensures j <= d <= JUMP_SLOTS && Taken(t, body, start, d)
    ensures d < JUMP_SLOTS ==>
              && Free(t[ProbeAt(body, start, d)])
              && InsertFrom(t, body, start, r, j) == t[ProbeAt(body, start, d) := MakeSlot(body, start, r)]
    ensures d == JUMP_SLOTS ==> InsertFrom(t, body, start, r, j) == t
    decreases JUMP_SLOTS - j
  {
    if j == JUMP_SLOTS || Free(t[ProbeAt(body, start, j)]) {
      d := j;
    } else {
      d := InsertPlace(t, body, start, r, j + 1);
    }
  }

  lemma {:induction false} ScanRange(body: seq<byte>, i: nat, depth: nat, els: Option<nat>)
    requires depth > 0 && (els.Some? ==> els.value < |body|) && ScanFrom(body, i, depth, els).Some?
    ensures var (e, el) := ScanFrom(body, i, depth, els).value;
            i < |body| && e < |body| && (el.Some? ==> el.value < |body|)
    decreases |body| - i
  {
    hide SkipImmediates;
    if Opens(body[i]) {
      ScanRange(body, i + 2, depth + 1, els);
    } else if body[i] == ELSE {
      ScanRange(body, i + 1, depth, if depth == 1 then Some(i) else els);
    } else if body[i] == END {
      if depth > 1 { ScanRange(body, i + 1, depth - 1, els); }
    } else {
      ScanRange(body, SkipImmediates(body, body[i], i + 1).value, depth, els);
    }
  }

  /** Filling a free slot reached over taken ones keeps the table valid. */
  lemma FillValid(t: Table, bodies: seq<seq<byte>>, s: JumpSlot, d: nat)
    requires Valid(t, bodies) && 0 <= s.keyBody < |bodies| && s.keyBody != NO_BODY && d < JUMP_SLOTS
    requires Free(t[ProbeAt(s.keyBody, s.keyPc, d)]) && Taken(t, s.keyBody, s.keyPc, d)
    requires ScanBlockEnd(bodies[s.keyBody], s.keyPc) == Some(SlotResult(s))
    ensures var t' := t[ProbeAt(s.keyBody, s.keyPc, d) := s];
            Valid(t', bodies)
  {
    hide ScanBlockEnd, ProbeAt, SlotResult;
    var q := ProbeAt(s.keyBody, s.keyPc, d);
    var t' := t[q := s];
    forall p | 0 <= p < JUMP_SLOTS && !Free(t'[p])
      ensures Truthful(t', bodies, p) && exists e :: Reachable(t', p, e)
    {
      if p == q {
        assert Reachable(t', p, d);
      } else {
        assert Truthful(t, bodies, p);
        var e :| Reachable(t, p, e);
        assert Reachable(t', p, e);
      }
    }
  }

  /** Recording one opener: nothing changes when its block is not closed or the table is full; otherwise exactly its
      key is added. */
  lemma RecordOneValid(t: Table, bodies: seq<seq<byte>>, idx: nat, start: nat)
    requires Valid(t, bodies) && Sized(bodies) && idx < |bodies|
    ensures var t' := RecordOne(t, bodies[idx], idx, start);
            && Valid(t', bodies)
            && (if ScanBlockEnd(bodies[idx], start).None? || |Occupied(t)| == JUMP_SLOTS then t' == t
                else AddsKey(t, t', idx, start))
  {
    var scan := ScanBlockEnd(bodies[idx], start);
    if scan.Some? {
      ScanRange(bodies[idx], start, 1, None);
      hide ScanBlockEnd, ProbeAt, ScanFrom, Stored, Occupied;
      var r := scan.value;
      var s := MakeSlot(idx, start, r);
      assert s.keyBody == idx && s.keyPc == start && SlotResult(s) == r;
      var d := InsertPlace(t, idx, start, r, 0);
      if d < JUMP_SLOTS {
        FillValid(t, bodies, s, d);
        FillAdds(t, ProbeAt(idx, start, d), s, t[ProbeAt(idx, start, d) := s]);
      } else {
        FullTable(t, idx, start);
      }
    }
  }

  // ---- counting -----------------------------------------------------------------------------------------

  ghost function Occupied(t: Table): set<nat> {
    set p: nat | p < JUMP_SLOTS && !Free(t[p])
  }

  /** One more slot is taken, and one more key stored. */
  ghost predicate AddsKey(t: Table, t': Table, body: nat, start: nat) {
    && |Occupied(t')| == |Occupied(t)| + 1
    && forall b: nat, pc: nat | b != NO_BODY ::
         Stored(t', b, pc) <==> Stored(t, b, pc) || (b == body && pc == start)
  }

  lemma FillAdds(t: Table, q: nat, s: JumpSlot, t': Table)
    requires q < JUMP_SLOTS && Free(t[q]) && s.keyBody >= 0 && s.keyBody != NO_BODY && t' == t[q := s]
    ensures |Occupied(t)| < JUMP_SLOTS && AddsKey(t, t', s.keyBody, s.keyPc)
  {
    hide Occupied, Stored;
    FillCounts(t, q, s, t');
    forall b: nat, pc: nat | b != NO_BODY
      ensures Stored(t', b, pc) <==> Stored(t, b, pc) || (b == s.keyBody && pc == s.keyPc)
    {
      FillStores(t, q, s, t', b, pc);
    }
  }

  lemma FillCounts(t: Table, q: nat, s: JumpSlot, t': Table)
    requires q < JUMP_SLOTS && Free(t[q]) && s.keyBody != NO_BODY && t' == t[q := s]
    ensures |Occupied(t)| < JUMP_SLOTS && |Occupied(t')| == |Occupied(t)| + 1
  {
    assert Occupied(t') == Occupied(t) + {q};
    AtMost(Occupied(t'), JUMP_SLOTS);
  }

  lemma FillStores(t: Table, q: nat, s: JumpSlot, t': Table, b: nat, pc: nat)
    requires q < JUMP_SLOTS && Free(t[q]) && b != NO_BODY && t' == t[q := s]
    ensures Stored(t', b, pc) <==> Stored(t, b, pc) || (b == s.keyBody && pc == s.keyPc)
  {
    if Stored(t, b, pc) {
      var p :| 0 <= p < JUMP_SLOTS && t[p].keyBody == b && t[p].keyPc == pc;
      assert t'[p] == t[p];
    }
    assert t'[q] == s;
  }

  lemma {:induction false} SubsetSize(a: set<nat>, b: set<nat>)
    requires a <= b
    ensures |a| <= |b|
    decreases |a|
  {
    if a != {} {
      var x :| x in a;
      SubsetSize(a - {x}, b - {x});
    }
  }

  ghost function UpTo(n: nat): (s: set<nat>)
    ensures |s| == n && forall p :: p in s <==> 0 <= p < n
  {
    if n == 0 then {} else UpTo(n - 1) + {n - 1}
  }

  lemma AtMost(a: set<nat>, n: nat)
    requires forall p :: p in a ==> p < n
    ensures |a| <= n
  {
    SubsetSize(a, UpTo(n));
  }

  lemma LessThan(a: set<nat>, n: nat, p: nat)
    requires (forall q :: q in a ==> q < n) && p < n && p !in a
    ensures |a| < n
  {
    SubsetSize(a + {p}, UpTo(n));
  }

  lemma Exactly(a: set<nat>, n: nat)
    requires forall p :: p in a <==> 0 <= p < n
    ensures |a| == n
  {
    assert a == UpTo(n);
  }

  lemma AllTaken(t: Table)
    requires forall p :: 0 <= p < JUMP_SLOTS ==> !Free(t[p])
    ensures |Occupied(t)| == JUMP_SLOTS
  {
    Exactly(Occupied(t), JUMP_SLOTS);
  }

  /** A probe path without a free slot covers the whole table. */
  lemma FullTable(t: Table, body: nat, start: nat)
    requires Taken(t, body, start, JUMP_SLOTS)
    ensures |Occupied(t)| == JUMP_SLOTS
  {
    hide ProbeAt;
    forall p: nat | p < JUMP_SLOTS
      ensures !Free(t[p])
    {
      var j := ProbeCovers(body, start, p);
      assert !Free(t[ProbeAt(body, start, j)]);
    }
    AllTaken(t);
  }

  // ---- the loops over the array -------------------------------------------------------------------------

  /** `jump_lookup`. The precondition is exactly what makes the source's loop end. */
  method Find(table: array<JumpSlot>, body: nat, start: nat) returns (r: Option<ScanResult>)
    requires table.Length == JUMP_SLOTS && JumpLookup(table[..], body, start) != Diverges
    ensures JumpLookup(table[..], body, start) == (if r.Some? then Found(r.value) else Absent)
  {
    ProbeNext(body, start, 0);
    hide JumpHash, ProbeAt;
    var i := JumpHash(body, start);
    ghost var j := 0;
    while true
      invariant 0 <= j < JUMP_SLOTS && i == ProbeAt(body, start, j)
      invariant JumpLookup(table[..], body, start) == LookupFrom(table[..], body, start, j)
      decreases JUMP_SLOTS - j
    {
      var s := table[i];
      assert s == table[..][i];
      if Free(s) { return None; }
      if s.keyBody == body && s.keyPc == start { return Some(SlotResult(s)); }
      ProbeNext(body, start, j);
      i := (i + 1) % JUMP_SLOTS;
      j := j + 1;
    }
  }

  lemma ProbeNext(body: nat, start: nat, j: nat)
    ensures ProbeAt(body, start, 0) == JumpHash(body, start)
    ensures ProbeAt(body, start, j + 1) == (ProbeAt(body, start, j) + 1) % JUMP_SLOTS
  {
    hide JumpHash;
  }

  /** `jump_insert`. */
  method Insert(table: array<JumpSlot>, body: nat, start: nat, r: ScanResult)
    requires table.Length == JUMP_SLOTS
    modifies table
    ensures table[..] == JumpInsert(old(table[..]), body, start, r)
  {
    ProbeNext(body, start, 0);
    hide JumpHash, ProbeAt;
    if body >= NO_BODY { return; }
    var i := JumpHash(body, start);
    for j := 0 to JUMP_SLOTS
      invariant table[..] == old(table[..]) && i == ProbeAt(body, start, j)
      invariant JumpInsert(table[..], body, start, r) == InsertFrom(table[..], body, start, r, j)
    {
      assert table[..][i] == table[i];
      if Free(table[i]) {
        table[i] := MakeSlot(body, start, r);
        return;
      }
      ProbeNext(body, start, j);
      i := (i + 1) % JUMP_SLOTS;
    }
  }

  method LenientSkipLoop(body: seq<byte>, i: nat, k: nat, d: nat) returns (r: nat)
    ensures r == LenientSkip(body, i, k, d)
  {
    var left := k;
    r := i;
    while left > 0
      invariant LenientSkip(body, i, k, d) == LenientSkip(body, r, left, d)
    {
      var n := SkipMethod(body, r);
      r, left := r + Or(n, d), left - 1;
    }
  }

  method WalkImmediatesMethod(body: seq<byte>, op: byte, i: nat) returns (r: Option<nat>)
    requires i <= |body|
    ensures r == WalkImmediates(body, op, i)
  {
    if OneLeb(op) || op == 0xFC {
      var j := LenientSkipLoop(body, i, 1, 0);
      r := Some(j);
    } else if TwoLebs(op) {
      var j := LenientSkipLoop(body, i, 2, 0);
      r := Some(j);
    } else if op == BR_TABLE {
      var c := DecodeU32(body[i..]);
      if c.None? { return None; }
      var count: int := c.value.0;
      var j := LenientSkipLoop(body, i + c.value.1, count + 1, 1);
      r := Some(j);
    } else if op == 0x3F || op == 0x40 {
      r := Some(i + 1);
    } else if op == 0x43 {
      r := Some(i + 4);
    } else if op == 0x44 {
      r := Some(i + 8);
    } else {
      r := Some(i);
    }
  }

  /** `pre_scan_body_jumps`. */
  method PreScanBodyJumps(body: seq<byte>, idx: nat, table: array<JumpSlot>)
    requires table.Length == JUMP_SLOTS
    modifies table
    ensures table[..] == Record(old(table[..]), body, idx, Starts(body, 0))
  {
    hide ScanBlockEnd, JumpInsert, WalkImmediates;
    var i := 0;
    while i < |body|
      invariant Record(old(table[..]), body, idx, Starts(body, 0)) == Record(table[..], body, idx, Starts(body, i))
      decreases |body| - i
    {
      var op := body[i];
      i := i + 1;
      if Opens(op) {
        if i >= |body| { return; }
        var start := i + 1;
        i := i + 1;
        assert ([start] + Starts(body, i))[1..] == Starts(body, i);
        var r := ScanBlockEndLoop(body, start);
        if r.Some? { Insert(table, idx, start, r.value); }
      } else {
        var j := WalkImmediatesMethod(body, op, i);
        if j.None? { return; }
        i := j.value;
      }
    }
  }

  /** Filling the table at instantiation. */
  method BuildTable(bodies: seq<seq<byte>>) returns (table: array<JumpSlot>)
    ensures table.Length == JUMP_SLOTS && table[..] == Build(bodies, |bodies|)
  {
    hide Record, Starts;
    table := new JumpSlot[JUMP_SLOTS](_ => EMPTY);
    for b := 0 to |bodies|
      invariant table[..] == Build(bodies, b)
    {
      PreScanBodyJumps(bodies[b], b, table);
    }
  }
}
