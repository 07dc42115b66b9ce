/** What a module's jump table holds, and for which modules its lookups end. */
module JumpCapacity {
  import opened Words
  import opened Opcode
  import opened Scanner
  import opened JumpTable

  /** A body index and the position its block starts at. */
  type Key = (nat, nat)

  /** The openers among `starts` whose block is closed. */
  function ClosedKeys(body: seq<byte>, idx: nat, starts: seq<nat>): seq<Key>
    decreases |starts|
  {
    if starts == [] then []
    else
      var rest := ClosedKeys(body, idx, starts[1..]);
      if ScanBlockEnd(body, starts[0]).Some? then [(idx, starts[0])] + rest else rest
  }

  /** The closed openers that the pre-scan meets in bodies `0 .. n`, in order. */
  function Keys(bodies: seq<seq<byte>>, n: nat): seq<Key>
    requires n <= |bodies|
  {
    if n == 0 then [] else Keys(bodies, n - 1) + ClosedKeys(bodies[n - 1], n - 1, Starts(bodies[n - 1], 0))
  }

  function Kept(keys: seq<Key>): seq<Key> {
    keys[..Min(|keys|, 4096)]
  }

  /** The table holds exactly the first 4096 of `keys`. */
  ghost predicate Exact(t: Table, keys: seq<Key>) {
    && |Occupied(t)| == |Kept(keys)|
    && forall b: nat, pc: nat | b != NO_BODY :: Stored(t, b, pc) <==> (b, pc) in Kept(keys)
  }

  lemma ExactNext(t: Table, t': Table, keys: seq<Key>, body: nat, start: nat)
    requires Exact(t, keys)
    requires if |Occupied(t)| == JUMP_SLOTS then t' == t else AddsKey(t, t', body, start)
    ensures Exact(t', keys + [(body, start)])
  {
    hide Stored, Occupied;
    if |Occupied(t)| == JUMP_SLOTS {
      assert Kept(keys + [(body, start)]) == Kept(keys);
    } else {
      assert Kept(keys + [(body, start)]) == Kept(keys) + [(body, start)];
    }
  }

  lemma {:induction false} RecordExact(t: Table, bodies: seq<seq<byte>>, idx: nat, starts: seq<nat>, keys: seq<Key>)
    requires Valid(t, bodies) && Sized(bodies) && idx < |bodies| && Exact(t, keys)
    ensures var t' := Record(t, bodies[idx], idx, starts);
            Valid(t', bodies) && Exact(t', keys + ClosedKeys(bodies[idx], idx, starts))
    decreases |starts|
  {
    hide ScanBlockEnd, Valid, RecordOne, AddsKey, Exact, Occupied, Stored;
    if starts == [] {
      assert keys + [] == keys;
    } else {
      var t1 := RecordOne(t, bodies[idx], idx, starts[0]);
      var rest := ClosedKeys(bodies[idx], idx, starts[1..]);
      RecordOneValid(t, bodies, idx, starts[0]);
      if ScanBlockEnd(bodies[idx], starts[0]).Some? {
        ExactNext(t, t1, keys, idx, starts[0]);
        RecordExact(t1, bodies, idx, starts[1..], keys + [(idx, starts[0])]);
        assert keys + [(idx, starts[0])] + rest == keys + ([(idx, starts[0])] + rest);
      } else {
        RecordExact(t1, bodies, idx, starts[1..], keys);
      }
    }
  }

  lemma EmptyTable(bodies: seq<seq<byte>>)
    ensures Valid(Build(bodies, 0), bodies) && Exact(Build(bodies, 0), [])
  {
    assert Occupied(Build(bodies, 0)) == {};
  }

  /** Pre-scanning keeps the table truthful whatever the bodies hold, and stores exactly the first 4096 closed
      openers it meets. */
  lemma {:induction false} BuildExact(bodies: seq<seq<byte>>, n: nat)
    requires Sized(bodies) && n <= |bodies|
    ensures Valid(Build(bodies, n), bodies) && Exact(Build(bodies, n), Keys(bodies, n))
  {
    hide ScanBlockEnd, Valid, Record, Exact, Starts, ClosedKeys;
    if n == 0 {
      EmptyTable(bodies);
    } else {
      BuildExact(bodies, n - 1);
      RecordExact(Build(bodies, n - 1), bodies, n - 1, Starts(bodies[n - 1], 0), Keys(bodies, n - 1));
    }
  }

  // ---- the keys are distinct ----------------------------------------------------------------------------

  predicate Before(k: Key, l: Key) {
    k.0 < l.0 || (k.0 == l.0 && k.1 < l.1)
  }

  ghost predicate Ascending(keys: seq<Key>) {
    forall i, j :: 0 <= i < j < |keys| ==> Before(keys[i], keys[j])
  }

  ghost predicate Rising(s: seq<nat>, low: nat) {
    && (forall k :: 0 <= k < |s| ==> low <= s[k])
    && forall k, l :: 0 <= k < l < |s| ==> s[k] < s[l]
  }

  lemma {:induction false} StartsAscend(body: seq<byte>, i: nat)
    ensures Rising(Starts(body, i), i + 2)
    decreases |body| - i
  {
    hide WalkImmediates;
    if i < |body| {
      if Opens(body[i]) {
        StartsAscend(body, i + 2);
      } else {
        var j := WalkImmediates(body, body[i], i + 1);
        if j.Some? { StartsAscend(body, j.value); }
      }
    }
  }

  lemma {:induction false} ClosedAscend(body: seq<byte>, idx: nat, starts: seq<nat>)
    requires Rising(starts, 2)
    ensures Ascending(ClosedKeys(body, idx, starts))
    ensures forall k :: k in ClosedKeys(body, idx, starts) <==>
              k.0 == idx && k.1 in starts && ScanBlockEnd(body, k.1).Some?
    decreases |starts|
  {
    hide ScanBlockEnd;
    if starts != [] {
      ClosedAscend(body, idx, starts[1..]);
      var rest := ClosedKeys(body, idx, starts[1..]);
      assert starts == [starts[0]] + starts[1..];
      assert forall k :: k in rest ==> Before((idx, starts[0]), k);
      assert forall i :: 0 <= i < |rest| ==> rest[i] in rest;
    }
  }

  /** The keys, said of the module: no key comes twice. */
  lemma {:induction false} KeysAscend(bodies: seq<seq<byte>>, n: nat)
    requires n <= |bodies|
    ensures Ascending(Keys(bodies, n))
    ensures forall k :: k in Keys(bodies, n) <==>
              k.0 < n && k.1 in Starts(bodies[k.0], 0) && ScanBlockEnd(bodies[k.0], k.1).Some?
  {
    hide ScanBlockEnd, Starts, ClosedKeys;
    if n > 0 {
      KeysAscend(bodies, n - 1);
      StartsAscend(bodies[n - 1], 0);
      ClosedAscend(bodies[n - 1], n - 1, Starts(bodies[n - 1], 0));
      Joined(Keys(bodies, n - 1), ClosedKeys(bodies[n - 1], n - 1, Starts(bodies[n - 1], 0)), n - 1);
    }
  }

  lemma Joined(a: seq<Key>, b: seq<Key>, idx: nat)
    requires Ascending(a) && Ascending(b)
    requires (forall k :: k in a ==> k.0 < idx) && forall k :: k in b ==> k.0 == idx
    ensures Ascending(a + b)
  {
    assert forall i :: 0 <= i < |a| ==> a[i] in a;
    assert forall i :: 0 <= i < |b| ==> b[i] in b;
  }

  // ---- when lookups end -----------------------------------------------------------------------------------

  lemma FullIff(t: Table)
    ensures |Occupied(t)| <= JUMP_SLOTS
    ensures |Occupied(t)| == JUMP_SLOTS <==> forall p :: 0 <= p < JUMP_SLOTS ==> !Free(t[p])
  {
    NotOver(t);
    hide Occupied;
    if forall p :: 0 <= p < JUMP_SLOTS ==> !Free(t[p]) {
      AllTaken(t);
    } else {
      var p: nat :| p < JUMP_SLOTS && Free(t[p]);
      OneFree(t, p);
    }
  }

  lemma NotOver(t: Table)
    ensures |Occupied(t)| <= JUMP_SLOTS
  {
    AtMost(Occupied(t), JUMP_SLOTS);
  }

  lemma OneFree(t: Table, p: nat)
    requires p < JUMP_SLOTS && Free(t[p])
    ensures |Occupied(t)| < JUMP_SLOTS
  {
    LessThan(Occupied(t), JUMP_SLOTS, p);
  }

  /** The jump table agrees with the scan for every key: a key among the first 4096 closed openers is found at
      once, and lookup-or-scan is the scan. A lookup ends exactly when the module has fewer closed openers than that,
      or the key is among them. */
  lemma JumpTableAgrees(bodies: seq<seq<byte>>, body: nat, start: nat)
    requires Sized(bodies) && body < |bodies|
    ensures var t, keys := Build(bodies, |bodies|), Keys(bodies, |bodies|);
            && (JumpLookup(t, body, start) != Diverges <==> |keys| < 4096 || (body, start) in Kept(keys))
            && ((body, start) in Kept(keys) ==>
                  ScanBlockEnd(bodies[body], start).Some?
                  && JumpLookup(t, body, start) == Found(ScanBlockEnd(bodies[body], start).value))
            && LookupOrScan(t, bodies, body, start) == ScanBlockEnd(bodies[body], start)
  {
    hide ScanBlockEnd, Valid, Record, Occupied, Stored, Starts, LookupOrScan, JumpLookup, Keys;
    var t := Build(bodies, |bodies|);
    BuildExact(bodies, |bodies|);
    FullIff(t);
    LookupTerminates(t, bodies, body, start);
    LookupAgreesWithScan(t, bodies, body, start);
    if Stored(t, body, start) { StoredIsFound(t, bodies, body, start); }
  }

  /** Said of the module: the lookups of all closed openers end exactly when there are at most 4096 of them. In
      a module with exactly that many, every other lookup runs forever. */
  lemma ModuleLookupsEnd(bodies: seq<seq<byte>>)
    requires Sized(bodies)
    ensures var t, keys := Build(bodies, |bodies|), Keys(bodies, |bodies|);
            && ((forall k :: k in keys ==> JumpLookup(t, k.0, k.1) != Diverges) <==> |keys| <= 4096)
            && (|keys| == 4096 ==>
                  forall b: nat, pc: nat | b < |bodies| :: JumpLookup(t, b, pc) != Diverges <==> (b, pc) in keys)
  {
    hide JumpLookup, Build, Keys, ScanBlockEnd, Starts;
    var t, keys := Build(bodies, |bodies|), Keys(bodies, |bodies|);
    KeysAscend(bodies, |bodies|);
    forall b: nat, pc: nat | b < |bodies|
      ensures JumpLookup(t, b, pc) != Diverges <==> |keys| < JUMP_SLOTS || (b, pc) in Kept(keys)
    {
      JumpTableAgrees(bodies, b, pc);
    }
    if |keys| > JUMP_SLOTS {
      var k := keys[JUMP_SLOTS];
      assert k in keys && k !in Kept(keys);
      assert JumpLookup(t, k.0, k.1) == Diverges;
    }
  }

  // ---- a module whose lookups do not end ----------------------------------------------------------------------

  /** `n` empty blocks one after the other, and the end of the function. */
  function Blocks(n: nat): seq<byte> {
    seq(3 * n + 1, k => if k == 3 * n || k % 3 == 2 then END else if k % 3 == 0 then BLOCK else 0x40)
  }

  lemma BlockAt(n: nat, i: nat)
    requires i < n
    ensures Blocks(n)[3 * i] == BLOCK && Blocks(n)[3 * i + 2] == END
  {
  }

  /** The walk goes from one block to the next. */
  lemma OneBlock(n: nat, i: nat)
    requires i < n
    ensures Starts(Blocks(n), 3 * i) == [3 * i + 2] + Starts(Blocks(n), 3 * (i + 1))
    ensures ScanBlockEnd(Blocks(n), 3 * i + 2).Some?
  {
    BlockAt(n, i);
    hide Blocks;
    assert Starts(Blocks(n), 3 * i + 2) == Starts(Blocks(n), 3 * (i + 1)) by {
      assert WalkImmediates(Blocks(n), END, 3 * i + 2 + 1) == Some(3 * i + 3);
    }
  }

  lemma {:induction false} BlocksKeys(n: nat, i: nat)
    requires i <= n
    ensures |ClosedKeys(Blocks(n), 0, Starts(Blocks(n), 3 * i))| == n - i
    decreases n - i
  {
    if i < n {
      OneBlock(n, i);
      hide Starts, ScanBlockEnd, Blocks;
      assert ([3 * i + 2] + Starts(Blocks(n), 3 * (i + 1)))[1..] == Starts(Blocks(n), 3 * (i + 1));
      BlocksKeys(n, i + 1);
    } else {
      assert WalkImmediates(Blocks(n), END, 3 * n + 1) == Some(3 * n + 1);
      assert Starts(Blocks(n), 3 * n) == [];
    }
  }

  /** One function of more than 4096 empty blocks: entering some one of them, the kernel's lookup never ends. */
  lemma EmptyBlocksDiverge(n: nat) returns (start: nat)
    requires 4096 < n < TWO32 / 4
    ensures Sized([Blocks(n)]) && start in Starts(Blocks(n), 0) && ScanBlockEnd(Blocks(n), start).Some?
    ensures JumpLookup(Build([Blocks(n)], 1), 0, start) == Diverges
  {
    var bodies := [Blocks(n)];
    BlocksKeys(n, 0);
    hide JumpLookup, Build, ScanBlockEnd, Starts, Blocks;
    assert Keys(bodies, 1) == Keys(bodies, 0) + ClosedKeys(bodies[0], 0, Starts(bodies[0], 0));
    ModuleLookupsEnd(bodies);
    KeysAscend(bodies, 1);
    var k :| k in Keys(bodies, 1) && JumpLookup(Build(bodies, 1), k.0, k.1) == Diverges;
    start := k.1;
  }
}
