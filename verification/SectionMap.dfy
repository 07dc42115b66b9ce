/** What `load` keeps of any list of sections. */
module SectionMap {
  import opened Words
  import opened Bytes
  import opened Leb128
  import opened Emitter
  import L = Loader
  import R = RoundTrip

  /** Identifier, length and contents. */
  function OneSection(s: Section): seq<byte> {
    [s.id] + WriteU32(|s.body|) + s.body
  }

  function SectionList(secs: seq<Section>): seq<byte> {
    if secs == [] then [] else SectionList(secs[..|secs| - 1]) + OneSection(secs[|secs| - 1])
  }

  predicate Fit(secs: seq<Section>) {
    forall k :: 0 <= k < |secs| ==> |secs[k].body| < 0x1_0000_0000
  }

  /** The sections that the runtime looks at. */
  const KEPT: set<byte> := {1, 2, 3, 4, 5, 6, 7, 9, 10, 11}

  /** `body` is the contents of the last section numbered `id`. */
  ghost predicate IsLast(secs: seq<Section>, id: byte, body: seq<byte>) {
    exists k :: 0 <= k < |secs| && secs[k] == Section(id, body) && forall j :: k < j < |secs| ==> secs[j].id != id
  }

  predicate Occurs(secs: seq<Section>, id: byte) {
    exists k :: 0 <= k < |secs| && secs[k].id == id
  }

  lemma {:induction false} ListIs(secs: seq<Section>)
    requires Fit(secs)
    ensures SectionList(secs) == Concat(SectionBytes, secs)
    decreases |secs|
  {
    if secs != [] {
      var n := |secs| - 1;
      ListIs(secs[..n]);
      assert |secs[n].body| % TWO32 == |secs[n].body|;
      assert SectionBytes(secs[n]) == OneSection(secs[n]) by {
        hide WriteU32;
        assert [secs[n].id] + (WriteU32(|secs[n].body|) + secs[n].body) == OneSection(secs[n]);
      }
    }
  }

  /** What one more section does to what has been assigned. */
  lemma AssignLast(m: L.Loaded, secs: seq<Section>)
    requires secs != []
    ensures var n := |secs| - 1;
            var before := R.Assign(m, secs[..n]);
            R.Assign(m, secs) == if secs[n].id in KEPT then before[secs[n].id := secs[n].body] else before
  {
    var n := |secs| - 1;
    assert secs == secs[..n] + [secs[n]];
    R.AssignAppend(m, secs[..n], [secs[n]]);
    var before := R.Assign(m, secs[..n]);
    assert [secs[n]][1..] == [];
    assert R.Assign(before, [secs[n]])
           == R.Assign(if L.Known(secs[n].id) then before[secs[n].id := secs[n].body] else before, []);
  }

  lemma {:induction false} AssignMeans(secs: seq<Section>, id: byte)
    ensures var m := R.Assign(map[], secs);
            && (id in m <==> id in KEPT && Occurs(secs, id))
            && (id in m ==> IsLast(secs, id, m[id]))
    decreases |secs|
  {
    if secs == [] {
      assert R.Assign(map[], []) == map[];
    } else {
      var n := |secs| - 1;
      AssignMeans(secs[..n], id);
      AssignLast(map[], secs);
      OccursLast(secs, id);
      if id in KEPT {
        if secs[n].id == id {
          assert secs[n] == Section(id, secs[n].body);
        } else if Occurs(secs[..n], id) {
          LastStays(secs, id, R.Assign(map[], secs[..n])[id]);
        }
      }
    }
  }

  lemma OccursLast(secs: seq<Section>, id: byte)
    requires secs != []
    ensures Occurs(secs, id) <==> Occurs(secs[..|secs| - 1], id) || secs[|secs| - 1].id == id
  {
    if Occurs(secs, id) && secs[|secs| - 1].id != id {
      var k :| 0 <= k < |secs| && secs[k].id == id;
      assert secs[..|secs| - 1][k].id == id;
    }
  }

  lemma LastStays(secs: seq<Section>, id: byte, body: seq<byte>)
    requires secs != [] && IsLast(secs[..|secs| - 1], id, body) && secs[|secs| - 1].id != id
    ensures IsLast(secs, id, body)
  {
    var front := secs[..|secs| - 1];
    var k :| 0 <= k < |front| && front[k] == Section(id, body) && forall j :: k < j < |front| ==> front[j].id != id;
    assert secs[k] == Section(id, body);
    forall j | k < j < |secs|
      ensures secs[j].id != id
    {
      if j < |front| { assert front[j].id != id; }
    }
  }

  /** Loading any list of sections, with any numbers, in any order and with repetitions, succeeds; for each of the ten
      numbers that the runtime looks at it holds the contents of the last section of that number, or nothing where there
      is none, and it holds nothing else. */
  lemma LoadKeepsLast(secs: seq<Section>)
    requires Fit(secs)
    ensures var r := L.LoadOf([0x00, 0x61, 0x73, 0x6D, 0x01, 0x00, 0x00, 0x00] + SectionList(secs));
            && r.Ok?
            && forall id: byte :: (id in r.value <==> id in {1, 2, 3, 4, 5, 6, 7, 9, 10, 11} && Occurs(secs, id))
                                  && (id in r.value ==> IsLast(secs, id, r.value[id]))
  {
    hide R.Assign, SectionList, L.LoadFrom, IsLast, Occurs;
    var head: seq<byte> := [0x00, 0x61, 0x73, 0x6D, 0x01, 0x00, 0x00, 0x00];
    var b := head + SectionList(secs);
    ListIs(secs);
    assert b[..4] == L.MAGIC && b[4..8] == L.VERSION;
    AtWhole(b, head, SectionList(secs));
    R.SectionsAt(b, 8, secs, map[]);
    forall id: byte
      ensures var m := R.Assign(map[], secs);
              (id in m <==> id in KEPT && Occurs(secs, id)) && (id in m ==> IsLast(secs, id, m[id]))
    {
      AssignMeans(secs, id);
    }
  }

  lemma AtWhole(b: seq<byte>, x: seq<byte>, y: seq<byte>)
    requires b == x + y
    ensures At(b, |x|, y) && |x| + |y| == |b|
  {
  }
}
