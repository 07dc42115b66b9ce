/** LEB128 integers: the three readers of the loader and the interpreter, the two writers of the
    assembler, and the scanner's skip.

    The specification of a reader is the little-endian base-128 value of section 5.2.2 of the
    WebAssembly Core Specification, reduced to the machine width; the methods follow the shifting
    loops of the source. The `|=` of a 7-bit group above the accumulated bits is written `+`. */
module Leb128 {
  import opened Words

  /** Value and length of an unsigned group sequence of at most `limit` bytes. */
  function Unsigned(bs: seq<byte>, limit: nat): (r: Option<(nat, nat)>)
    ensures r.Some? ==> 0 < r.value.1 <= |bs| && r.value.1 <= limit
  {
    if limit == 0 || bs == [] then None
    else if bs[0] < 128 then Some((bs[0], 1))
    else
      match Unsigned(bs[1..], limit - 1)
      case None => None
      case Some((v, n)) => Some((bs[0] - 128 + 128 * v, n + 1))
  }

  /** The same with bit 6 of the last byte as sign. */
  function Signed(bs: seq<byte>, limit: nat): (r: Option<(int, nat)>)
    ensures r.Some? ==> 0 < r.value.1 <= |bs| && r.value.1 <= limit
  {
    if limit == 0 || bs == [] then None
    else if bs[0] < 128 then (var b: int := bs[0]; Some((if b < 64 then b else b - 128, 1)))
    else
      match Signed(bs[1..], limit - 1)
      case None => None
      case Some((v, n)) => Some((bs[0] - 128 + 128 * v, n + 1))
  }

  function ReadU32(bs: seq<byte>): (r: Option<(u32, nat)>)
    ensures r.Some? ==> 0 < r.value.1 <= |bs| && r.value.1 <= 5
  {
    match Unsigned(bs, 5)
    case None => None
    case Some((v, n)) => Some((v % TWO32, n))
  }

  /** Result as the signed value of an `i32`. */
  function ReadI32(bs: seq<byte>): (r: Option<(int, nat)>)
    ensures r.Some? ==> 0 < r.value.1 <= |bs| && r.value.1 <= 5 && -TWO31 <= r.value.0 < TWO31
  {
    match Signed(bs, 5)
    case None => None
    case Some((v, n)) => Some((ToI32(v), n))
  }

  /** Result as the bit pattern of an `i64`. */
  function ReadI64(bs: seq<byte>): (r: Option<(Word, nat)>)
    ensures r.Some? ==> 0 < r.value.1 <= |bs| && r.value.1 <= 10
  {
    match Signed(bs, 10)
    case None => None
    case Some((v, n)) => Some((ToWord(v), n))
  }

  function WriteU32(v: nat): (bs: seq<byte>)
    ensures |bs| > 0
  {
    if v < 128 then [v] else [v % 128 + 128] + WriteU32(v / 128)
  }

  function WriteI32(v: int): (bs: seq<byte>)
    ensures |bs| > 0
    decreases if v < 0 then -v else v
  {
    if -64 <= v < 64 then [v % 128] else [v % 128 + 128] + WriteI32(v / 128)
  }

  /** Length of one LEB128 value at `start`, or `None` when it runs off the end. */
  function SkipLeb(bs: seq<byte>, start: nat): (r: Option<nat>)
    ensures r.Some? ==> 0 < r.value && start + r.value <= |bs|
    decreases |bs| - start
  {
    if start >= |bs| then None
    else if bs[start] < 128 then Some(1)
    else
      match SkipLeb(bs, start + 1)
      case None => None
      case Some(n) => Some(n + 1)
  }

  // ---- round trips ----------------------------------------------------------------------

  /** Any unsigned value of at most `7 * limit` bits is read back, whatever follows it. */
  lemma {:induction false} UnsignedRoundTrip(v: nat, limit: nat, rest: seq<byte>)
    requires limit > 0 && v < Pow2(7 * limit)
    ensures Unsigned(WriteU32(v) + rest, limit) == Some((v, |WriteU32(v)|))
  {
    if v >= 128 {
      UnsignedQuotient(v, limit);
      hide Pow2;
      UnsignedRoundTrip(v / 128, limit - 1, rest);
      assert (WriteU32(v) + rest)[1..] == WriteU32(v / 128) + rest;
    }
  }

  lemma UnsignedQuotient(v: nat, limit: nat)
    requires limit > 0 && 128 <= v < Pow2(7 * limit)
    ensures limit > 1 && v / 128 < Pow2(7 * (limit - 1))
  {
    hide Pow2;
    Pow2Values();
    assert limit == 1 ==> 7 * limit == 7;
    if limit > 1 {
      assert 7 * limit == 7 + 7 * (limit - 1);
      Pow2Add(7, 7 * (limit - 1));
    }
  }

  lemma SignedOne(v: int, limit: nat, rest: seq<byte>)
    requires limit > 0 && -64 <= v < 64
    ensures |WriteI32(v)| == 1 && Signed(WriteI32(v) + rest, limit) == Some((v, 1))
  {
    assert v % 128 == if v < 0 then v + 128 else v;
  }

  lemma SignedMore(v: int, limit: nat, rest: seq<byte>)
    requires limit > 1 && !(-64 <= v < 64)
    requires Signed(WriteI32(v / 128) + rest, limit - 1) == Some((v / 128, |WriteI32(v / 128)|))
    ensures Signed(WriteI32(v) + rest, limit) == Some((v, |WriteI32(v)|))
  {
    var bs := WriteI32(v) + rest;
    assert bs[0] == v % 128 + 128 && bs[1..] == WriteI32(v / 128) + rest && |WriteI32(v)| == 1 + |WriteI32(v / 128)|;
    assert v == v % 128 + 128 * (v / 128);
    hide WriteI32;
  }

  /** Any signed value of at most `7 * limit` bits is read back, whatever follows it. */
  lemma {:induction false} SignedRoundTrip(v: int, limit: nat, rest: seq<byte>)
    requires limit > 0 && 0 <= v + Pow2(7 * limit - 1) && v < Pow2(7 * limit - 1)
    ensures Signed(WriteI32(v) + rest, limit) == Some((v, |WriteI32(v)|))
    decreases limit
  {
    hide Pow2, Signed, WriteI32;
    if -64 <= v < 64 {
      SignedOne(v, limit, rest);
    } else {
      SignedQuotient(v, limit);
      SignedRoundTrip(v / 128, limit - 1, rest);
      SignedMore(v, limit, rest);
    }
  }

  /** A value that needs another group has one, and its quotient fits one group less. */
  lemma SignedQuotient(v: int, limit: nat)
    requires limit > 0 && 0 <= v + Pow2(7 * limit - 1) && v < Pow2(7 * limit - 1) && !(-64 <= v < 64)
    ensures limit > 1
    ensures 0 <= v / 128 + Pow2(7 * (limit - 1) - 1) && v / 128 < Pow2(7 * (limit - 1) - 1)
  {
    Pow2Values();
    assert Pow2(7) == 2 * Pow2(6);
    hide Pow2;
    assert limit == 1 ==> 7 * limit - 1 == 6;
    if limit > 1 {
      var p := 7 * (limit - 1) - 1;
      assert 7 * limit - 1 == 7 + p;
      Pow2Add(7, p);
    }
  }

  lemma U32RoundTrip(v: u32, rest: seq<byte>)
    ensures ReadU32(WriteU32(v) + rest) == Some((v, |WriteU32(v)|))
  {
    hide Pow2, Unsigned, WriteU32;
    Pow2Values();
    Pow2Add(32, 3);
    FactorGrows(TWO32, Pow2(3));
    UnsignedRoundTrip(v, 5, rest);
  }

  /** `write_leb128_i32` is undone by both signed readers, since the assembler also writes `i64.const`
      operands with it. */
  lemma I32RoundTrip(v: int, rest: seq<byte>)
    requires -TWO31 <= v < TWO31
    ensures ReadI32(WriteI32(v) + rest) == Some((v, |WriteI32(v)|))
    ensures ReadI64(WriteI32(v) + rest) == Some((ToWord(v), |WriteI32(v)|))
  {
    hide Pow2, Signed, WriteI32;
    GroupBounds();
    SignedRoundTrip(v, 5, rest);
    SignedRoundTrip(v, 10, rest);
  }

  /** What five and ten groups hold. */
  lemma GroupBounds()
    ensures Pow2(34) >= TWO31 && Pow2(69) >= TWO31
  {
    hide Pow2;
    Pow2Values();
    Pow2Add(28, 6);
    Pow2Add(32, 37);
    Pow2Add(32, 2);
    assert Pow2(37) >= 1 && Pow2(2) >= 1 && Pow2(6) >= 1;
    FactorGrows(TWO32, Pow2(2));
    FactorGrows(TWO32, Pow2(37));
  }

  lemma FactorGrows(a: nat, b: nat)
    requires b >= 1
    ensures a * b >= a
  {
  }

  /** A well-formed group sequence: continuation bytes followed by one final byte. */
  ghost predicate IsLeb(bs: seq<byte>) {
    |bs| > 0 && bs[|bs| - 1] < 128 && forall i :: 0 <= i < |bs| - 1 ==> bs[i] >= 128
  }

  /** Skipping passes exactly over a well-formed group sequence, wherever it stands. */
  lemma {:induction false} SkipLebExact(bs: seq<byte>, start: nat, leb: seq<byte>)
    requires IsLeb(leb)
    requires start + |leb| <= |bs| && bs[start..start + |leb|] == leb
    ensures SkipLeb(bs, start) == Some(|leb|)
    decreases |leb|
  {
    assert bs[start] == leb[0];
    if |leb| > 1 {
      assert bs[start + 1..start + 1 + |leb[1..]|] == leb[1..];
      SkipLebExact(bs, start + 1, leb[1..]);
    }
  }

  /** Reading agrees with skipping on how many bytes an encoding has, and reading depends on
      those bytes only. */
  lemma {:induction false} UnsignedExact(leb: seq<byte>, rest: seq<byte>, limit: nat)
    requires IsLeb(leb) && |leb| <= limit
    ensures Unsigned(leb, limit).Some? && Unsigned(leb, limit).value.1 == |leb|
    ensures Unsigned(leb + rest, limit) == Unsigned(leb, limit)
    decreases |leb|
  {
    if |leb| > 1 {
      UnsignedExact(leb[1..], rest, limit - 1);
      assert (leb + rest)[1..] == leb[1..] + rest;
    }
  }

  lemma {:induction false} WriteU32IsLeb(v: nat)
    ensures IsLeb(WriteU32(v))
  {
    if v >= 128 { WriteU32IsLeb(v / 128); }
  }

  lemma {:induction false} WriteI32IsLeb(v: int)
    ensures IsLeb(WriteI32(v))
    decreases if v < 0 then -v else v
  {
    if !(-64 <= v < 64) { WriteI32IsLeb(v / 128); }
  }

  // ---- the loops ----------------------------------------------------------------------------

  function Pow128(i: nat): (p: nat)
    ensures p > 0
  {
    if i == 0 then 1 else 128 * Pow128(i - 1)
  }

  /** `v << 7*i`, without truncation. */
  function Shift(v: int, i: nat): int {
    if i == 0 then v else 128 * Shift(v, i - 1)
  }

  lemma {:induction false} ShiftSum(b: int, v: int, i: nat)
    ensures Shift(b + 128 * v, i) == Shift(b, i) + Shift(v, i + 1)
  {
    if i > 0 { ShiftSum(b, v, i - 1); }
  }

  lemma {:induction false} ShiftBounds(c: int, i: nat)
    requires 0 <= c < 128
    ensures 0 <= Shift(c, i) && Shift(c, i) + Pow128(i) <= Pow128(i + 1)
    ensures c >= 64 ==> Shift(c, i) >= 64 * Pow128(i)
    ensures Shift(c - 128, i) == Shift(c, i) - Pow128(i + 1)
  {
    if i > 0 { ShiftBounds(c, i - 1); }
  }

  /** What the loop knows at index `i`: the whole value is `acc` plus the rest, weighted. */
  ghost function Above(acc: int, i: nat, tail: Option<(int, nat)>): Option<(int, nat)> {
    match tail
    case None => None
    case Some((v, n)) => Some((acc + Shift(v, i), n + i))
  }

  /** Before the first group. */
  lemma AboveStart(bytes: seq<byte>, limit: nat)
    ensures Unsigned(bytes, limit) == Above(0, 0, Unsigned(bytes[0..], limit))
    ensures Signed(bytes, limit) == Above(0, 0, Signed(bytes[0..], limit)) && Pow128(0) == 1
  {
    assert bytes[0..] == bytes;
  }

  /** No group left, or none allowed. */
  lemma AboveEnds(bytes: seq<byte>, limit: nat, i: nat, acc: int)
    requires i <= |bytes| && i <= limit && (i == |bytes| || i == limit)
    ensures Above(acc, i, Unsigned(bytes[i..], limit - i)) == None
    ensures Above(acc, i, Signed(bytes[i..], limit - i)) == None
  {
  }

  lemma UnsignedStep(bytes: seq<byte>, limit: nat, i: nat, acc: int)
    requires i < |bytes| && i < limit
    requires Unsigned(bytes, limit) == Above(acc, i, Unsigned(bytes[i..], limit - i))
    ensures bytes[i] < 128 ==> Unsigned(bytes, limit) == Some((acc + Shift(bytes[i], i), i + 1))
    ensures bytes[i] >= 128 ==>
              Unsigned(bytes, limit) ==
              Above(acc + Shift(bytes[i] - 128, i), i + 1, Unsigned(bytes[i + 1..], limit - (i + 1)))
  {
    assert bytes[i..][1..] == bytes[i + 1..];
    var tail := Unsigned(bytes[i + 1..], limit - (i + 1));
    if bytes[i] >= 128 && tail.Some? {
      ShiftSum(bytes[i] - 128, tail.value.0, i);
    }
  }

  lemma SignedStep(bytes: seq<byte>, limit: nat, i: nat, acc: int)
    requires i < |bytes| && i < limit
    requires Signed(bytes, limit) == Above(acc, i, Signed(bytes[i..], limit - i))
    ensures bytes[i] < 64 ==> Signed(bytes, limit) == Some((acc + Shift(bytes[i], i), i + 1))
    ensures 64 <= bytes[i] < 128 ==>
              Signed(bytes, limit) == Some((acc + Shift(bytes[i], i) - Pow128(i + 1), i + 1))
    ensures bytes[i] >= 128 ==>
              Signed(bytes, limit) ==
              Above(acc + Shift(bytes[i] - 128, i), i + 1, Signed(bytes[i + 1..], limit - (i + 1)))
  {
    assert bytes[i..][1..] == bytes[i + 1..];
    var tail := Signed(bytes[i + 1..], limit - (i + 1));
    if bytes[i] >= 128 && tail.Some? {
      ShiftSum(bytes[i] - 128, tail.value.0, i);
    } else if 64 <= bytes[i] < 128 {
      ShiftBounds(bytes[i], i);
    }
  }

  lemma Pow128Values()
    ensures Pow128(4) == 268435456 && Pow128(5) == 128 * 268435456
    ensures Pow128(9) == TWO63
  {
    assert Pow128(2) == 16384;
    assert Pow128(6) == 4398046511104;
    assert Pow128(8) == 72057594037927936;
  }

  lemma ShiftValues(c: int)
    ensures Shift(c, 4) == 268435456 * c
    ensures Shift(c, 9) == TWO63 * c
  {
    ShiftStep(c, 0); ShiftStep(c, 1); ShiftStep(c, 2); ShiftStep(c, 3); ShiftStep(c, 4);
    ShiftStep(c, 5); ShiftStep(c, 6); ShiftStep(c, 7); ShiftStep(c, 8);
  }

  lemma ShiftStep(c: int, i: nat)
    ensures Shift(c, 0) == c && Shift(c, i + 1) == 128 * Shift(c, i)
  {
  }

  lemma {:induction false} Pow128Monotone(i: nat, j: nat)
    requires i <= j
    ensures Pow128(i) <= Pow128(j)
    decreases j
  {
    if i < j { Pow128Monotone(i, j - 1); }
  }

  /** Adding a group truncated to the width is truncating the sum: the bits are disjoint. */
  lemma Group32(acc: nat, i: nat, c: nat)
    requires i <= 4 && acc < Pow128(i) && c < 128
    ensures 0 <= acc + Shift(c, i) < Pow128(i + 1)
    ensures acc % TWO32 + Shift(c, i) % TWO32 == (acc + Shift(c, i)) % TWO32
  {
    Pow128Values();
    ShiftBounds(c, i);
    if i < 4 {
      Pow128Monotone(i + 1, 4);
      ModUnique(acc, TWO32, 0, acc);
      ModUnique(Shift(c, i), TWO32, 0, Shift(c, i));
      ModUnique(acc + Shift(c, i), TWO32, 0, acc + Shift(c, i));
    } else {
      ShiftValues(c);
      ModUnique(acc, TWO32, 0, acc);
      ModUnique(268435456 * c, TWO32, c / 16, 268435456 * (c % 16));
      ModUnique(acc + 268435456 * c, TWO32, c / 16, acc + 268435456 * (c % 16));
    }
  }

  lemma Group64(acc: nat, i: nat, c: nat)
    requires i <= 9 && acc < Pow128(i) && c < 128
    ensures 0 <= acc + Shift(c, i) < Pow128(i + 1)
    ensures acc % TWO64 + Shift(c, i) % TWO64 == (acc + Shift(c, i)) % TWO64
  {
    Pow128Values();
    ShiftBounds(c, i);
    if i < 9 {
      Pow128Monotone(i + 1, 9);
      ModUnique(acc, TWO64, 0, acc);
      ModUnique(Shift(c, i), TWO64, 0, Shift(c, i));
      ModUnique(acc + Shift(c, i), TWO64, 0, acc + Shift(c, i));
    } else {
      ShiftValues(c);
      ModUnique(acc, TWO64, 0, acc);
      ModUnique(TWO63 * c, TWO64, c / 2, TWO63 * (c % 2));
      ModUnique(acc + TWO63 * c, TWO64, c / 2, acc + TWO63 * (c % 2));
    }
  }

  /** Filling ones above bit `7*k` subtracts the weight of that bit; when the groups already cover
      the width, that weight is a multiple of the modulus and nothing is filled. */
  lemma SignFill32(exact: nat, k: nat, negative: bool)
    requires 1 <= k <= 5 && exact < Pow128(k)
    ensures ToI32(if negative then exact - Pow128(k) else exact) ==
            ToI32(if negative && 7 * k < 32 then exact % TWO32 + (TWO32 - Pow128(k)) else exact % TWO32)
  {
    hide Pow128;
    Pow128Values();
    if negative {
      if k < 5 {
        Pow128Monotone(k, 4);
        ModUnique(exact, TWO32, 0, exact);
        ModShift(exact - Pow128(k), 1, TWO32);
      } else {
        ModShift(exact, -8, TWO32);
      }
    }
  }

  lemma SignFill64(exact: nat, k: nat, negative: bool)
    requires 1 <= k <= 10 && exact < Pow128(k)
    ensures ToWord(if negative then exact - Pow128(k) else exact) ==
            (if negative && 7 * k < 64 then exact % TWO64 + (TWO64 - Pow128(k)) else exact % TWO64)
  {
    Pow128Values();
    if negative {
      if k < 10 {
        Pow128Monotone(k, 9);
        ModUnique(exact, TWO64, 0, exact);
        ModUnique(exact - Pow128(k), TWO64, -1, exact - Pow128(k) + TWO64);
      } else {
        ModShift(exact, -64, TWO64);
      }
    }
  }

  /** `b & 0x7F`. */
  function Low7(b: byte): (r: nat)
    ensures r == b % 128
  {
    if b < 128 then b else b - 128
  }

  /** What the decoding loops keep: `exact` is the value of the groups before `i`, `result` the accumulator. */
  ghost predicate Reading(bytes: seq<byte>, signed: bool, limit: nat, m: nat, i: nat, exact: nat, result: int)
    requires m > 0
  {
    && i <= |bytes| && i <= limit && exact < Pow128(i) && result == exact % m
    && if signed then Signed(bytes, limit) == Above(exact, i, Signed(bytes[i..], limit - i))
       else Unsigned(bytes, limit) == Above(exact, i, Unsigned(bytes[i..], limit - i))
  }

  lemma ReadingStart(bytes: seq<byte>, signed: bool, limit: nat, m: nat)
    requires m > 0
    ensures Reading(bytes, signed, limit, m, 0, 0, 0)
  {
    hide Unsigned, Signed, Above;
    AboveStart(bytes, limit);
  }

  lemma ReadingEnds(bytes: seq<byte>, signed: bool, limit: nat, m: nat, i: nat, exact: nat, result: int)
    requires m > 0 && Reading(bytes, signed, limit, m, i, exact, result) && (i >= |bytes| || i >= limit)
    ensures if signed then Signed(bytes, limit).None? else Unsigned(bytes, limit).None?
  {
    hide Unsigned, Signed, Above;
    AboveEnds(bytes, limit, i, exact);
  }

  /** One turn of the loop of `read_u32_leb128`. */
  lemma UnsignedGroup32(bytes: seq<byte>, i: nat, exact: nat, result: int)
    requires Reading(bytes, false, 5, TWO32, i, exact, result) && i < |bytes| && i < 5
    ensures var exact' := exact + Shift(Low7(bytes[i]), i);
            var result' := result + Shift(Low7(bytes[i]), i) % TWO32;
            && exact' >= 0 && 0 <= result' < TWO32
            && (bytes[i] >= 128 ==> Reading(bytes, false, 5, TWO32, i + 1, exact', result'))
            && (bytes[i] < 128 ==> ReadU32(bytes) == Some((result', i + 1)))
  {
    hide Shift, Pow128, Unsigned, Above;
    Group32(exact, i, Low7(bytes[i]));
    UnsignedStep(bytes, 5, i, exact);
  }

  method DecodeU32(bytes: seq<byte>) returns (r: Option<(u32, nat)>)
    ensures r == ReadU32(bytes)
  {
    hide Reading, Unsigned;
    var result: int := 0;
    var i := 0;
    ghost var exact: nat := 0;
    ReadingStart(bytes, false, 5, TWO32);
    while i < |bytes|
      invariant 0 <= i <= |bytes| && Reading(bytes, false, 5, TWO32, i, exact, result)
    {
      if 7 * i >= 35 { break; }
      UnsignedGroup32(bytes, i, exact, result);
      var b := bytes[i];
      result := result + Shift(Low7(b), i) % TWO32;
      exact := exact + Shift(Low7(b), i);
      i := i + 1;
      if b < 128 { return Some((result, i)); }
    }
    ReadingEnds(bytes, false, 5, TWO32, i, exact, result);
    return None;
  }

  /** One turn of the loop of `read_i32_leb128`. */
  lemma SignedGroup32(bytes: seq<byte>, i: nat, exact: nat, result: int)
    requires Reading(bytes, true, 5, TWO32, i, exact, result) && i < |bytes| && i < 5
    ensures var exact' := exact + Shift(Low7(bytes[i]), i);
            var result' := result + Shift(Low7(bytes[i]), i) % TWO32;
            && exact' >= 0
            && (bytes[i] >= 128 ==> Reading(bytes, true, 5, TWO32, i + 1, exact', result'))
            && (bytes[i] < 128 ==>
                 var fill := if 7 * (i + 1) < 32 && bytes[i] >= 64 then TWO32 - Pow128(i + 1) else 0;
                 ReadI32(bytes) == Some((ToI32(result' + fill), i + 1)))
  {
    hide Shift, Pow128, Signed, ToI32, Above;
    Group32(exact, i, Low7(bytes[i]));
    SignedStep(bytes, 5, i, exact);
    var exact' := exact + Shift(Low7(bytes[i]), i);
    if bytes[i] < 128 { SignFill32(exact', i + 1, bytes[i] >= 64); }
  }

  method DecodeI32(bytes: seq<byte>) returns (r: Option<(int, nat)>)
    ensures r == ReadI32(bytes)
  {
    hide Reading, Signed, ToI32;
    var result: int := 0;
    var i := 0;
    ghost var exact: nat := 0;
    ReadingStart(bytes, true, 5, TWO32);
    while i < |bytes|
      invariant 0 <= i <= |bytes| && Reading(bytes, true, 5, TWO32, i, exact, result)
    {
      if 7 * i >= 7 * 5 { break; }
      SignedGroup32(bytes, i, exact, result);
      var b := bytes[i];
      result := result + Shift(Low7(b), i) % TWO32;
      exact := exact + Shift(Low7(b), i);
      i := i + 1;
      if b < 128 {
        if 7 * i < 32 && b >= 64 {
          result := result + (TWO32 - Pow128(i));
        }
        return Some((ToI32(result), i));
      }
    }
    ReadingEnds(bytes, true, 5, TWO32, i, exact, result);
    return None;
  }

  /** One turn of the loop of `read_i64_leb128`. */
  lemma SignedGroup64(bytes: seq<byte>, i: nat, exact: nat, result: int)
    requires Reading(bytes, true, 10, TWO64, i, exact, result) && i < |bytes| && i < 10
    ensures var exact' := exact + Shift(Low7(bytes[i]), i);
            var result' := result + Shift(Low7(bytes[i]), i) % TWO64;
            && exact' >= 0
            && (bytes[i] >= 128 ==> Reading(bytes, true, 10, TWO64, i + 1, exact', result'))
            && (bytes[i] < 128 ==>
                 var fill := if 7 * (i + 1) < 64 && bytes[i] >= 64 then TWO64 - Pow128(i + 1) else 0;
                 0 <= result' + fill < TWO64 && ReadI64(bytes) == Some((result' + fill, i + 1)))
  {
    hide Shift, Pow128, Signed, ToWord, Above;
    Group64(exact, i, Low7(bytes[i]));
    SignedStep(bytes, 10, i, exact);
    var exact' := exact + Shift(Low7(bytes[i]), i);
    if bytes[i] < 128 { SignFill64(exact', i + 1, bytes[i] >= 64); }
  }

  method DecodeI64(bytes: seq<byte>) returns (r: Option<(Word, nat)>)
    ensures r == ReadI64(bytes)
  {
    hide Reading, Signed, ToWord;
    var result: int := 0;
    var i := 0;
    ghost var exact: nat := 0;
    ReadingStart(bytes, true, 10, TWO64);
    while i < |bytes|
      invariant 0 <= i <= |bytes| && Reading(bytes, true, 10, TWO64, i, exact, result)
    {
      if 7 * i >= 7 * 10 { break; }
      SignedGroup64(bytes, i, exact, result);
      var b := bytes[i];
      result := result + Shift(Low7(b), i) % TWO64;
      exact := exact + Shift(Low7(b), i);
      i := i + 1;
      if b < 128 {
        if 7 * i < 64 && b >= 64 {
          result := result + (TWO64 - Pow128(i));
        }
        return Some((result, i));
      }
    }
    ReadingEnds(bytes, true, 10, TWO64, i, exact, result);
    return None;
  }

  method SkipMethod(bytes: seq<byte>, start: nat) returns (r: Option<nat>)
    ensures r == SkipLeb(bytes, start)
  {
    var i := start;
    while i < |bytes|
      invariant start <= i && (i <= |bytes| || i == start)
      invariant SkipLeb(bytes, start) ==
                (match SkipLeb(bytes, i) case None => None case Some(n) => Some(n + (i - start)))
    {
      var b := bytes[i];
      i := i + 1;
      if b < 128 { return Some(i - start); }
    }
    return None;
  }

  /** `write_leb128_u32`, appending to `buf`. */
  method EncodeU32(buf: seq<byte>, value: u32) returns (out: seq<byte>)
    ensures out == buf + WriteU32(value)
  {
    var val := value;
    out := buf;
    while true
      invariant 0 <= val
      invariant out + WriteU32(val) == buf + WriteU32(value)
      decreases val
    {
      var b := val % 128;
      ghost var before := val;
      val := val / 128;
      if val == 0 {
        return out + [b];
      }
      assert out + WriteU32(before) == (out + [b + 128]) + WriteU32(val);
      out := out + [b + 128];
    }
  }

  /** `write_leb128_i32`: shift by 6, test for an all-sign remainder, then shift by one more. */
  method EncodeI32(buf: seq<byte>, value: int) returns (out: seq<byte>)
    ensures out == buf + WriteI32(value)
  {
    var val := value;
    out := buf;
    while true
      invariant out + WriteI32(val) == buf + WriteI32(value)
      decreases if val < 0 then -val else val
    {
      var b := val % 128;
      ghost var before := val;
      val := val / 64;
      if val == 0 || val == -1 {
        return out + [b];
      }
      val := val / 2;
      assert val == before / 128;
      assert out + WriteI32(before) == (out + [b + 128]) + WriteI32(val);
      out := out + [b + 128];
    }
  }
}
