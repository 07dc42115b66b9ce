/** When the JIT's 64-bit operations agree with the interpreter's 32-bit ones.

    `a`, `b` are the machine words, `x`, `y` the interpreter's operands with the same low halves. The six
    arithmetic operations always agree in the low half. For shifts, the compiler masks the count to 6 bits and
    shifts the whole word; the interpreter masks it to 5 bits and shifts the low half. */
module JitShifts {
  import opened Words
  import opened X86
  import opened JitCorrect

  // ---- arithmetic on low halves ---------------------------------------------------------------

  lemma SignedLow(a: Word) returns (k: int)
    ensures ToI32(a) == a + k * TWO32
  {
    k := if a % TWO32 < TWO31 then -(a / TWO32) else -(a / TWO32) - 1;
  }

  /** A machine ALU operation on words that agree with the interpreter's operands in the low half
      produces the interpreter's result in the low half. */
  lemma AluAgrees(op: AluOp, a: Word, b: Word, x: Word, y: Word)
    requires Low32(a) == Low32(x) && Low32(b) == Low32(y)
    ensures Low32(AluResult(op, a, b)) == Low32(I32Binary(op, x, y))
  {
    match op
    case Add =>
      LinearAgrees(a, b, x, y);
    case Sub =>
      LinearAgrees(a, b, x, y);
    case Imul =>
      ProductAgrees(a, b, x, y);
    case And =>
      BitwiseLow32(BitAnd, a, b);
      SignExtendLow(Bitwise(BitAnd, Low32(x), Low32(y), 32));
      BitwiseSmall(BitAnd, Low32(x), Low32(y));
    case Or =>
      BitwiseLow32(BitOr, a, b);
      SignExtendLow(Bitwise(BitOr, Low32(x), Low32(y), 32));
      BitwiseSmall(BitOr, Low32(x), Low32(y));
    case Xor =>
      BitwiseLow32(BitXor, a, b);
      SignExtendLow(Bitwise(BitXor, Low32(x), Low32(y), 32));
      BitwiseSmall(BitXor, Low32(x), Low32(y));
  }

  lemma BitwiseSmall(op: BitOp, a: u32, b: u32)
    ensures Low32(Bitwise(op, a, b, 32)) == Bitwise(op, a, b, 32)
  {
    Pow2Values();
    ModUnique(Bitwise(op, a, b, 32), TWO32, 0, Bitwise(op, a, b, 32));
  }

  lemma LowDifference(a: Word, x: Word) returns (k: int)
    requires Low32(a) == Low32(x)
    ensures a == ToI32(x) + k * TWO32
  {
    var j := SignedLow(x);
    k := a / TWO32 - x / TWO32 - j;
  }

  lemma LinearAgrees(a: Word, b: Word, x: Word, y: Word)
    requires Low32(a) == Low32(x) && Low32(b) == Low32(y)
    ensures Low32((a + b) % TWO64) == Low32(SignExtend32(ToI32(x) + ToI32(y)))
    ensures Low32((a - b) % TWO64) == Low32(SignExtend32(ToI32(x) - ToI32(y)))
  {
    var j := LowDifference(a, x);
    var k := LowDifference(b, y);
    Low32OfWord(a + b);
    Low32OfWord(a - b);
    SignExtendLow(ToI32(x) + ToI32(y));
    SignExtendLow(ToI32(x) - ToI32(y));
    Low32Congruent(a + b, ToI32(x) + ToI32(y), j + k);
    Low32Congruent(a - b, ToI32(x) - ToI32(y), j - k);
  }

  lemma ProductAgrees(a: Word, b: Word, x: Word, y: Word)
    requires Low32(a) == Low32(x) && Low32(b) == Low32(y)
    ensures Low32((a * b) % TWO64) == Low32(SignExtend32(ToI32(x) * ToI32(y)))
  {
    var j := LowDifference(a, x);
    var k := LowDifference(b, y);
    var p, q := ToI32(x), ToI32(y);
    Low32OfWord(a * b);
    SignExtendLow(p * q);
    var m := p * k + j * q + j * k * TWO32;
    Expand(p, j, q, k, TWO32);
    Low32Congruent(a * b, p * q, m);
  }

  lemma Expand(p: int, j: int, q: int, k: int, t: int)
    ensures (p + j * t) * (q + k * t) == p * q + (p * k + j * q + j * k * t) * t
  {
  }

  /** Multiplying by the same factor keeps low halves equal. */
  lemma ScaledAgrees(a: Word, x: Word, p: nat)
    requires Low32(a) == Low32(x)
    ensures Low32((a * p) % TWO64) == Low32(SignExtend32(ToI32(x) * p))
  {
    hide Low32, ToI32, SignExtend32;
    var k := LowDifference(a, x);
    Low32OfWord(a * p);
    SignExtendLow(ToI32(x) * p);
    Distribute(ToI32(x), k, p, TWO32);
    Low32Congruent(a * p, ToI32(x) * p, k * p);
  }

  lemma SameCount(b: Word, y: Word)
    requires Low32(b) == Low32(y) && y % 64 < 32
    ensures b % 64 == y % 32
  {
    hide Low32;
    LowCount(b);
    LowCount(y);
    DivUnique(y, 32, 2 * (y / 64), y % 64);
  }

  /** With bit 5 of the count clear, `shl` agrees too. */
  lemma ShlTame(a: Word, b: Word, x: Word, y: Word)
    requires Low32(a) == Low32(x) && Low32(b) == Low32(y) && y % 64 < 32
    ensures Low32(ShiftResult(Shl, a, b)) == Low32(I32Shift(Shl, x, y))
  {
    hide Low32, ToI32, Pow2, SignExtend32;
    SameCount(b, y);
    ScaledAgrees(a, x, Pow2(y % 32));
  }

  /** A shift count depends on the low half only. */
  lemma LowCount(b: Word)
    ensures b % 64 == Low32(b) % 64
  {
    assert b == Low32(b) + ((b / TWO32) * 0x400_0000) * 64;
    ModShift(Low32(b), (b / TWO32) * 0x400_0000, 64);
  }

  lemma Distribute(x: int, k: int, p: int, t: int)
    ensures (x + k * t) * p == x * p + (k * p) * t
  {
  }

  lemma DivShift(p: int, m: int, d: int)
    requires d > 0
    ensures (p + m * d) / d == p / d + m
  {
    var q, r := p / d, p % d;
    assert p + m * d == (q + m) * d + r;
    ModUnique(p + m * d, d, q + m, r);
    assert ((p + m * d) / d) * d == (q + m) * d;
    CancelFactor((p + m * d) / d, q + m, d);
  }

  lemma CancelFactor(x: int, y: int, d: int)
    requires d > 0 && x * d == y * d
    ensures x == y
  {
    MulBounds(x - y, d);
    assert (x - y) * d == 0;
  }

  /** Adding `k` weights of size `e` is invisible modulo `d * e` exactly when `d` divides `k`. */
  lemma ShiftMod(q: int, k: int, d: int, e: int)
    requires d > 0 && e > 0
    ensures d * e > 0 && ((q + k * e) % (d * e) == q % (d * e) <==> k % d == 0)
  {
    var t := d * e;
    MulBounds(d, e);
    if k % d == 0 {
      var m := k / d;
      assert k * e == m * t by { Reassociate(m, d, e); }
      ModShift(q, m, t);
    }
    if (q + k * e) % t == q % t {
      var m := (q + k * e) / t - q / t;
      assert m * t == (q + k * e) / t * t - q / t * t;
      assert k * e == m * t;
      Reassociate(m, d, e);
      CancelFactor(k, m * d, e);
      ModUnique(k, d, m, 0);
    }
  }

  lemma Reassociate(m: int, d: int, e: int)
    ensures (m * d) * e == m * (d * e)
  {
  }

  /** Shifting right by `c < 32` brings the low `c` bits of the upper part into the low half; they must
      all be zero for the low half to be what shifting it alone gives. */
  lemma RightShiftAgrees(v: int, p: int, k: int, c: nat)
    requires v == p + k * TWO32 && c < 32
    ensures Low32(v / Pow2(c)) == Low32(p / Pow2(c)) <==> k % Pow2(c) == 0
  {
    Pow2Add(c, 32 - c);
    Pow2Values();
    hide Pow2;
    RightShiftParts(v, p, k, Pow2(c), Pow2(32 - c), TWO32);
  }

  lemma RightShiftParts(v: int, p: int, k: int, d: int, e: int, t: int)
    requires d > 0 && e > 0 && d * e == t && v == p + k * t
    ensures t > 0 && ((v / d) % t == (p / d) % t <==> k % d == 0)
  {
    assert (k * e) * d == k * t by { Reassociate(k, e, d); assert e * d == d * e; }
    DivShift(p, k * e, d);
    ShiftMod(p / d, k, d, e);
  }

  /** `shl`: agreement exactly when bit 5 of the count is clear, or nothing is left to see. */
  lemma ShlAgrees(a: Word, b: Word, x: Word, y: Word)
    requires Low32(a) == Low32(x) && Low32(b) == Low32(y)
    ensures Low32(ShiftResult(Shl, a, b)) == Low32(I32Shift(Shl, x, y))
            <==> y % 64 < 32 || Low32(x * Pow2(y % 32)) == 0
  {
    if y % 64 < 32 {
      ShlTame(a, b, x, y);
    } else {
      SplitCount(b, y);
      var p := Pow2(y % 32);
      ShlWide(a, p);
      ShlNarrow(x, p);
    }
  }

  lemma ShlWide(a: Word, p: nat)
    ensures Low32((a * (TWO32 * p)) % TWO64) == 0
  {
    Low32OfWord(a * (TWO32 * p));
    assert a * (TWO32 * p) == 0 + (a * p) * TWO32 by { Reassociate(a, p, TWO32); }
    ModShift(0, a * p, TWO32);
  }

  lemma ShlNarrow(x: Word, p: nat)
    ensures Low32(SignExtend32(ToI32(x) * p)) == Low32(x * p)
  {
    var k := SignedLow(x);
    SignExtendLow(ToI32(x) * p);
    Distribute(x, k, p, TWO32);
    Low32Congruent(ToI32(x) * p, x * p, k * p);
  }

  lemma SplitCount(b: Word, y: Word)
    requires Low32(b) == Low32(y)
    ensures b % 64 == y % 64
    ensures y % 64 < 32 ==> Pow2(b % 64) == Pow2(y % 32)
    ensures y % 64 >= 32 ==> Pow2(b % 64) == TWO32 * Pow2(y % 32)
  {
    LowCount(b);
    LowCount(y);
    hide Low32, Pow2;
    if y % 64 < 32 {
      DivUnique(y, 32, 2 * (y / 64), y % 64);
    } else {
      DivUnique(y, 32, 2 * (y / 64) + 1, y % 64 - 32);
      Pow2Add(32, y % 32);
      Pow2Values();
    }
  }

  lemma DivDiv(v: int, d: int, e: int)
    requires d > 0 && e > 0
    ensures d * e > 0 && v / (d * e) == (v / d) / e
  {
    var q, r := v / d, v % d;
    var q', r' := q / e, q % e;
    MulBounds(e, d);
    MulBounds(e - r', d);
    assert (e - r') * d == e * d - r' * d;
    assert e * d == d * e;
    assert 0 <= r' * d;
    assert v == q' * (d * e) + (r' * d + r) by {
      assert (q' * e) * d == q' * (d * e);
      assert (q' * e + r') * d == (q' * e) * d + r' * d;
    }
    ModUnique(v, d * e, q', r' * d + r);
    CancelFactor(v / (d * e), q', d * e);
  }

  lemma SmallLow32(w: int)
    requires 0 <= w < TWO32
    ensures Low32(w) == w
  {
  }

  /** `shr_u`: with a count below 32 the machine word must carry nothing into the low half; from 32 on, the
      upper half is shifted in place of the lower one. */
  lemma ShrAgrees(a: Word, b: Word, x: Word, y: Word)
    requires Low32(a) == Low32(x) && Low32(b) == Low32(y)
    ensures Low32(ShiftResult(Shr, a, b)) == Low32(I32Shift(Shr, x, y))
            <==> (if y % 64 < 32 then (a / TWO32) % Pow2(y % 32) == 0
                  else (a / TWO32) / Pow2(y % 32) == Low32(a) / Pow2(y % 32))
  {
    SplitCount(b, y);
    var p := Pow2(y % 32);
    if y % 64 < 32 {
      RightShiftAgrees(a, Low32(a), a / TWO32, y % 32);
    } else {
      DivDiv(a, TWO32, p);
      DivBound(a / TWO32, p);
      DivBound(Low32(a), p);
      SmallLow32((a / TWO32) / p);
      SmallLow32(Low32(a) / p);
    }
  }

  function Signed64(a: Word): int {
    if a < TWO63 then a else a - TWO64
  }

  lemma SignedSplit(a: Word, x: Word) returns (k: int)
    requires Low32(a) == Low32(x)
    ensures Signed64(a) == ToI32(x) + k * TWO32
    ensures (Signed64(a) - ToI32(x)) / TWO32 == k
  {
    var j := LowDifference(a, x);
    k := if a < TWO63 then j else j - TWO32;
  }

  lemma ArithmeticHalf(v: int, p: int)
    requires p > 0 && -TWO31 <= v < TWO31
    ensures -TWO31 <= v / p < TWO31
  {
    if v >= 0 {
      DivBound(v, p);
    } else {
      MulBounds(p, -v);
      assert v * p <= v;
      var q := v / p;
      MulBounds(v - q, p);
      assert (v - q) * p == v * p - q * p;
    }
  }

  lemma Low32Injective(u: int, v: int)
    requires -TWO31 <= u < TWO31 && -TWO31 <= v < TWO31
    ensures Low32(u) == Low32(v) <==> u == v
  {
  }

  /** `shr_s`: likewise, with the signed upper part. */
  lemma SarAgrees(a: Word, b: Word, x: Word, y: Word)
    requires Low32(a) == Low32(x) && Low32(b) == Low32(y)
    ensures Low32(ShiftResult(Sar, a, b)) == Low32(I32Shift(Sar, x, y))
            <==> (if y % 64 < 32 then ((Signed64(a) - ToI32(x)) / TWO32) % Pow2(y % 32) == 0
                  else (Signed64(a) / TWO32) / Pow2(y % 32) == ToI32(x) / Pow2(y % 32))
  {
    SplitCount(b, y);
    var p := Pow2(y % 32);
    var v := Signed64(a);
    var k := SignedSplit(a, x);
    SignExtendLow(ToI32(x) / p);
    if y % 64 < 32 {
      Low32OfWord(v / p);
      RightShiftAgrees(v, ToI32(x), k, y % 32);
    } else {
      Low32OfWord((v / TWO32) / p);
      DivDiv(v, TWO32, p);
      ArithmeticHalf(v / TWO32, p);
      ArithmeticHalf(ToI32(x), p);
      Low32Injective((v / TWO32) / p, ToI32(x) / p);
    }
  }

  /** -1 >> 1 unsigned: the machine keeps the sign bits, the interpreter does not. */
  lemma ShrDiffers()
    ensures Low32(ShiftResult(Shr, ToWord(-1), 1)) == 0xFFFF_FFFF
    ensures Low32(I32Shift(Shr, ToWord(-1), 1)) == 0x7FFF_FFFF
  {
    hide Pow2;
    NoShift();
    assert ToWord(-1) == 0xFFFF_FFFF_FFFF_FFFF;
    assert ShiftResult(Shr, ToWord(-1), 1) == 0x7FFF_FFFF_FFFF_FFFF;
    assert I32Shift(Shr, ToWord(-1), 1) == 0x7FFF_FFFF;
  }

  /** 0x7FFFFFFF + 1: the machine's sum is positive, the interpreter's is negative. */
  lemma SumSigns()
    ensures AluResult(Add, 0x7FFF_FFFF, 1) == 0x8000_0000
    ensures I32Binary(Add, 0x7FFF_FFFF, 1) == 0xFFFF_FFFF_8000_0000
  {
    assert ToI32(0x8000_0000) == -0x8000_0000;
  }

  /** Shifting those sums right by one, with sign, gives different low halves. */
  lemma SarDiffers()
    ensures Low32(ShiftResult(Sar, 0x8000_0000, 1)) != Low32(I32Shift(Sar, 0xFFFF_FFFF_8000_0000, 1))
  {
    hide Pow2;
    NoShift();
    assert ShiftResult(Sar, 0x8000_0000, 1) == 0x4000_0000;
    assert ToI32(0xFFFF_FFFF_8000_0000) == -0x8000_0000;
    assert I32Shift(Sar, 0xFFFF_FFFF_8000_0000, 1) == SignExtend32(-0x4000_0000);
    assert ToI32(-0x4000_0000) == -0x4000_0000;
  }

  /** 1 << 32: the machine shifts by 32, the interpreter by 0. */
  lemma ShlDiffers()
    ensures Low32(ShiftResult(Shl, 1, 32)) == 0 && Low32(I32Shift(Shl, 1, 32)) == 1
  {
    hide Pow2;
    Pow2Values();
    assert Pow2(0) == 1 by { NoShift(); }
    assert ShiftResult(Shl, 1, 32) == TWO32;
    assert ToI32(1) == 1 && I32Shift(Shl, 1, 32) == SignExtend32(1);
  }

  lemma NoShift()
    ensures Pow2(0) == 1 && Pow2(1) == 2
  {
  }
}
