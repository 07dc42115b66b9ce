/** Machine integers of the kernel, written out over unbounded `int`.

    A 64-bit value (Rust `u64`, or the bit pattern of an `i64`) is a `Word`; truncation and
    wrap-around are explicit `%` operations, and the bitwise operators are defined bit by bit. */
module Words {

  type byte = x: int | 0 <= x < 256
  type u32 = x: int | 0 <= x < 0x1_0000_0000
  type Word = x: int | 0 <= x < 0x1_0000_0000_0000_0000

  const TWO31: int := 0x8000_0000
  const TWO32: int := 0x1_0000_0000
  const TWO63: int := 0x8000_0000_0000_0000
  const TWO64: int := 0x1_0000_0000_0000_0000

  datatype Option<+T> = None | Some(value: T)

  function Min(a: int, b: int): int {
    if a <= b then a else b
  }

  function Pow2(n: nat): (p: nat)
    ensures p > 0
  {
    if n == 0 then 1 else 2 * Pow2(n - 1)
  }

  /** `w as u32`. */
  function Low32(w: int): (r: u32) {
    w % TWO32
  }

  /** `w as i32`, the signed reading of the low half. */
  function ToI32(w: int): int {
    var u := w % TWO32;
    if u < TWO31 then u else u - TWO32
  }

  /** `x as i64 as u64` for a signed value `x`: two's complement in 64 bits. */
  function ToWord(x: int): Word {
    x % TWO64
  }

  /** `(w as i32) as i64 as u64`: what the interpreter pushes after a 32-bit operation. */
  function SignExtend32(w: int): Word {
    ToWord(ToI32(w))
  }

  // ---- modular arithmetic -------------------------------------------------------------

  lemma ModUnique(x: int, m: int, q: int, r: int)
    requires m > 0 && 0 <= r < m && x == q * m + r
    ensures x % m == r
  {
    var q', r' := x / m, x % m;
    assert x == q' * m + r';
    MulBounds(q - q', m);
    assert (q - q') * m == q * m - q' * m;
  }

  lemma DivUnique(x: int, m: int, q: int, r: int)
    requires m > 0 && 0 <= r < m && x == q * m + r
    ensures x / m == q && x % m == r
  {
    ModUnique(x, m, q, r);
    MulBounds(x / m - q, m);
    assert (x / m - q) * m == x / m * m - q * m;
  }

  lemma MulBounds(d: int, m: int)
    requires m > 0
    ensures d >= 1 ==> d * m >= m
    ensures d <= -1 ==> d * m <= -m
  {
    if d >= 1 { assert (d - 1) * m >= 0; }
    if d <= -1 { assert (-d - 1) * m >= 0; }
  }

  /** Adding a multiple of the modulus changes nothing. */
  lemma ModShift(x: int, k: int, m: int)
    requires m > 0
    ensures (x + k * m) % m == x % m
  {
    assert x + k * m == (x / m + k) * m + x % m;
    ModUnique(x + k * m, m, x / m + k, x % m);
  }

  /** Reducing modulo 2^64 first does not disturb the low 32 bits. */
  lemma Low32OfWord(x: int)
    ensures Low32(x % TWO64) == Low32(x)
  {
    var q := x / TWO64;
    assert x == (x % TWO64) + (q * TWO32) * TWO32;
    ModShift(x % TWO64, q * TWO32, TWO32);
  }

  lemma Low32Congruent(x: int, y: int, k: int)
    requires x == y + k * TWO32
    ensures Low32(x) == Low32(y)
  {
    ModShift(y, k, TWO32);
  }

  lemma SignExtendLow(w: int)
    ensures Low32(SignExtend32(w)) == Low32(w)
  {
    Low32OfWord(ToI32(w));
    var u := w % TWO32;
    assert ToI32(w) == u || ToI32(w) == u + (-1) * TWO32;
    ModShift(u, -1, TWO32);
  }

  // ---- bitwise operators --------------------------------------------------------------

  datatype BitOp = BitAnd | BitOr | BitXor

  function BitOf(op: BitOp, x: int, y: int): int
    requires 0 <= x < 2 && 0 <= y < 2
    ensures 0 <= BitOf(op, x, y) < 2
  {
    match op
    case BitAnd => x * y
    case BitOr => x + y - x * y
    case BitXor => if x == y then 0 else 1
  }

  /** The `n`-bit result of `op` on the low `n` bits of `a` and `b`. */
  function Bitwise(op: BitOp, a: nat, b: nat, n: nat): (r: nat)
    ensures r < Pow2(n)
  {
    if n == 0 then 0
    else BitOf(op, a % 2, b % 2) + 2 * Bitwise(op, a / 2, b / 2, n - 1)
  }

  lemma HalfMod(x: nat, p: nat)
    requires p > 0
    ensures (x % (2 * p)) % 2 == x % 2
    ensures (x % (2 * p)) / 2 == (x / 2) % p
  {
    var q, r := x / 2, x % 2;
    var q1, r1 := q / p, q % p;
    assert x == 2 * q + r && q == q1 * p + r1;
    assert x == q1 * (2 * p) + (2 * r1 + r) by {
      assert 2 * (q1 * p) == q1 * (2 * p);
    }
    ModUnique(x, 2 * p, q1, 2 * r1 + r);
  }

  /** A bit below a number, modulo twice a modulus. */
  lemma DoubleMod(x: nat, w: nat, p: nat)
    requires p > 0 && x <= 1
    ensures (x + 2 * w) % (2 * p) == x + 2 * (w % p)
  {
    HalfMod(x + 2 * w, p);
    var m := (x + 2 * w) % (2 * p);
    assert m == 2 * (m / 2) + m % 2 && (x + 2 * w) / 2 == w;
  }

  lemma BitOfBit(op: BitOp, x: nat, y: nat)
    requires x <= 1 && y <= 1
    ensures 0 <= BitOf(op, x, y) <= 1
  {
  }

  /** The low `k` bits of a bitwise result depend on the low `k` bits of its operands only. */
  lemma {:induction false} BitwiseLow(op: BitOp, a: nat, b: nat, n: nat, k: nat)
    requires k <= n
    ensures Bitwise(op, a, b, n) % Pow2(k) == Bitwise(op, a % Pow2(k), b % Pow2(k), k)
  {
    if k > 0 {
      var p := Pow2(k - 1);
      BitwiseLow(op, a / 2, b / 2, n - 1, k - 1);
      HalfMod(a, p);
      HalfMod(b, p);
      hide BitOf;
      BitOfBit(op, a % 2, b % 2);
      DoubleMod(BitOf(op, a % 2, b % 2), Bitwise(op, a / 2, b / 2, n - 1), p);
    }
  }

  lemma Pow2Values()
    ensures Pow2(7) == 128 && Pow2(14) == 16384 && Pow2(21) == 2097152 && Pow2(28) == 268435456
    ensures Pow2(32) == TWO32 && Pow2(64) == TWO64
  {
    assert Pow2(8) == 256;
    assert Pow2(16) == 65536 by { Pow2Add(8, 8); }
    Pow2Add(16, 16);
    Pow2Add(32, 32);
    Pow2Add(7, 7);
    Pow2Add(14, 7);
    Pow2Add(14, 14);
  }

  lemma DoubleProduct(x: nat, y: nat)
    ensures 2 * (x * y) == (2 * x) * y
  {
  }

  lemma {:induction false} Pow2Add(a: nat, b: nat)
    ensures Pow2(a + b) == Pow2(a) * Pow2(b)
  {
    if a > 0 {
      Pow2Add(a - 1, b);
      DoubleProduct(Pow2(a - 1), Pow2(b));
      assert Pow2(a) == 2 * Pow2(a - 1) && Pow2(a + b) == 2 * Pow2(a - 1 + b);
      hide Pow2;
    }
  }

  /** 64-bit bitwise operations agree with the 32-bit ones on the low half. */
  lemma BitwiseLow32(op: BitOp, a: Word, b: Word)
    ensures 0 <= Bitwise(op, a, b, 64) < TWO64
    ensures Low32(Bitwise(op, a, b, 64)) == Bitwise(op, Low32(a), Low32(b), 32)
  {
    Pow2Values();
    BitwiseLow(op, a, b, 64, 32);
  }
}
