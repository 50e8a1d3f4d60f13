/** Machine arithmetic: powers of two, wrap-around and sign extension. */
module Arith {

  function Pow2(n: nat): (p: nat)
    ensures p >= 1
  {
    if n == 0 then 1 else 2 * Pow2(n - 1)
  }

  lemma {:induction false} Pow2Add(a: nat, b: nat)
    ensures Pow2(a + b) == Pow2(a) * Pow2(b)
  {
    if b == 0 {
    } else {
      Pow2Add(a, b - 1);
      assert Pow2(a + b) == 2 * (Pow2(a) * Pow2(b - 1));
    }
  }

  lemma {:induction false} Pow2Monotone(a: nat, b: nat)
    requires a <= b
    ensures Pow2(a) <= Pow2(b)
  {
    if a == b {
    } else {
      Pow2Monotone(a, b - 1);
    }
  }

  /** Powers the decoders name by value. */
  lemma Pow2Constants()
    ensures Pow2(8) == 0x100 && Pow2(16) == 0x1_0000 && Pow2(17) == 0x2_0000
    ensures Pow2(24) == 0x100_0000 && Pow2(32) == 0x1_0000_0000
  {
    assert Pow2(8) == 0x100;
    Pow2Add(8, 8);
    Pow2Add(16, 8);
    Pow2Add(16, 16);
  }

  /** The representative of v modulo m in [-m/2, m/2). */
  function Wrap(v: int, m: int): int
    requires m > 0
  {
    (v + m / 2) % m - m / 2
  }

  function Wrap16(v: int): int {
    Wrap(v, 0x1_0000)
  }

  function Wrap32(v: int): int {
    Wrap(v, 0x1_0000_0000)
  }

  predicate FitsInt32(v: int) {
    -0x8000_0000 <= v < 0x8000_0000
  }

  /** Sign extension of the low `bits` bits of v. */
  function SignExtend(v: int, bits: nat): int {
    Wrap(v, Pow2(bits))
  }

  predicate InSigned(v: int, bits: nat) {
    -(Pow2(bits) / 2) <= v < Pow2(bits) - Pow2(bits) / 2
  }

  lemma MulMonotone(a: int, b: int, m: int)
    requires a <= b && 0 <= m
    ensures a * m <= b * m
  {
    assert 0 <= (b - a) * m;
  }

  lemma DivMod(v: nat, m: int)
    requires m > 0
    ensures v / m >= 0 && 0 <= v % m < m && v == (v / m) * m + v % m
  {
  }

  lemma ModUnique(x: int, m: int, q: int, r: int)
    requires m > 0 && 0 <= r < m && x == q * m + r
    ensures x / m == q && x % m == r
  {
    var q', r' := x / m, x % m;
    assert x == m * q' + r';
    assert (q - q') * m == r' - r;
    if q > q' {
      MulMonotone(1, q - q', m);
    } else if q < q' {
      MulMonotone(q - q', -1, m);
    }
  }

  lemma ModShift(a: int, k: int, m: int)
    requires m > 0
    ensures (a + k * m) % m == a % m
  {
    var q := a / m;
    assert a + k * m == (q + k) * m + a % m;
    ModUnique(a + k * m, m, q + k, a % m);
  }

  /** Reducing modulo a multiple first does not change the remainder. */
  lemma ModOfMultiple(x: int, m: int, f: int)
    requires m > 0 && f > 0
    ensures m * f > 0 && x % (m * f) % m == x % m
  {
    MulMonotone(1, f, m);
    var k, r := x / (m * f), x % (m * f);
    Regroup(k, m, f);
    assert x == r + (k * f) * m;
    ModShift(r, k * f, m);
  }

  lemma Regroup(k: int, m: int, f: int)
    ensures k * (m * f) == (k * f) * m
  {
  }

  /** Wrapping moves a value by a multiple of the modulus. */
  lemma WrapShift(v: int, m: int) returns (k: int)
    requires m > 0
    ensures Wrap(v, m) == v + k * m
  {
    k := -((v + m / 2) / m);
    assert v + m / 2 == m * ((v + m / 2) / m) + (v + m / 2) % m;
  }

  /** Wrapping lands in the signed range, so its result is the only value there that differs from v by a multiple
      of the modulus. */
  lemma WrapRange(v: int, m: int)
    requires m > 0
    ensures -(m / 2) <= Wrap(v, m) < m - m / 2
  {
  }

  /** Wrapping one operand of a sum first does not change the wrapped sum. */
  lemma WrapAbsorbs(a: int, b: int, m: int)
    requires m > 0
    ensures Wrap(a + Wrap(b, m), m) == Wrap(a + b, m)
  {
    var k := WrapShift(b, m);
    ModShift(a + b + m / 2, k, m);
  }

  lemma WrapIdentity(v: int, m: int)
    requires m > 0 && -(m / 2) <= v < m - m / 2
    ensures Wrap(v, m) == v
  {
    ModUnique(v + m / 2, m, 0, v + m / 2);
  }

  /** A difference wrapped and added back restores any in-range value. */
  lemma WrapInverse(p: int, x: int, m: int)
    requires m > 0 && -(m / 2) <= x < m - m / 2
    ensures Wrap(p + Wrap(x - p, m), m) == x
  {
    WrapAbsorbs(p, x - p, m);
    WrapIdentity(x, m);
  }

  /** Wrapping at a multiple of the modulus first is invisible. */
  lemma WrapCoarser(v: int, m: int, f: int)
    requires m > 0 && f > 0
    ensures Wrap(Wrap(v, m * f), m) == Wrap(v, m)
  {
    assert m * f > 0;
    var k := WrapShift(v, m * f);
    assert k * (m * f) == (k * f) * m;
    ModShift(v + m / 2, k * f, m);
  }

  /** Sign extension reads only the low bits, so 32-bit wrap-around before it is invisible. */
  lemma SignExtendOfWrap32(v: int, bits: nat)
    requires bits <= 32
    ensures SignExtend(Wrap32(v), bits) == SignExtend(v, bits)
  {
    Pow2Constants();
    Pow2Add(bits, 32 - bits);
    WrapCoarser(v, Pow2(bits), Pow2(32 - bits));
  }
}
