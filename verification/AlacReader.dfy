/** Arithmetic of the decoder's bit reader: three bytes, shifted and masked, are a bit window. */
module AlacReader {
  import opened Arith
  import opened BitStream

  /** Three neighbouring bytes as one big-endian number. */
  function Word24(buf: seq<byte>, p: nat): nat
    requires p + 2 < |buf|
  {
    var hi: int, mid: int, lo: int := buf[p], buf[p + 1], buf[p + 2];
    hi * 0x1_0000 + mid * 0x100 + lo
  }

  lemma Thirds(s: seq<bool>, a: nat)
    requires a + 24 <= |s|
    ensures s[a..a + 24] == s[a..a + 8] + s[a + 8..a + 16] + s[a + 16..a + 24]
  {
  }

  lemma ValOfThree(x: seq<bool>, y: seq<bool>, z: seq<bool>)
    requires |x| == |y| == |z| == 8
    ensures Val(x + y + z) == Val(x) * 0x1_0000 + Val(y) * 0x100 + Val(z)
  {
    Pow2Constants();
    hide *;
    ValAppend(x, y);
    ValAppend(x + y, z);
  }

  lemma ThreeBytes(buf: seq<byte>, p: nat)
    requires p + 2 < |buf|
    ensures Val(BitsOf(buf)[8 * p..8 * p + 24]) == Word24(buf, p)
  {
    hide BitsOf, ToBits, Val, Pow2;
    Thirds(BitsOf(buf), 8 * p);
    OneByte(buf, p);
    OneByte(buf, p + 1);
    OneByte(buf, p + 2);
    ValOfThree(ToBits(buf[p], 8), ToBits(buf[p + 1], 8), ToBits(buf[p + 2], 8));
  }

  lemma ByteAt(buf: seq<byte>, q: nat, r: nat)
    requires q < |buf| && r < 8
    ensures BitsOf(buf)[8 * q + r] == ToBits(buf[q], 8)[r]
  {
    ModUnique(8 * q + r, 8, q, r);
  }

  lemma OneByte(buf: seq<byte>, p: nat)
    requires p < |buf|
    ensures BitsOf(buf)[8 * p..8 * p + 8] == ToBits(buf[p], 8)
    ensures Val(ToBits(buf[p], 8)) == buf[p]
  {
    forall i | 0 <= i < 8
      ensures BitsOf(buf)[8 * p..8 * p + 8][i] == ToBits(buf[p], 8)[i]
    {
      ByteAt(buf, p, i);
    }
    Pow2Constants();
    ValToBits(buf[p], 8);
  }

  /** Shifting left by `skip`, keeping the low |w| bits and shifting right leaves `bits` bits from
      `skip` on. */
  lemma Window(w: seq<bool>, skip: nat, bits: nat)
    requires skip + bits <= |w|
    ensures (Val(w) * Pow2(skip)) % Pow2(|w|) / Pow2(|w| - bits) == Val(w[skip..skip + bits])
  {
    var x, y, z := w[..skip], w[skip..skip + bits], w[skip + bits..];
    var u := w[skip..];
    assert w == x + u && u == y + z;
    ValAppend(x, u);
    ValAppend(y, z);
    Pow2Add(|u|, skip);
    Pow2Add(|z|, skip);
    WindowArith(Val(w), Val(x), Val(u), Val(y), Val(z), Pow2(|u|), Pow2(skip), Pow2(|z|));
  }

  lemma WindowArith(w: nat, x: nat, u: nat, y: nat, z: nat, pu: nat, ps: nat, pz: nat)
    requires w == x * pu + u && u == y * pz + z && u < pu && z < pz && ps > 0
    ensures pu * ps > 0 && pz * ps > 0
    ensures (w * ps) % (pu * ps) / (pz * ps) == y
  {
    ProductBelow(u, pu, ps);
    ProductBelow(z, pz, ps);
    Distribute(x, pu, u, ps);
    ModUnique(w * ps, pu * ps, x, u * ps);
    Distribute(y, pz, z, ps);
    ModUnique(u * ps, pz * ps, y, z * ps);
  }

  lemma ProductBelow(a: nat, b: nat, c: nat)
    requires a < b && c > 0
    ensures 0 <= a * c < b * c
  {
    MulMonotone(a + 1, b, c);
    MulMonotone(0, a, c);
  }

  /** What a 16-bit read computes is the value of the bits at its position. */
  lemma Read16Value(buf: seq<byte>, ptr: nat, skip: nat, bits: nat)
    requires ptr + 2 < |buf| && skip < 8 && bits <= 16
    ensures Word24(buf, ptr) * Pow2(skip) % Pow2(24) / Pow2(24 - bits)
            == Val(BitsOf(buf)[8 * ptr + skip..][..bits])
  {
    hide Word24, Val, Pow2;
    var w := BitsOf(buf)[8 * ptr..8 * ptr + 24];
    ThreeBytes(buf, ptr);
    hide BitsOf;
    Window(w, skip, bits);
    assert w[skip..skip + bits] == BitsOf(buf)[8 * ptr + skip..][..bits];
  }

  /** Bit r of a byte, as a shift by r and a test of the top bit find it. */
  lemma ReadBitValue(buf: seq<byte>, ptr: nat, r: nat)
    requires ptr < |buf| && r < 8
    ensures var v: int := buf[ptr]; (v * Pow2(r) / 128 % 2 == 1) == BitsOf(buf)[8 * ptr + r]
  {
    var s := ToBits(buf[ptr], 8);
    OneByte(buf, ptr);
    ByteAt(buf, ptr, r);
    var p, z := s[..r + 1], s[r + 1..];
    assert s == p + z && p[..|p| - 1] == s[..r];
    ValAppend(p, z);
    Pow2Add(|z|, r);
    assert Pow2(7) == 128;
    TopBit(buf[ptr], Val(p), Val(z), Pow2(|z|), Pow2(r), Val(s[..r]), s[r]);
  }

  lemma TopBit(v: int, p: nat, z: nat, pz: nat, pr: nat, q: nat, b: bool)
    requires v == p * pz + z && z < pz && pz * pr == 128 && pr > 0 && p == 2 * q + Bit(b)
    ensures (v * pr / 128 % 2 == 1) == b
  {
    ProductBelow(z, pz, pr);
    Distribute(p, pz, z, pr);
    ModUnique(v * pr, 128, p, z * pr);
    ModUnique(p, 2, q, Bit(b));
  }

  lemma Distribute(a: int, b: int, c: int, d: int)
    ensures (a * b + c) * d == a * (b * d) + c * d
  {
  }

  /** A long read is a 16-bit read and a read of what is left. */
  lemma SplitRead(s: seq<bool>, bits: nat)
    requires 16 < bits <= |s|
    ensures Val(s[..bits]) == Val(s[..16]) * Pow2(bits - 16) + Val(s[16..][..bits - 16])
    ensures s[16..][bits - 16..] == s[bits..]
  {
    assert s[..bits] == s[..16] + s[16..][..bits - 16];
    ValAppend(s[..16], s[16..][..bits - 16]);
  }
}
