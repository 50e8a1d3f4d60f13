/** Bit strings, their big-endian value, and the abstract reading step the decoder's
    bit reader refines. */
module BitStream {
  import opened Wrappers
  import opened Arith

  type byte = b: int | 0 <= b < 256

  function Bit(b: bool): nat {
    if b then 1 else 0
  }

  /** Big-endian value of a bit string. */
  function Val(s: seq<bool>): (v: nat)
    ensures v < Pow2(|s|)
  {
    if s == [] then 0 else 2 * Val(s[..|s| - 1]) + Bit(s[|s| - 1])
  }

  /** The low n bits of v, most significant first. */
  function ToBits(v: nat, n: nat): (s: seq<bool>)
    ensures |s| == n
  {
    if n == 0 then [] else ToBits(v / 2, n - 1) + [v % 2 == 1]
  }

  lemma {:induction false} ValToBits(v: nat, n: nat)
    requires v < Pow2(n)
    ensures Val(ToBits(v, n)) == v
  {
    if n == 0 {
    } else {
      assert Pow2(n) == 2 * Pow2(n - 1);
      assert ToBits(v, n) == ToBits(v / 2, n - 1) + [v % 2 == 1];
      hide Pow2, Val, ToBits;
      ValToBits(v / 2, n - 1);
      ValSnoc(ToBits(v / 2, n - 1), v % 2 == 1);
    }
  }

  lemma ValSnoc(s: seq<bool>, b: bool)
    ensures Val(s + [b]) == 2 * Val(s) + Bit(b)
  {
    assert (s + [b])[..|s|] == s;
  }

  lemma AppendArith(ab: int, ad: int, x: int, p: int, y: int, b: int, pb: int, t: int)
    requires ab == 2 * ad + t && ad == x * p + y && b == 2 * y + t && pb == 2 * p
    ensures ab == x * pb + b
  {
    assert x * pb == 2 * (x * p);
  }

  lemma {:induction false} ValAppend(a: seq<bool>, b: seq<bool>)
    ensures Val(a + b) == Val(a) * Pow2(|b|) + Val(b)
  {
    if b == [] {
      assert a + b == a;
    } else {
      var d, t := b[..|b| - 1], b[|b| - 1];
      assert Pow2(|b|) == 2 * Pow2(|d|);
      assert a + b == (a + d) + [t] && b == d + [t];
      ValSnoc(a + d, t);
      ValSnoc(d, t);
      hide Val, Pow2, Bit;
      ValAppend(a, d);
      AppendArith(Val(a + b), Val(a + d), Val(a), Pow2(|d|), Val(d), Val(b), Pow2(|b|), Bit(t));
    }
  }

  function Repeat<T>(x: T, n: nat): (s: seq<T>)
    ensures |s| == n
    ensures forall i :: 0 <= i < n ==> s[i] == x
  {
    seq(n, _ => x)
  }

  lemma {:induction false} ValZeros(n: nat)
    ensures Val(Repeat(false, n)) == 0
  {
    if n == 0 {
    } else {
      var s := Repeat(false, n);
      assert s[..|s| - 1] == Repeat(false, n - 1);
      ValZeros(n - 1);
    }
  }

  lemma AppendAssoc<T>(a: seq<T>, b: seq<T>, c: seq<T>, d: seq<T>)
    ensures (a + b + c) + d == a + (b + (c + d))
    ensures (a + c) + d == a + (c + d)
  {
  }

  /** The bits of a byte buffer in stream order. */
  function BitsOf(buf: seq<byte>): (s: seq<bool>)
    ensures |s| == 8 * |buf|
  {
    seq(8 * |buf|, i requires 0 <= i < 8 * |buf| => ToBits(buf[i / 8], 8)[i % 8])
  }

  /** Reading n bits looks at three whole bytes per group of up to 16 bits, so it stays in
      the buffer exactly when more than 16 bits remain where the last group starts. */
  predicate InBounds(s: seq<bool>, n: nat) {
    |s| > if n <= 16 then 16 else 32
  }

  /** Reading n bits: their value and what remains; None where the buffer would be overrun. */
  function ReadBits(s: seq<bool>, n: nat): Option<(nat, seq<bool>)>
    requires n <= 32
  {
    if InBounds(s, n) then Some((Val(s[..n]), s[n..])) else None
  }

  /** What was written is what is read, given two bytes of slack behind the stream. */
  lemma ReadBack(v: nat, n: nat, rest: seq<bool>)
    requires 1 <= n <= 32 && v < Pow2(n) && |rest| >= 16
    ensures ReadBits(ToBits(v, n) + rest, n) == Some((v, rest))
  {
    var s := ToBits(v, n) + rest;
    assert s[..n] == ToBits(v, n) && s[n..] == rest;
    ValToBits(v, n);
  }

  /** The same for one field in front of the remaining fields. */
  lemma ReadField(v: nat, n: nat, tail: seq<bool>, rest: seq<bool>)
    requires 1 <= n <= 32 && v < Pow2(n) && |rest| >= 16
    ensures ReadBits(ToBits(v, n) + tail + rest, n) == Some((v, tail + rest))
  {
    assert ToBits(v, n) + tail + rest == ToBits(v, n) + (tail + rest);
    ReadBack(v, n, tail + rest);
  }
}
