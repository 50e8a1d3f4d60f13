/** The adaptive Rice coder of ALAC: what a bit string decodes to, the encoder it inverts, and
    the bounds of the running history that steers both. */
module AlacEntropy {
  import opened Wrappers
  import opened Arith
  import opened BitStream

  /** Longest prefix of ones that still stands for a Rice quotient. */
  const RICE_THRESHOLD := 8

  /** Bits of a stored zero-run length. */
  const RUN_BITS := 16

  /** Widest escaped sample. */
  const CHANNEL_WIDTH := 17

  /** The history never exceeds the fixed point of its update at the largest sample. */
  const MAX_HISTORY := 512 * 0xFFFF

  /** Per-channel settings: width of an escaped sample, cap on the Rice parameter, history
      multiplier. */
  datatype RiceParams = RiceParams(sampleBits: nat, kModifier: nat, multiplier: nat) {
    predicate Valid() {
      1 <= sampleBits <= CHANNEL_WIDTH && 1 <= kModifier <= 31 && multiplier <= 512
    }
  }

  predicate ValidHistory(h: int) {
    0 <= h <= MAX_HISTORY
  }

  // ----- adaptation -----

  function Log2(x: nat): (l: nat)
    requires x >= 1
    ensures Pow2(l) <= x < Pow2(l + 1)
  {
    if x == 1 then 0 else 1 + Log2(x / 2)
  }

  /** Leading zeros of a 32-bit word, 32 for the zero word. */
  function CountLeadingZeros(x: nat): int
    requires x < 0x8000_0000
  {
    if x == 0 then 32 else 31 - Log2(x)
  }

  lemma Log2Unique(x: nat, l: nat)
    requires 1 <= x && Pow2(l) <= x < Pow2(l + 1)
    ensures Log2(x) == l
  {
    if Log2(x) < l {
      Pow2Monotone(Log2(x) + 1, l);
    } else if l < Log2(x) {
      Pow2Monotone(l + 1, Log2(x));
    }
  }

  /** Rice parameter of the next sample. */
  function SampleParam(h: int, kModifier: nat): int
    requires ValidHistory(h)
  {
    var k := 31 - kModifier - CountLeadingZeros(h / 512 + 3);
    if k < 0 then k + kModifier else kModifier
  }

  /** Rice parameter of a zero-run length. */
  function RunParam(h: int): int
    requires 0 <= h < 128
  {
    CountLeadingZeros(h) + (h + 16) / 64 - 24
  }

  /** The zero-run parameter, history by history. */
  lemma RunParamExact(h: int)
    requires 0 <= h < 128
    ensures RunParam(h) ==
      if h == 0 then 8 else if h == 1 then 7 else if h <= 3 then 6 else if h <= 7 then 5 else if h <= 15 then 4
      else if h <= 31 then 3 else if h <= 47 then 2 else if h <= 63 then 3 else if h <= 111 then 2 else 3
  {
    if h >= 1 {
      var l := if h < 2 then 0 else if h < 4 then 1 else if h < 8 then 2 else if h < 16 then 3
               else if h < 32 then 4 else if h < 64 then 5 else 6;
      SmallPowers();
      hide Pow2;
      Log2Unique(h, l);
    }
  }

  lemma SmallPowers()
    ensures Pow2(0) == 1 && Pow2(1) == 2 && Pow2(2) == 4 && Pow2(3) == 8
    ensures Pow2(4) == 16 && Pow2(5) == 32 && Pow2(6) == 64 && Pow2(7) == 128
  {
    assert Pow2(3) == 8;
    assert Pow2(6) == 8 * Pow2(3) by {
      Pow2Add(3, 3);
    }
  }

  function Min(a: int, b: int): int {
    if a < b then a else b
  }

  /** The sample parameter is the capped logarithm of the scaled history, never zero and never
      wider than one 16-bit read. */
  lemma SampleParamMeaning(h: int, kModifier: nat)
    requires ValidHistory(h) && kModifier >= 1
    ensures SampleParam(h, kModifier) == Min(Log2(h / 512 + 3), kModifier)
    ensures 1 <= SampleParam(h, kModifier) <= 16
  {
    var x := h / 512 + 3;
    Pow2Constants();
    Pow2Monotone(Log2(x), 0 + Log2(x));
    if Log2(x) >= 17 {
      Pow2Monotone(17, Log2(x));
    }
  }

  lemma RunParamBounds(h: int)
    requires 0 <= h < 128
    ensures 2 <= RunParam(h) <= 8
  {
    RunParamExact(h);
  }

  /** The history after a sample whose folded value is d, in exact arithmetic. */
  function NextHistory(h: int, d: int, multiplier: nat): int {
    if d > 0xFFFF then 0xFFFF else h + d * multiplier - (h * multiplier) / 512
  }

  /** The history invariant holds for every multiplier a stream can name. */
  lemma NextHistoryBounded(h: int, d: nat, multiplier: nat)
    requires ValidHistory(h) && multiplier <= 512
    ensures ValidHistory(NextHistory(h, d, multiplier))
  {
    if d <= 0xFFFF {
      MulMonotone(d, 0xFFFF, multiplier);
      var u := MAX_HISTORY - h;
      assert h * multiplier == 512 * (0xFFFF * multiplier) - u * multiplier;
      MulMonotone(multiplier, 512, u);
      MulMonotone(multiplier, 512, h);
    }
  }

  /** A quiet or moderate sample moves the history towards 512 times its folded value: what was missing to it
      shrinks by multiplier / 512, rounded towards the old history. A louder one sets it. */
  lemma HistoryExactly(h: int, d: nat, multiplier: nat)
    ensures d <= 65535 ==>
      var missing, now := h - 512 * d, NextHistory(h, d, multiplier) - 512 * d;
      512 * (now - 1) < missing * (512 - multiplier) <= 512 * now
    ensures d > 65535 ==> NextHistory(h, d, multiplier) == 65535
  {
    if d <= 65535 {
      var t := h * multiplier / 512;
      assert 512 * t <= h * multiplier < 512 * (t + 1);
      assert (h - 512 * d) * (512 - multiplier) == 512 * h - h * multiplier - 512 * (512 * d) + 512 * (d * multiplier);
    }
  }

  // ----- one value -----

  /** Counts ones from x on until a zero or past the threshold. */
  function Ones(s: seq<bool>, x: nat): (r: Option<(nat, seq<bool>)>)
    requires x <= RICE_THRESHOLD + 1
    ensures r.Some? ==> x <= r.value.0 <= RICE_THRESHOLD + 1
    decreases |s|
  {
    if x > RICE_THRESHOLD then Some((x, s))
    else if s == [] then None
    else if s[0] then Ones(s[1..], x + 1)
    else Some((x, s[1..]))
  }

  /** (2^k - 1) & (2^maskBits - 1): what one step of the quotient is worth. */
  function Multiplier(k: nat, maskBits: nat): (m: nat)
    requires k >= 1 && maskBits >= 1
    ensures 1 <= m < Pow2(k)
  {
    var b := if k < maskBits then k else maskBits;
    Pow2Monotone(1, b);
    Pow2Monotone(b, k);
    if k == 1 then 1 else Pow2(b) - 1
  }

  /** The value at the front of s. After a quotient the code reads k bits, and gives the last
      one back when they say 0 or 1. */
  function DecodeValue(s: seq<bool>, width: nat, k: nat, maskBits: nat): (r: Option<(nat, seq<bool>)>)
    requires 1 <= width <= 32 && 1 <= k <= 16 && maskBits >= 1
  {
    var (x, s1) :- Ones(s, 0);
    if x > RICE_THRESHOLD then
      ReadBits(s1, width)
    else if k == 1 then
      Some((x, s1))
    else
      var (extra, s2) :- ReadBits(s1, k);
      MulMonotone(0, x, Multiplier(k, maskBits));
      if extra > 1 then Some((x * Multiplier(k, maskBits) + extra - 1, s2))
      else Some((x * Multiplier(k, maskBits), s1[k - 1..]))
  }

  /** A value bit by bit: at most eight ones and a zero, and k bits behind them. Each one counts for k ones, or
      maskBits if that is fewer, taken as a number. The k bits count for one less than they say, and when they
      say 0 or 1 the last of them is not taken. */
  lemma ShortExactly(q: nat, bits: seq<bool>, rest: seq<bool>, width: nat, k: nat, maskBits: nat)
    requires 1 <= width <= 32 && 2 <= k <= 16 && maskBits >= 1 && q <= 8 && |bits| == k && |rest| >= 16
    ensures var ones := Pow2(if k < maskBits then k else maskBits) - 1;
      q * ones >= 0
      && DecodeValue(Repeat(true, q) + [false] + (bits + rest), width, k, maskBits)
         == Some(if Val(bits) > 1 then (q * ones + (Val(bits) - 1), rest)
                 else (q * ones, [bits[k - 1]] + rest))
  {
    var s := bits + rest;
    OnesBack(q, 0, s);
    MulMonotone(0, q, Multiplier(k, maskBits));
    assert s[..k] == bits && s[k..] == rest && s[k - 1..] == [bits[k - 1]] + rest;
    hide Ones, Pow2, Val;
  }

  /** With parameter 1 the quotient is the value. */
  lemma UnaryExactly(q: nat, rest: seq<bool>, width: nat, maskBits: nat)
    requires 1 <= width <= 32 && maskBits >= 1 && q <= 8
    ensures DecodeValue(Repeat(true, q) + [false] + rest, width, 1, maskBits) == Some((q, rest))
  {
    OnesBack(q, 0, rest);
    hide Ones;
  }

  /** Nine ones, and the value as it is behind them. */
  lemma LongExactly(bits: seq<bool>, rest: seq<bool>, width: nat, k: nat, maskBits: nat)
    requires 1 <= width <= 32 && 1 <= k <= 16 && maskBits >= 1 && |bits| == width && |rest| >= 16
    ensures DecodeValue(Repeat(true, 9) + (bits + rest), width, k, maskBits) == Some((Val(bits), rest))
  {
    var s := bits + rest;
    EscapeBack(0, s);
    assert s[..width] == bits && s[width..] == rest;
    hide Ones, Val, Multiplier;
  }

  /** A decoded value is at most 8 * (2^16 - 1) + 2^16 - 2. */
  lemma DecodeValueBound(s: seq<bool>, width: nat, k: nat)
    requires 1 <= width <= CHANNEL_WIDTH && 1 <= k <= 16 && DecodeValue(s, width, k, 32).Some?
    ensures DecodeValue(s, width, k, 32).value.0 < 9 * 0xFFFF
  {
    Pow2Constants();
    Pow2Monotone(width, CHANNEL_WIDTH);
    Pow2Monotone(k, 16);
    var (x, s1) := Ones(s, 0).value;
    if x <= RICE_THRESHOLD {
      MulMonotone(x, RICE_THRESHOLD, Multiplier(k, 32));
    }
    hide Ones, Pow2, Multiplier;
  }

  lemma TermsFit(h: int, d: nat, multiplier: nat)
    requires ValidHistory(h) && d <= 9 * 0xFFFF && multiplier <= 512
    ensures FitsInt32(d * multiplier)
    ensures FitsInt32(d * multiplier - (h * multiplier) / 512)
    ensures FitsInt32(h + d * multiplier - (h * multiplier) / 512)
  {
    MulMonotone(0, d, multiplier);
    MulMonotone(d, 9 * 0xFFFF, multiplier);
    MulMonotone(multiplier, 512, h);
    MulMonotone(0, h, multiplier);
  }

  /** Besides the product of history and multiplier, no term of the history update can leave 32 bits,
      whatever the stream says. */
  lemma OtherTermsFit(s: seq<bool>, h: int, signModifier: nat, p: RiceParams)
    requires p.Valid() && ValidHistory(h) && signModifier <= 1
    requires 1 <= SampleParam(h, p.kModifier) <= 16
    requires DecodeValue(s, p.sampleBits, SampleParam(h, p.kModifier), 32).Some?
    ensures var d := DecodeValue(s, p.sampleBits, SampleParam(h, p.kModifier), 32).value.0 + signModifier;
      && FitsInt32(d * p.multiplier)
      && FitsInt32(d * p.multiplier - (h * p.multiplier) / 512)
      && FitsInt32(h + d * p.multiplier - (h * p.multiplier) / 512)
  {
    hide DecodeValue, SampleParam, FitsInt32, ValidHistory;
    DecodeValueBound(s, p.sampleBits, SampleParam(h, p.kModifier));
    var d := DecodeValue(s, p.sampleBits, SampleParam(h, p.kModifier), 32).value.0 + signModifier;
    TermsFit(h, d, p.multiplier);
  }

  /** The remainder part of a short code: k - 1 zeros stand for 0, e + 1 in k bits for e. */
  function Remainder(e: nat, k: nat): seq<bool>
    requires k >= 1
  {
    if k == 1 then [] else if e == 0 then Repeat(false, k - 1) else ToBits(e + 1, k)
  }

  function EncodeValue(v: nat, width: nat, k: nat, maskBits: nat): seq<bool>
    requires k >= 1 && maskBits >= 1
  {
    var m := Multiplier(k, maskBits);
    DivMod(v, m);
    if v / m > RICE_THRESHOLD then Repeat(true, RICE_THRESHOLD + 1) + ToBits(v, width)
    else Repeat(true, v / m) + [false] + Remainder(v % m, k)
  }

  lemma {:induction false} OnesBack(q: nat, x: nat, rest: seq<bool>)
    requires x + q <= RICE_THRESHOLD
    ensures Ones(Repeat(true, q) + [false] + rest, x) == Some((x + q, rest))
  {
    var s := Repeat(true, q) + [false] + rest;
    if q == 0 {
      assert s[1..] == rest;
    } else {
      assert s[1..] == Repeat(true, q - 1) + [false] + rest;
      OnesBack(q - 1, x + 1, rest);
    }
  }

  lemma {:induction false} EscapeBack(x: nat, rest: seq<bool>)
    requires x <= RICE_THRESHOLD + 1
    ensures Ones(Repeat(true, RICE_THRESHOLD + 1 - x) + rest, x) == Some((RICE_THRESHOLD + 1, rest))
    decreases RICE_THRESHOLD + 1 - x
  {
    var s := Repeat(true, RICE_THRESHOLD + 1 - x) + rest;
    if x == RICE_THRESHOLD + 1 {
      assert s == rest;
    } else {
      assert s[1..] == Repeat(true, RICE_THRESHOLD + 1 - (x + 1)) + rest;
      EscapeBack(x + 1, rest);
    }
  }

  /** The short form of a zero remainder: k - 1 zeros, whatever bit follows. */
  lemma ZeroRemainderBack(k: nat, rest: seq<bool>)
    requires 2 <= k <= 16 && |rest| >= 16
    ensures var s := Repeat(false, k - 1) + rest;
            InBounds(s, k) && Val(s[..k]) <= 1 && s[k - 1..] == rest
  {
    var s := Repeat(false, k - 1) + rest;
    assert s[..k] == Repeat(false, k - 1) + [rest[0]];
    ValSnoc(Repeat(false, k - 1), rest[0]);
    ValZeros(k - 1);
  }

  lemma ShortRoundTrip(q: nat, e: nat, width: nat, k: nat, maskBits: nat, rest: seq<bool>)
    requires 1 <= width <= 32 && 1 <= k <= 16 && maskBits >= 1
    requires q <= RICE_THRESHOLD && e < Multiplier(k, maskBits) && |rest| >= 16
    ensures DecodeValue(Repeat(true, q) + [false] + (Remainder(e, k) + rest), width, k, maskBits)
            == Some((q * Multiplier(k, maskBits) + e, rest))
  {
    hide Ones, Multiplier, Pow2, Val, ToBits, ReadBits, InBounds;
    OnesBack(q, 0, Remainder(e, k) + rest);
    MulMonotone(0, q, Multiplier(k, maskBits));
    if k == 1 {
      assert Multiplier(k, maskBits) == 1 by {
        OneWide(maskBits);
      }
      assert Remainder(e, k) + rest == rest;
    } else {
      RemainderBack(e, k, maskBits, rest);
    }
  }

  lemma OneWide(maskBits: nat)
    requires maskBits >= 1
    ensures Multiplier(1, maskBits) == 1
  {
  }

  /** The k bits read for a remainder, and where the reader then stands. */
  lemma RemainderBack(e: nat, k: nat, maskBits: nat, rest: seq<bool>)
    requires 2 <= k <= 16 && maskBits >= 1 && e < Multiplier(k, maskBits) && |rest| >= 16
    ensures ReadBits(Remainder(e, k) + rest, k).Some?
    ensures var (extra, after) := ReadBits(Remainder(e, k) + rest, k).value;
      && (e == 0 ==> extra <= 1 && (Remainder(e, k) + rest)[k - 1..] == rest)
      && (e > 0 ==> extra == e + 1 && after == rest)
  {
    hide Multiplier, Pow2, Val, ToBits;
    if e == 0 {
      ZeroRemainderBack(k, rest);
    } else {
      ReadBack(e + 1, k, rest);
    }
  }

  lemma EscapeRoundTrip(v: nat, width: nat, k: nat, maskBits: nat, rest: seq<bool>)
    requires 1 <= width <= 32 && 1 <= k <= 16 && maskBits >= 1
    requires v < Pow2(width) && |rest| >= 16
    ensures DecodeValue(Repeat(true, RICE_THRESHOLD + 1) + (ToBits(v, width) + rest), width, k, maskBits)
            == Some((v, rest))
  {
    EscapeBack(0, ToBits(v, width) + rest);
    ReadBack(v, width, rest);
  }

  /** Decoding one value inverts encoding it, whatever follows. */
  lemma ValueRoundTrip(v: nat, width: nat, k: nat, maskBits: nat, rest: seq<bool>)
    requires 1 <= width <= 32 && 1 <= k <= 16 && maskBits >= 1
    requires v < Pow2(width) && |rest| >= 16
    ensures DecodeValue(EncodeValue(v, width, k, maskBits) + rest, width, k, maskBits) == Some((v, rest))
  {
    hide *;
    var m := Multiplier(k, maskBits);
    EncodeForm(v, width, k, maskBits);
    if v / m > RICE_THRESHOLD {
      EscapeRoundTrip(v, width, k, maskBits, rest);
      assert (Repeat(true, RICE_THRESHOLD + 1) + ToBits(v, width)) + rest
          == Repeat(true, RICE_THRESHOLD + 1) + (ToBits(v, width) + rest);
    } else {
      ShortRoundTrip(v / m, v % m, width, k, maskBits, rest);
      assert (Repeat(true, v / m) + [false] + Remainder(v % m, k)) + rest
          == Repeat(true, v / m) + [false] + (Remainder(v % m, k) + rest);
    }
  }

  /** The long and the short form. */
  lemma EncodeForm(v: nat, width: nat, k: nat, maskBits: nat)
    requires k >= 1 && maskBits >= 1
    ensures var m := Multiplier(k, maskBits);
      && v / m >= 0 && 0 <= v % m < m && v == (v / m) * m + v % m
      && EncodeValue(v, width, k, maskBits) ==
         if v / m > RICE_THRESHOLD then Repeat(true, RICE_THRESHOLD + 1) + ToBits(v, width)
         else Repeat(true, v / m) + [false] + Remainder(v % m, k)
  {
    DivMod(v, Multiplier(k, maskBits));
    hide Multiplier, Remainder, ToBits, Repeat;
  }

  // ----- a whole channel -----

  /** Signed residuals folded onto the naturals, the sign in the low bit. */
  function Fold(e: int): nat {
    if e >= 0 then 2 * e else -2 * e - 1
  }

  function Unfold(d: nat): int {
    var f := (d + 1) / 2;
    if d % 2 == 1 then -f else f
  }

  lemma UnfoldFold(e: int)
    ensures Unfold(Fold(e)) == e
    ensures e >= 0 ==> Unfold(2 * e) == e && Unfold(2 * e + 1) == -(e + 1)
  {
    var d := Fold(e);
    var f := (d + 1) / 2;
    assert 2 * f <= d + 1 < 2 * f + 2;
  }

  /** n residuals from s on, with running history h and sign modifier. None where the C code
      would overrun a buffer or overflow a history product. */
  function DecodeRice(s: seq<bool>, n: nat, h: int, signModifier: nat, p: RiceParams)
    : (r: Option<(seq<int>, seq<bool>)>)
    requires p.Valid() && ValidHistory(h) && signModifier <= 1
    ensures r.Some? ==> |r.value.0| == n
    decreases n
  {
    if n == 0 then Some(([], s))
    else
      SampleParamMeaning(h, p.kModifier);
      var (x, s1) :- DecodeValue(s, p.sampleBits, SampleParam(h, p.kModifier), 32);
      if !FitsInt32(h * p.multiplier) then None
      else
        var d := x + signModifier;
        var h' := NextHistory(h, d, p.multiplier);
        NextHistoryBounded(h, d, p.multiplier);
        if h' < 128 && n > 1 then
          RunParamBounds(h');
          var (z, s2) :- DecodeValue(s1, RUN_BITS, RunParam(h'), p.kModifier);
          if z > n - 1 then None
          else
            var (es, s3) :- DecodeRice(s2, n - 1 - z, 0, if z > 0xFFFF then 0 else 1, p);
            Some(([Unfold(d)] + Repeat(0, z) + es, s3))
        else
          var (es, s2) :- DecodeRice(s1, n - 1, h', 0, p);
          Some(([Unfold(d)] + es, s2))
  }

  /** Where a channel goes wrong on a zero run: once the value in front of it is decoded and the history has
      run dry, decoding goes on if and only if the run read ends inside the frame, that is, leaves at most
      the n - 1 samples still to come, and what follows it can be decoded. A longer run would be written past
      the end. */
  lemma RunFitsIff(s: seq<bool>, n: nat, h: int, signModifier: nat, p: RiceParams, x: nat, s1: seq<bool>, z: nat,
                   s2: seq<bool>)
    requires p.Valid() && ValidHistory(h) && signModifier <= 1 && n > 1 && FitsInt32(h * p.multiplier)
    requires 1 <= SampleParam(h, p.kModifier) <= 16
    requires DecodeValue(s, p.sampleBits, SampleParam(h, p.kModifier), 32) == Some((x, s1))
    requires 0 <= NextHistory(h, x + signModifier, p.multiplier) < 128
    requires 2 <= RunParam(NextHistory(h, x + signModifier, p.multiplier)) <= 8
    requires DecodeValue(s1, RUN_BITS, RunParam(NextHistory(h, x + signModifier, p.multiplier)), p.kModifier)
          == Some((z, s2))
    ensures DecodeRice(s, n, h, signModifier, p).Some?
            <==> z <= n - 1 && DecodeRice(s2, n - 1 - z, 0, if z > 0xFFFF then 0 else 1, p).Some?
  {
    hide DecodeValue, SampleParam, RunParam, NextHistory, FitsInt32, Unfold;
    NextHistoryBounded(h, x + signModifier, p.multiplier);
  }

  /** The bits of a zero sample and a zero run of z. */
  function ZeroRunBits(z: nat, h: int, p: RiceParams): seq<bool>
    requires p.Valid() && ValidHistory(h) && NextHistory(h, 0, p.multiplier) < 128
  {
    SampleParamMeaning(h, p.kModifier);
    NextHistoryBounded(h, 0, p.multiplier);
    RunParamBounds(NextHistory(h, 0, p.multiplier));
    EncodeValue(0, p.sampleBits, SampleParam(h, p.kModifier), 32)
    + EncodeValue(z, RUN_BITS, RunParam(NextHistory(h, 0, p.multiplier)), p.kModifier)
  }

  /** Every run too long for its frame can be sent: the bits name a run that leaves the frame, for any frame
      of two samples or more and any longer run of 16 bits. */
  lemma OverlongRun(z: nat, n: nat, h: int, p: RiceParams, rest: seq<bool>)
    requires p.Valid() && ValidHistory(h) && NextHistory(h, 0, p.multiplier) < 128 && FitsInt32(h * p.multiplier)
    requires 1 < n <= z < 0x1_0000 && |rest| >= 16
    ensures DecodeRice(ZeroRunBits(z, h, p) + rest, n, h, 0, p) == None
    ensures DecodeRice(ZeroRunBits(z, h, p) + rest, z + 1, h, 0, p) == Some(([0] + Repeat(0, z), rest))
  {
    SampleParamMeaning(h, p.kModifier);
    NextHistoryBounded(h, 0, p.multiplier);
    RunParamBounds(NextHistory(h, 0, p.multiplier));
    Pow2Constants();
    Pow2Monotone(0, p.sampleBits);
    var first := EncodeValue(0, p.sampleBits, SampleParam(h, p.kModifier), 32);
    var run := EncodeValue(z, RUN_BITS, RunParam(NextHistory(h, 0, p.multiplier)), p.kModifier);
    ValueRoundTrip(0, p.sampleBits, SampleParam(h, p.kModifier), 32, run + rest);
    ValueRoundTrip(z, RUN_BITS, RunParam(NextHistory(h, 0, p.multiplier)), p.kModifier, rest);
    assert ZeroRunBits(z, h, p) + rest == first + (run + rest);
    hide EncodeValue, DecodeValue, SampleParam, RunParam, NextHistory, FitsInt32, ZeroRunBits;
    RunFitsIff(first + (run + rest), n, h, 0, p, 0, run + rest, z, rest);
    assert Unfold(0) == 0;
    assert [0] + Repeat(0, z) + [] == [0] + Repeat(0, z);
  }

  /** Length of the longest run of zeros at the front. */
  function ZeroRun(e: seq<int>): (z: nat)
    ensures z <= |e|
    ensures forall i :: 0 <= i < z ==> e[i] == 0
    ensures z < |e| ==> e[z] != 0
  {
    if e == [] || e[0] != 0 then 0 else 1 + ZeroRun(e[1..])
  }

  predicate AllSigned(e: seq<int>, bits: nat) {
    forall i :: 0 <= i < |e| ==> InSigned(e[i], bits)
  }

  /** What the encoder may be asked to continue with: the sign modifier promises a non-zero
      residual. */
  predicate Encodable(e: seq<int>, signModifier: nat, p: RiceParams) {
    && p.Valid() && AllSigned(e, p.sampleBits) && |e| <= 0x1_0000 && signModifier <= 1
    && (signModifier == 1 && e != [] ==> e[0] != 0)
  }

  function EncodeRice(e: seq<int>, h: int, signModifier: nat, p: RiceParams): seq<bool>
    requires Encodable(e, signModifier, p) && ValidHistory(h)
    decreases |e|
  {
    if e == [] then []
    else
      var d := Fold(e[0]);
      SampleParamMeaning(h, p.kModifier);
      var code := EncodeValue(d - signModifier, p.sampleBits, SampleParam(h, p.kModifier), 32);
      var h' := NextHistory(h, d, p.multiplier);
      NextHistoryBounded(h, d, p.multiplier);
      if h' < 128 && |e| > 1 then
        var z := ZeroRun(e[1..]);
        RunParamBounds(h');
        code + EncodeValue(z, RUN_BITS, RunParam(h'), p.kModifier) + EncodeRice(e[1 + z..], 0, 1, p)
      else
        code + EncodeRice(e[1..], h', 0, p)
  }

  /** No history product of the run leaves 32 bits. */
  predicate HistoryFits(e: seq<int>, h: int, multiplier: nat)
    decreases |e|
  {
    e == [] ||
    (FitsInt32(h * multiplier) &&
     var h' := NextHistory(h, Fold(e[0]), multiplier);
     if h' < 128 && |e| > 1 then HistoryFits(e[1 + ZeroRun(e[1..])..], 0, multiplier)
     else HistoryFits(e[1..], h', multiplier))
  }

  /** A folded residual less its sign modifier fits the escape width. */
  lemma FoldedFits(e: int, signModifier: nat, bits: nat)
    requires 1 <= bits && InSigned(e, bits) && signModifier <= 1 && (signModifier == 1 ==> e != 0)
    ensures 0 <= Fold(e) - signModifier < Pow2(bits)
  {
    assert Pow2(bits) == 2 * Pow2(bits - 1);
  }

  /** One sample without a run behind it. */
  lemma SampleStep(e: seq<int>, h: int, signModifier: nat, p: RiceParams, tail: seq<bool>, rest: seq<bool>)
    requires Encodable(e, signModifier, p) && ValidHistory(h) && |rest| >= 16 && e != []
    requires FitsInt32(h * p.multiplier)
    requires var h' := NextHistory(h, Fold(e[0]), p.multiplier);
      ValidHistory(h') && (h' >= 128 || |e| == 1) && DecodeRice(tail + rest, |e| - 1, h', 0, p) == Some((e[1..], rest))
    ensures 1 <= SampleParam(h, p.kModifier) <= 16 && Fold(e[0]) >= signModifier
    ensures DecodeRice(EncodeValue(Fold(e[0]) - signModifier, p.sampleBits, SampleParam(h, p.kModifier), 32)
                       + (tail + rest),
                       |e|, h, signModifier, p) == Some((e, rest))
  {
    hide DecodeValue, EncodeValue, NextHistory, SampleParam, RunParam, CountLeadingZeros, Pow2, ZeroRun,
      InSigned, Min, Log2;
    SampleParamMeaning(h, p.kModifier);
    FoldedFits(e[0], signModifier, p.sampleBits);
    UnfoldFold(e[0]);
    ValueRoundTrip(Fold(e[0]) - signModifier, p.sampleBits, SampleParam(h, p.kModifier), 32, tail + rest);
    assert e == [e[0]] + e[1..];
  }

  /** One sample with its zero run. */
  lemma RunStep(e: seq<int>, h: int, signModifier: nat, p: RiceParams, tail: seq<bool>, rest: seq<bool>)
    requires Encodable(e, signModifier, p) && ValidHistory(h) && |rest| >= 16 && |e| > 1
    requires FitsInt32(h * p.multiplier)
    requires 0 <= NextHistory(h, Fold(e[0]), p.multiplier) < 128
    requires var z := ZeroRun(e[1..]); DecodeRice(tail + rest, |e| - 1 - z, 0, 1, p) == Some((e[1 + z..], rest))
    ensures 1 <= SampleParam(h, p.kModifier) <= 16 && Fold(e[0]) >= signModifier
    ensures var h' := NextHistory(h, Fold(e[0]), p.multiplier);
      2 <= RunParam(h') <= 8 &&
      DecodeRice(EncodeValue(Fold(e[0]) - signModifier, p.sampleBits, SampleParam(h, p.kModifier), 32) +
                 (EncodeValue(ZeroRun(e[1..]), RUN_BITS, RunParam(h'), p.kModifier) + (tail + rest)),
                 |e|, h, signModifier, p) == Some((e, rest))
  {
    hide DecodeValue, EncodeValue, NextHistory, SampleParam, RunParam, CountLeadingZeros, Pow2, ZeroRun,
      InSigned, Min, Log2;
    SampleParamMeaning(h, p.kModifier);
    FoldedFits(e[0], signModifier, p.sampleBits);
    UnfoldFold(e[0]);
    var h', z := NextHistory(h, Fold(e[0]), p.multiplier), ZeroRun(e[1..]);
    RunParamBounds(h');
    Pow2Constants();
    var run := EncodeValue(z, RUN_BITS, RunParam(h'), p.kModifier);
    ValueRoundTrip(Fold(e[0]) - signModifier, p.sampleBits, SampleParam(h, p.kModifier), 32, run + (tail + rest));
    ValueRoundTrip(z, RUN_BITS, RunParam(h'), p.kModifier, tail + rest);
    assert e == [e[0]] + Repeat(0, z) + e[1 + z..];
  }

  /** Adaptive Rice decoding inverts adaptive Rice encoding and consumes exactly its bits. */
  lemma {:induction false} RiceRoundTrip(e: seq<int>, h: int, signModifier: nat, p: RiceParams, rest: seq<bool>)
    requires Encodable(e, signModifier, p) && ValidHistory(h) && |rest| >= 16
    requires HistoryFits(e, h, p.multiplier)
    ensures DecodeRice(EncodeRice(e, h, signModifier, p) + rest, |e|, h, signModifier, p) == Some((e, rest))
    decreases |e|
  {
    hide DecodeRice, EncodeRice, HistoryFits, DecodeValue, EncodeValue, NextHistory, SampleParam, RunParam, Fold,
      ZeroRun, FitsInt32, AllSigned;
    if e == [] {
      NothingEncoded(e, h, signModifier, p, rest);
    } else {
      var h' := NextHistory(h, Fold(e[0]), p.multiplier);
      EncodeStep(e, h, signModifier, p);
      var code := EncodeValue(Fold(e[0]) - signModifier, p.sampleBits, SampleParam(h, p.kModifier), 32);
      if h' < 128 && |e| > 1 {
        var z := ZeroRun(e[1..]);
        var tail := EncodeRice(e[1 + z..], 0, 1, p);
        RiceRoundTrip(e[1 + z..], 0, 1, p, rest);
        RunStep(e, h, signModifier, p, tail, rest);
        AppendAssoc(code, EncodeValue(z, RUN_BITS, RunParam(h'), p.kModifier), tail, rest);
      } else {
        var tail := EncodeRice(e[1..], h', 0, p);
        RiceRoundTrip(e[1..], h', 0, p, rest);
        SampleStep(e, h, signModifier, p, tail, rest);
        assert (code + tail) + rest == code + (tail + rest);
      }
    }
  }

  lemma NothingEncoded(e: seq<int>, h: int, signModifier: nat, p: RiceParams, rest: seq<bool>)
    requires Encodable(e, signModifier, p) && ValidHistory(h) && e == []
    ensures DecodeRice(EncodeRice(e, h, signModifier, p) + rest, 0, h, signModifier, p) == Some((e, rest))
  {
    assert EncodeRice(e, h, signModifier, p) + rest == rest;
  }

  /** One turn of the encoder. */
  lemma EncodeStep(e: seq<int>, h: int, signModifier: nat, p: RiceParams)
    requires Encodable(e, signModifier, p) && ValidHistory(h) && e != []
    requires HistoryFits(e, h, p.multiplier)
    ensures FitsInt32(h * p.multiplier) && Fold(e[0]) >= signModifier && 1 <= SampleParam(h, p.kModifier) <= 16
    ensures
      var h' := NextHistory(h, Fold(e[0]), p.multiplier);
      var code := EncodeValue(Fold(e[0]) - signModifier, p.sampleBits, SampleParam(h, p.kModifier), 32);
      && ValidHistory(h')
      && if h' < 128 && |e| > 1 then
           var z := ZeroRun(e[1..]);
           && 2 <= RunParam(h') <= 8
           && Encodable(e[1 + z..], 1, p) && HistoryFits(e[1 + z..], 0, p.multiplier)
           && EncodeRice(e, h, signModifier, p)
              == code + EncodeValue(z, RUN_BITS, RunParam(h'), p.kModifier) + EncodeRice(e[1 + z..], 0, 1, p)
         else
           && Encodable(e[1..], 0, p) && HistoryFits(e[1..], h', p.multiplier)
           && EncodeRice(e, h, signModifier, p) == code + EncodeRice(e[1..], h', 0, p)
  {
    hide EncodeValue, NextHistory, SampleParam, RunParam, CountLeadingZeros, InSigned, FitsInt32;
    SampleParamMeaning(h, p.kModifier);
    NextHistoryBounded(h, Fold(e[0]), p.multiplier);
    var h' := NextHistory(h, Fold(e[0]), p.multiplier);
    if h' < 128 && |e| > 1 {
      RunParamBounds(h');
    }
  }

  // ----- when the history product fits -----

  lemma {:induction false} SmallMultiplierFits(e: seq<int>, h: int, multiplier: nat)
    requires ValidHistory(h) && multiplier <= 64
    ensures HistoryFits(e, h, multiplier)
    decreases |e|
  {
    MulMonotone(multiplier, 64, h);
    MulMonotone(0, h, multiplier);
    if e == [] {
    } else {
      NextHistoryBounded(h, Fold(e[0]), multiplier);
      SmallMultiplierFits(e[1 + ZeroRun(e[1..])..], 0, multiplier);
      SmallMultiplierFits(e[1..], NextHistory(h, Fold(e[0]), multiplier), multiplier);
    }
  }

  /** At multiplier 65 and above, -32768 (folded 65535) drives the history up by at least 65471
      a sample until the product overflows. */
  lemma {:induction false} LoudRunOverflows(n: nat, h: int, multiplier: nat)
    requires ValidHistory(h) && 65 <= multiplier <= 512
    requires h + 65471 * (n - 1) > 33038209 && n >= 1
    ensures !HistoryFits(Repeat(-32768, n), h, multiplier)
    decreases n
  {
    var e := Repeat(-32768, n);
    if FitsInt32(h * multiplier) {
      var h' := NextHistory(h, 65535, multiplier);
      MulMonotone(65, multiplier, h);
      NextHistoryBounded(h, 65535, multiplier);
      assert h' >= h + 65471;
      assert e[1..] == Repeat(-32768, n - 1);
      LoudRunOverflows(n - 1, h', multiplier);
    }
  }

  /** Whole channels of 17-bit residuals are safe from signed overflow exactly when the
      multiplier is at most 64, whatever the initial history byte. */
  lemma OverflowFreeIff(multiplier: nat)
    requires multiplier <= 512
    ensures (forall e: seq<int>, h :: AllSigned(e, 17) && 0 <= h < 256 ==> HistoryFits(e, h, multiplier))
            <==> multiplier <= 64
  {
    if multiplier <= 64 {
      forall e: seq<int>, h | AllSigned(e, 17) && 0 <= h < 256
        ensures HistoryFits(e, h, multiplier)
      {
        SmallMultiplierFits(e, h, multiplier);
      }
    } else {
      LoudRunOverflows(600, 0, multiplier);
      Pow2Constants();
      assert AllSigned(Repeat(-32768, 600), 17);
    }
  }
}
