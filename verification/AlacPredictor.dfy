/** The adaptive FIR predictor of ALAC and the residual encoder it inverts. */
module AlacPredictor {
  import opened Arith

  /** Number of coefficients that selects plain delta decoding. */
  const DELTA_MODE := 31

  /** Sample width and quantisation of one channel. */
  datatype FirParams = FirParams(sampleBits: nat, quant: nat) {
    predicate Valid() {
      1 <= sampleBits <= 32 && quant <= 15
    }
  }

  function Sign(v: int): int {
    if v < 0 then -1 else if v > 0 then 1 else 0
  }

  /** Arithmetic right shift. */
  function Shr(v: int, n: nat): int {
    v / Pow2(n)
  }

  /** Half a quantisation step. Quantisation 0 never reaches the general mode. */
  function Rounding(quant: nat): int {
    if quant == 0 then 0 else Pow2(quant - 1)
  }

  /** Weighted sum of the first j differences to the sample that leaves the window. */
  function WeightedSum(out: seq<int>, coefs: seq<int>, j: nat): int
    requires j <= |coefs| < |out|
  {
    if j == 0 then 0
    else
      WeightedSum(out, coefs, j - 1) + (out[|out| - j] - out[|out| - |coefs| - 1]) * coefs[j - 1]
  }

  /** What the decoder expects the next sample to be. The sum wraps at 32 bits. */
  function Predict(out: seq<int>, coefs: seq<int>, p: FirParams): int
    requires p.Valid()
  {
    if out == [] || coefs == [] then 0
    else if |coefs| == DELTA_MODE || |out| <= |coefs| then out[|out| - 1]
    else Shr(Wrap32(Rounding(p.quant) + WeightedSum(out, coefs, |coefs|)), p.quant) + out[|out| - |coefs| - 1]
  }

  /** The first sample and the order-0 mode take the residual as it is; everything else is sign
      extended to the sample width. */
  function Reconstruct(out: seq<int>, coefs: seq<int>, err: int, p: FirParams): int
    requires p.Valid()
  {
    if out == [] || coefs == [] then err
    else SignExtend(Predict(out, coefs, p) + err, p.sampleBits)
  }

  /** One pass of coefficient adaptation from coefficient k - 1 down, while the residual has not
      changed sign or reached zero. */
  function AdaptFrom(out: seq<int>, coefs: seq<int>, k: nat, err: int, p: FirParams): (r: seq<int>)
    requires k <= |coefs| < |out|
    ensures |r| == |coefs|
    decreases k
  {
    if k == 0 || err == 0 then coefs
    else
      var val := out[|out| - |coefs| - 1] - out[|out| - k];
      var sign := if err > 0 then Sign(val) else -Sign(val);
      AdaptFrom(out, coefs[k - 1 := Wrap16(coefs[k - 1] - sign)], k - 1,
                AdaptError(err, val * sign, |coefs| - (k - 1), p), p)
  }

  /** How much of the residual a coefficient accounts for. */
  function Spent(magnitude: int, weight: nat, p: FirParams): int {
    Shr(magnitude, p.quant) * weight
  }

  /** The residual left for the next coefficient; adaptation stops when its sign is used up. */
  function AdaptError(err: int, magnitude: int, weight: nat, p: FirParams): int {
    var e := err - Spent(magnitude, weight, p);
    if (err > 0 && e < 0) || (err < 0 && e > 0) then 0 else e
  }

  function Adapt(out: seq<int>, coefs: seq<int>, err: int, p: FirParams): (r: seq<int>)
    ensures |r| == |coefs|
  {
    if coefs == [] || |coefs| == DELTA_MODE || |out| <= |coefs| then coefs
    else AdaptFrom(out, coefs, |coefs|, err, p)
  }

  /** Decoding continued: the samples and the coefficient table when the residuals from |out| on
      are used up. */
  function DecodeFrom(out: seq<int>, errs: seq<int>, coefs: seq<int>, p: FirParams): (r: (seq<int>, seq<int>))
    requires p.Valid() && |out| <= |errs|
    ensures |r.0| == |errs| && |r.1| == |coefs|
    decreases |errs| - |out|
  {
    if |out| == |errs| then (out, coefs)
    else
      var err := errs[|out|];
      DecodeFrom(out + [Reconstruct(out, coefs, err, p)], errs, Adapt(out, coefs, err, p), p)
  }

  function DecodeFir(errs: seq<int>, coefs: seq<int>, p: FirParams): (r: (seq<int>, seq<int>))
    requires p.Valid()
    ensures |r.0| == |errs| && |r.1| == |coefs|
  {
    DecodeFrom([], errs, coefs, p)
  }

  /** The residual the encoder sends for x when the decoder holds `out`. */
  function Residual(out: seq<int>, coefs: seq<int>, x: int, p: FirParams): int
    requires p.Valid()
  {
    SignExtend(x - Predict(out, coefs, p), p.sampleBits)
  }

  /** Residuals of the samples from index i on, and the encoder's table at the end. */
  function EncodeFrom(xs: seq<int>, i: nat, coefs: seq<int>, p: FirParams): (r: (seq<int>, seq<int>))
    requires p.Valid() && i <= |xs|
    ensures |r.0| == |xs| - i && |r.1| == |coefs|
    decreases |xs| - i
  {
    if i == |xs| then ([], coefs)
    else
      var err := Residual(xs[..i], coefs, xs[i], p);
      var (errs, last) := EncodeFrom(xs, i + 1, Adapt(xs[..i], coefs, err, p), p);
      ([err] + errs, last)
  }

  function EncodeFir(xs: seq<int>, coefs: seq<int>, p: FirParams): (r: (seq<int>, seq<int>))
    requires p.Valid()
    ensures |r.0| == |xs| && |r.1| == |coefs|
  {
    EncodeFrom(xs, 0, coefs, p)
  }

  lemma ResidualInRange(out: seq<int>, coefs: seq<int>, x: int, p: FirParams)
    requires p.Valid()
    ensures InSigned(Residual(out, coefs, x, p), p.sampleBits)
  {
    hide Predict;
  }

  lemma ReconstructInverts(out: seq<int>, coefs: seq<int>, x: int, p: FirParams)
    requires p.Valid() && InSigned(x, p.sampleBits)
    ensures Reconstruct(out, coefs, Residual(out, coefs, x, p), p) == x
  {
    if out == [] || coefs == [] {
      WrapIdentity(x, Pow2(p.sampleBits));
    } else {
      hide Predict;
      WrapInverse(Predict(out, coefs, p), x, Pow2(p.sampleBits));
    }
  }

  /** The predictor is invertible in all three modes: feeding the encoder's residuals to the
      decoder gives back the samples, and both end with the same self-modified table. */
  lemma {:induction false} FirRoundTripFrom(xs: seq<int>, i: nat, errs: seq<int>, coefs: seq<int>, p: FirParams)
    requires p.Valid() && i <= |xs| == |errs|
    requires forall j :: 0 <= j < |xs| ==> InSigned(xs[j], p.sampleBits)
    requires errs[i..] == EncodeFrom(xs, i, coefs, p).0
    ensures DecodeFrom(xs[..i], errs, coefs, p) == (xs, EncodeFrom(xs, i, coefs, p).1)
    decreases |xs| - i
  {
    if i == |xs| {
      assert xs[..i] == xs;
    } else {
      hide Residual, Reconstruct, Adapt, InSigned;
      var err := Residual(xs[..i], coefs, xs[i], p);
      assert errs[i] == errs[i..][0] == err;
      assert errs[i + 1..] == errs[i..][1..];
      ReconstructInverts(xs[..i], coefs, xs[i], p);
      assert xs[..i] + [xs[i]] == xs[..i + 1];
      FirRoundTripFrom(xs, i + 1, errs, Adapt(xs[..i], coefs, err, p), p);
    }
  }

  lemma FirRoundTrip(xs: seq<int>, coefs: seq<int>, p: FirParams)
    requires p.Valid()
    requires forall j :: 0 <= j < |xs| ==> InSigned(xs[j], p.sampleBits)
    ensures DecodeFir(EncodeFir(xs, coefs, p).0, coefs, p) == (xs, EncodeFir(xs, coefs, p).1)
  {
    hide DecodeFrom, EncodeFrom;
    var errs := EncodeFir(xs, coefs, p).0;
    assert errs[0..] == errs;
    assert xs[..0] == [];
    FirRoundTripFrom(xs, 0, errs, coefs, p);
  }

  /** Every residual the encoder sends fits the sample width, so the Rice coder can carry it. */
  lemma {:induction false} ResidualsInRange(xs: seq<int>, i: nat, coefs: seq<int>, p: FirParams)
    requires p.Valid() && i <= |xs|
    ensures forall j :: 0 <= j < |xs| - i ==> InSigned(EncodeFrom(xs, i, coefs, p).0[j], p.sampleBits)
    decreases |xs| - i
  {
    if i == |xs| {
    } else {
      hide Residual, Adapt, InSigned;
      var err := Residual(xs[..i], coefs, xs[i], p);
      ResidualInRange(xs[..i], coefs, xs[i], p);
      ResidualsInRange(xs, i + 1, Adapt(xs[..i], coefs, err, p), p);
    }
  }

  // ----- what adaptation is for -----

  /** Changing one coefficient changes the weighted sum by its difference times the change. */
  lemma {:induction false} SumOfUpdate(out: seq<int>, coefs: seq<int>, i: nat, v: int, j: nat)
    requires i < |coefs| < |out| && j <= |coefs|
    ensures WeightedSum(out, coefs[i := v], j)
         == WeightedSum(out, coefs, j)
            + if i < j then (out[|out| - 1 - i] - out[|out| - |coefs| - 1]) * (v - coefs[i]) else 0
  {
    if j == 0 {
    } else {
      SumOfUpdate(out, coefs, i, v, j - 1);
      if i == j - 1 {
        var d := out[|out| - 1 - i] - out[|out| - |coefs| - 1];
        assert d * v == d * coefs[i] + d * (v - coefs[i]);
      }
    }
  }

  /** Adaptation moves the weighted sum of the window towards the sample that was missed: up after a
      positive residual, down after a negative one, as long as no 16-bit coefficient wraps. */
  lemma {:induction false} AdaptsTowardsSample(out: seq<int>, coefs: seq<int>, k: nat, err: int, p: FirParams)
    requires k <= |coefs| < |out|
    requires forall j :: 0 <= j < k ==> -0x8000 < coefs[j] < 0x7fff
    ensures var moved := WeightedSum(out, AdaptFrom(out, coefs, k, err, p), |coefs|) - WeightedSum(out, coefs, |coefs|);
            if err >= 0 then moved >= 0 else moved <= 0
    decreases k
  {
    if k == 0 || err == 0 {
    } else {
      var i := k - 1;
      var val := out[|out| - |coefs| - 1] - out[|out| - k];
      var sign := if err > 0 then Sign(val) else -Sign(val);
      var next := coefs[i := Wrap16(coefs[i] - sign)];
      var left := AdaptError(err, val * sign, |coefs| - i, p);
      assert AdaptFrom(out, coefs, k, err, p) == AdaptFrom(out, next, i, left, p) by {
        hide Wrap16, Sign, AdaptError;
      }
      hide *;
      TurnMoves(out, coefs, i, err);
      LeftSign(err, val * sign, |coefs| - i, p);
      AdaptsTowardsSample(out, next, i, left, p);
    }
  }

  /** One coefficient's step moves the sum the way the residual points. */
  lemma TurnMoves(out: seq<int>, coefs: seq<int>, i: nat, err: int)
    requires i < |coefs| < |out| && -0x8000 < coefs[i] < 0x7fff
    ensures var val := out[|out| - |coefs| - 1] - out[|out| - 1 - i];
      var sign := if err > 0 then Sign(val) else -Sign(val);
      var moved := WeightedSum(out, coefs[i := Wrap16(coefs[i] - sign)], |coefs|) - WeightedSum(out, coefs, |coefs|);
      if err > 0 then moved >= 0 else moved <= 0
  {
    hide WeightedSum, Wrap16, Sign;
    var d := out[|out| - 1 - i] - out[|out| - |coefs| - 1];
    var sign := if err > 0 then Sign(-d) else -Sign(-d);
    SignedStep(d, err);
    UnwrappedStep(coefs[i], sign);
    SumOfUpdate(out, coefs, i, coefs[i] - sign, |coefs|);
  }

  lemma SignedStep(d: int, err: int)
    ensures var sign := if err > 0 then Sign(-d) else -Sign(-d);
      -1 <= sign <= 1 && if err > 0 then d * -sign >= 0 else d * -sign <= 0
  {
  }

  /** What is left of a residual does not change sides. */
  lemma LeftSign(err: int, magnitude: int, weight: nat, p: FirParams)
    ensures err > 0 ==> AdaptError(err, magnitude, weight, p) >= 0
    ensures err < 0 ==> AdaptError(err, magnitude, weight, p) <= 0
  {
    hide Spent;
  }

  lemma UnwrappedStep(c: int, sign: int)
    requires -0x8000 < c < 0x7fff && -1 <= sign <= 1
    ensures Wrap16(c - sign) == c - sign
  {
    WrapIdentity(c - sign, 0x1_0000);
  }

  // ----- which coefficients move, and by what -----

  function Abs(v: int): nat {
    if v >= 0 then v else -v
  }

  /** A distance shifted right: rounded down for a positive residual, up for a negative one, where the code
      shifts the negated distance. */
  function Steps(distance: nat, quant: nat, positive: bool): (n: nat)
    ensures positive ==> n * Pow2(quant) <= distance < (n + 1) * Pow2(quant)
    ensures !positive ==> (n - 1) * Pow2(quant) < distance <= n * Pow2(quant)
  {
    if positive then
      DivMod(distance, Pow2(quant));
      distance / Pow2(quant)
    else
      DivMod(distance + Pow2(quant) - 1, Pow2(quant));
      (distance + Pow2(quant) - 1) / Pow2(quant)
  }

  /** What coefficients k - 1 down to j of n use up of a residual: each the shifted distance of its sample from
      the one that leaves the window, times its place in the window. */
  function Used(out: seq<int>, n: nat, j: nat, k: nat, quant: nat, positive: bool): nat
    requires j <= k <= n < |out|
    decreases k
  {
    if j == k then 0
    else
      var distance := Abs(out[|out| - k] - out[|out| - n - 1]);
      Used(out, n, j, k - 1, quant, positive) + Portion(distance, n - k + 1, quant, positive)
  }

  function Portion(distance: nat, weight: nat, quant: nat, positive: bool): nat {
    MulMonotone(0, Steps(distance, quant, positive), weight);
    Steps(distance, quant, positive) * weight
  }

  /** Coefficient j moves, by one towards what the residual asks of its sample, exactly while the coefficients
      visited before it have used up less than the residual. */
  ghost predicate Adapted(out: seq<int>, coefs: seq<int>, after: seq<int>, k: nat, err: int, quant: nat)
    requires k <= |coefs| < |out|
  {
    var n := |coefs|;
    && |after| == n
    && forall j {:trigger after[j]} :: 0 <= j < n ==>
         var d := out[|out| - 1 - j] - out[|out| - n - 1];
         after[j] == if j < k && Used(out, n, j + 1, k, quant, err > 0) < Abs(err)
                     then Wrap16(coefs[j] + if d == 0 then 0 else if (d > 0) == (err > 0) then 1 else -1)
                     else coefs[j]
  }

  lemma ShrMeans(v: int, n: nat)
    ensures Shr(v, n) * Pow2(n) <= v < (Shr(v, n) + 1) * Pow2(n)
  {
    var p := Pow2(n);
    assert v == p * (v / p) + v % p;
  }

  lemma MultiplesApart(a: int, b: int, p: int)
    requires p > 0 && a * p < b * p
    ensures a < b
  {
    if a >= b {
      MulMonotone(b, a, p);
    }
  }

  lemma SpentIs(distance: int, weight: nat, p: FirParams)
    requires distance >= 0
    ensures Spent(distance, weight, p) == Portion(distance, weight, p.quant, true)
    ensures Spent(-distance, weight, p) == -(Portion(distance, weight, p.quant, false) as int)
  {
    var m := Pow2(p.quant);
    var down: int, up: int := Steps(distance, p.quant, true), Steps(distance, p.quant, false);
    ShrMeans(distance, p.quant);
    ShrMeans(-distance, p.quant);
    var a, b := Shr(distance, p.quant), Shr(-distance, p.quant);
    hide Shr, Steps, Pow2;
    MultiplesApart(a, down + 1, m);
    MultiplesApart(down, a + 1, m);
    NegatedProduct(up, m);
    NegatedProduct(up - 1, m);
    MultiplesApart(-up, b + 1, m);
    MultiplesApart(b, -(up - 1), m);
    assert a == down && b == -up;
    NegatedProduct(up, weight);
  }

  lemma NegatedProduct(a: int, m: int)
    ensures -a * m == -(a * m)
  {
  }

  /** Exactly which coefficients an adaptation moves, and by what. */
  lemma {:induction false} AdaptsExactly(out: seq<int>, coefs: seq<int>, k: nat, err: int, p: FirParams)
    requires k <= |coefs| < |out|
    ensures Adapted(out, coefs, AdaptFrom(out, coefs, k, err, p), k, err, p.quant)
    decreases k
  {
    if k == 0 || err == 0 {
      hide Wrap16, Used;
    } else {
      var i := k - 1;
      var val := out[|out| - |coefs| - 1] - out[|out| - k];
      var sign := if err > 0 then Sign(val) else -Sign(val);
      var next := coefs[i := Wrap16(coefs[i] - sign)];
      var left := AdaptError(err, val * sign, |coefs| - i, p);
      assert AdaptFrom(out, coefs, k, err, p) == AdaptFrom(out, next, i, left, p) by {
        hide Wrap16, Sign, AdaptError;
      }
      hide *;
      AdaptsExactly(out, next, i, left, p);
      LeftIs(err, val, |coefs| - i, p);
      AdaptedTurn(out, coefs, AdaptFrom(out, next, i, left, p), k, err, left, p.quant);
    }
  }

  /** One coefficient in front of those visited later. */
  lemma AdaptedTurn(out: seq<int>, coefs: seq<int>, after: seq<int>, k: nat, err: int, left: int, quant: nat)
    requires 0 < k <= |coefs| < |out| && err != 0
    requires var n, val := |coefs|, out[|out| - |coefs| - 1] - out[|out| - k];
      var sign := if err > 0 then Sign(val) else -Sign(val);
      var used := Portion(Abs(val), n - k + 1, quant, err > 0);
      && left == (if used >= Abs(err) then 0 else if err > 0 then err - used else err + used)
      && Adapted(out, coefs[k - 1 := Wrap16(coefs[k - 1] - sign)], after, k - 1, left, quant)
    ensures Adapted(out, coefs, after, k, err, quant)
  {
    hide Portion, Wrap16;
  }

  /** What one coefficient leaves of the residual. */
  lemma LeftIs(err: int, val: int, weight: nat, p: FirParams)
    requires err != 0
    ensures var sign := if err > 0 then Sign(val) else -Sign(val);
      var left, used := AdaptError(err, val * sign, weight, p), Portion(Abs(val), weight, p.quant, err > 0);
      left == if used >= Abs(err) then 0 else if err > 0 then err - used else err + used
  {
    var distance: int := Abs(val);
    SpentIs(distance, weight, p);
    hide Spent, Portion;
    var sign := if err > 0 then Sign(val) else -Sign(val);
    assert val * sign == if err > 0 then distance else -distance;
  }

  /** So no coefficient changes by more than one step at a time, and none behind those visited. */
  lemma AdaptsByOne(out: seq<int>, coefs: seq<int>, k: nat, err: int, p: FirParams, j: nat)
    requires j < |coefs| && k <= |coefs| < |out|
    ensures var after := AdaptFrom(out, coefs, k, err, p);
      && (j >= k ==> after[j] == coefs[j])
      && (after[j] == coefs[j] || after[j] in {Wrap16(coefs[j] - 1), Wrap16(coefs[j]), Wrap16(coefs[j] + 1)})
  {
    AdaptsExactly(out, coefs, k, err, p);
    hide AdaptFrom, Wrap16, Used;
  }

  /** A sample by its mode. q is the weighted sum, wrapped to 32 bits and rounded, in quantisation steps; the
      sample is the one value of its width that differs from prediction and residual by a multiple of 2^width. */
  lemma SampleExactly(out: seq<int>, coefs: seq<int>, err: int, p: FirParams, q: int) returns (t: int)
    requires p.Valid()
    requires |out| > |coefs| > 0 && |coefs| != 31 ==>
      p.quant >= 1 &&
      q * Pow2(p.quant) <= Wrap32(Pow2(p.quant - 1) + WeightedSum(out, coefs, |coefs|)) < (q + 1) * Pow2(p.quant)
    ensures var x := Reconstruct(out, coefs, err, p);
      if out == [] || coefs == [] then x == err
      else
        && InSigned(x, p.sampleBits)
        && x == err + t * Pow2(p.sampleBits)
              + if |coefs| == 31 || |out| <= |coefs| then out[|out| - 1] else q + out[|out| - |coefs| - 1]
  {
    t := 0;
    if out != [] && coefs != [] {
      var v := Predict(out, coefs, p) + err;
      if |coefs| != 31 && |out| > |coefs| {
        ShrIs(Wrap32(Pow2(p.quant - 1) + WeightedSum(out, coefs, |coefs|)), p.quant, q);
      }
      hide Shr, WeightedSum, Wrap32, Wrap, Pow2;
      t := WrapShift(v, Pow2(p.sampleBits));
      WrapRange(v, Pow2(p.sampleBits));
    }
  }

  lemma ShrIs(v: int, n: nat, q: int)
    requires q * Pow2(n) <= v < (q + 1) * Pow2(n)
    ensures Shr(v, n) == q
  {
    ShrMeans(v, n);
    hide Shr, Pow2;
    MultiplesApart(q, Shr(v, n) + 1, Pow2(n));
    MultiplesApart(Shr(v, n), q + 1, Pow2(n));
  }

  /** The table after a sample, by the mode. */
  lemma TableExactly(out: seq<int>, coefs: seq<int>, err: int, p: FirParams)
    ensures if |out| > |coefs| > 0 && |coefs| != 31 then
              Adapted(out, coefs, Adapt(out, coefs, err, p), |coefs|, err, p.quant)
            else Adapt(out, coefs, err, p) == coefs
  {
    if |out| > |coefs| > 0 && |coefs| != 31 {
      AdaptsExactly(out, coefs, |coefs|, err, p);
      hide Adapted, AdaptFrom;
    }
  }
}
