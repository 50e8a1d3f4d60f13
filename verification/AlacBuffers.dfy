/** The in-place parts of the ALAC decoder: prediction over the sample buffer with a coefficient
    table that changes as it goes, and interleaving into the PCM buffer. */
module AlacBuffers {
  import opened Arith
  import opened AlacPredictor
  import opened AlacMix

  lemma DecodeStep(out: seq<int>, errs: seq<int>, coefs: seq<int>, p: FirParams)
    requires p.Valid() && |out| < |errs|
    ensures DecodeFrom(out, errs, coefs, p)
            == DecodeFrom(out + [Reconstruct(out, coefs, errs[|out|], p)], errs, Adapt(out, coefs, errs[|out|], p), p)
  {
  }

  /** Without coefficients every residual is its sample. */
  lemma {:induction false} CopyMode(errs: seq<int>, i: nat, p: FirParams)
    requires p.Valid() && i <= |errs|
    ensures DecodeFrom(errs[..i], errs, [], p) == (errs, [])
    decreases |errs| - i
  {
    if i == |errs| {
      assert errs[..i] == errs;
    } else {
      assert errs[..i] + [errs[i]] == errs[..i + 1];
      CopyMode(errs, i + 1, p);
    }
  }

  /** Delta and warm-up samples add to the sample before. */
  lemma DeltaStep(out: seq<int>, coefs: seq<int>, err: int, p: FirParams)
    requires p.Valid() && out != [] && coefs != [] && (|coefs| == DELTA_MODE || |out| <= |coefs|)
    ensures Reconstruct(out, coefs, err, p) == SignExtend(Wrap32(out[|out| - 1] + err), p.sampleBits)
    ensures Adapt(out, coefs, err, p) == coefs
  {
    SignExtendOfWrap32(out[|out| - 1] + err, p.sampleBits);
  }

  /** Accumulating with wrap-around at every step gives the wrapped exact sum. */
  lemma SumStep(out: seq<int>, coefs: seq<int>, j: nat)
    requires j < |coefs| < |out|
    ensures Wrap32(Wrap32(WeightedSum(out, coefs, j)) + (out[|out| - 1 - j] - out[|out| - |coefs| - 1]) * coefs[j])
            == Wrap32(WeightedSum(out, coefs, j + 1))
  {
    hide Wrap;
    WrapAbsorbs((out[|out| - 1 - j] - out[|out| - |coefs| - 1]) * coefs[j], WeightedSum(out, coefs, j), 0x1_0000_0000);
  }

  lemma GeneralStep(out: seq<int>, coefs: seq<int>, err: int, p: FirParams, sum: int)
    requires p.Valid() && p.quant >= 1 && coefs != [] && |coefs| != DELTA_MODE && |coefs| < |out|
    requires sum == Wrap32(WeightedSum(out, coefs, |coefs|))
    ensures Reconstruct(out, coefs, err, p)
            == SignExtend(Wrap32(Shr(Wrap32(Pow2(p.quant - 1) + sum), p.quant) + out[|out| - |coefs| - 1] + err),
                          p.sampleBits)
  {
    hide Wrap, WeightedSum, Shr, Pow2;
    WrapAbsorbs(Pow2(p.quant - 1), WeightedSum(out, coefs, |coefs|), 0x1_0000_0000);
    SignExtendOfWrap32(Predict(out, coefs, p) + err, p.sampleBits);
  }

  /** The weighted sum of the window that starts at `base`, accumulated in 32 bits. */
  method PredictorSum(bufferOut: array<int>, base: nat, coefTable: array<int>, coefNum: nat) returns (sum: int)
    requires coefNum <= coefTable.Length && base + coefNum < bufferOut.Length
    ensures sum == Wrap32(WeightedSum(bufferOut[..base + coefNum + 1], coefTable[..coefNum], coefNum))
  {
    hide Wrap32;
    ghost var out, coefs := bufferOut[..base + coefNum + 1], coefTable[..coefNum];
    assert Wrap32(0) == 0 by {
      WrapIdentity(0, 0x1_0000_0000);
      WrapZero();
    }
    sum := 0;
    for j := 0 to coefNum
      invariant sum == Wrap32(WeightedSum(out, coefs, j))
    {
      SumStep(out, coefs, j);
      sum := Wrap32(sum + (bufferOut[base + coefNum - j] - bufferOut[base]) * coefTable[j]);
    }
  }

  lemma WrapZero()
    ensures Wrap32(0) == 0
  {
  }

  /** The residual after one coefficient, or 0 once its sign is used up. */
  function Clip(e: int, positive: bool): int {
    if (e > 0) == positive then e else 0
  }

  lemma AdaptStep(out: seq<int>, coefs: seq<int>, n: nat, i: nat, val: int, e: int, p: FirParams)
    requires i < n == |coefs| < |out| && e != 0 && val == out[|out| - n - 1] - out[|out| - 1 - i]
    ensures
      var sign := if e > 0 then Sign(val) else -Sign(val);
      AdaptFrom(out, coefs, i + 1, e, p)
      == AdaptFrom(out, coefs[i := Wrap16(coefs[i] - sign)], i, Clip(e - Shr(val * sign, p.quant) * (n - i), e > 0), p)
  {
    hide Sign, Wrap16, Shr;
  }

  lemma AdaptStop(out: seq<int>, coefs: seq<int>, k: nat, p: FirParams)
    requires k <= |coefs| < |out|
    ensures AdaptFrom(out, coefs, k, 0, p) == coefs
    ensures forall e :: AdaptFrom(out, coefs, 0, e, p) == coefs
  {
  }

  /** Adapts one coefficient to the sign of the residual; what is left of the residual is for the next. */
  method AdaptOne(bufferOut: array<int>, base: nat, coefTable: array<int>, coefNum: nat, predictorNum: nat,
                  errorVal: int, p: FirParams)
    returns (left: int)
    requires coefNum <= coefTable.Length && base + coefNum < bufferOut.Length && bufferOut != coefTable
    requires predictorNum < coefNum && errorVal != 0
    modifies coefTable
    ensures AdaptFrom(bufferOut[..base + coefNum + 1], coefTable[..coefNum], predictorNum, Clip(left, errorVal > 0), p)
            == AdaptFrom(bufferOut[..base + coefNum + 1], old(coefTable[..coefNum]), predictorNum + 1, errorVal, p)
  {
    hide *;
    ghost var out, coefs := bufferOut[..base + coefNum + 1], coefTable[..coefNum];
    var val := bufferOut[base] - bufferOut[base + coefNum - predictorNum];
    AdaptStep(out, coefs, coefNum, predictorNum, val, errorVal, p);
    var sign := if errorVal > 0 then Sign(val) else -Sign(val);
    coefTable[predictorNum] := Wrap16(coefTable[predictorNum] - sign);
    assert coefTable[..coefNum] == coefs[predictorNum := Wrap16(coefs[predictorNum] - sign)];
    left := errorVal - Shr(val * sign, p.quant) * (coefNum - predictorNum);
  }

  /** Adapts the table in place, from the last coefficient down, to the sign of the residual. */
  method AdaptCoefficients(bufferOut: array<int>, base: nat, coefTable: array<int>, coefNum: nat, err: int,
                           p: FirParams)
    requires coefNum <= coefTable.Length && base + coefNum < bufferOut.Length && bufferOut != coefTable
    modifies coefTable
    ensures coefTable[..coefNum]
            == AdaptFrom(bufferOut[..base + coefNum + 1], old(coefTable[..coefNum]), coefNum, err, p)
    ensures Adapted(bufferOut[..base + coefNum + 1], old(coefTable[..coefNum]), coefTable[..coefNum], coefNum, err,
                    p.quant)
  {
    hide AdaptFrom, Adapted;
    ghost var out := bufferOut[..base + coefNum + 1];
    ghost var goal := AdaptFrom(out, coefTable[..coefNum], coefNum, err, p);
    AdaptsExactly(out, coefTable[..coefNum], coefNum, err, p);
    var errorVal := err;
    var predictorNum := coefNum - 1;
    if err > 0 {
      while predictorNum >= 0 && errorVal > 0
        invariant -1 <= predictorNum < coefNum
        invariant goal == AdaptFrom(out, coefTable[..coefNum], predictorNum + 1, Clip(errorVal, true), p)
      {
        errorVal := AdaptOne(bufferOut, base, coefTable, coefNum, predictorNum, errorVal, p);
        predictorNum := predictorNum - 1;
      }
    } else if err < 0 {
      while predictorNum >= 0 && errorVal < 0
        invariant -1 <= predictorNum < coefNum
        invariant goal == AdaptFrom(out, coefTable[..coefNum], predictorNum + 1, Clip(errorVal, false), p)
      {
        errorVal := AdaptOne(bufferOut, base, coefTable, coefNum, predictorNum, errorVal, p);
        predictorNum := predictorNum - 1;
      }
    }
    AdaptStop(out, coefTable[..coefNum], predictorNum + 1, p);
  }

  /** Delta samples from index 1 up to `limit`: the whole buffer in delta mode, the warm-up
      samples in the general mode. */
  method AddDeltas(errorBuffer: array<int>, bufferOut: array<int>, limit: nat, p: FirParams,
                   ghost errs: seq<int>, ghost coefs: seq<int>)
    requires p.Valid() && errorBuffer != bufferOut && coefs != []
    requires 1 <= limit <= |errs| <= errorBuffer.Length && limit <= bufferOut.Length
    requires errorBuffer[..|errs|] == errs
    requires |coefs| == DELTA_MODE || limit <= |coefs| + 1
    modifies bufferOut
    ensures DecodeFrom(bufferOut[..limit], errs, coefs, p) == DecodeFrom(old(bufferOut[..1]), errs, coefs, p)
    ensures bufferOut[limit..] == old(bufferOut[limit..])
  {
    hide Predict, Reconstruct, Adapt, Wrap32, SignExtend, DecodeFrom;
    var i := 1;
    while i < limit
      invariant 1 <= i <= limit
      invariant bufferOut[limit..] == old(bufferOut[limit..])
      invariant DecodeFrom(bufferOut[..i], errs, coefs, p) == DecodeFrom(old(bufferOut[..1]), errs, coefs, p)
    {
      ghost var out := bufferOut[..i];
      DecodeStep(out, errs, coefs, p);
      DeltaStep(out, coefs, errs[i], p);
      bufferOut[i] := SignExtend(Wrap32(bufferOut[i - 1] + errorBuffer[i]), p.sampleBits);
      assert bufferOut[..i + 1] == out + [bufferOut[i]];
      i := i + 1;
    }
  }

  /** Sample i of the general mode, and the adaptation it causes. */
  method PredictSample(errorBuffer: array<int>, bufferOut: array<int>, i: nat, p: FirParams, coefTable: array<int>,
                       coefNum: nat, ghost errs: seq<int>)
    requires p.Valid() && p.quant >= 1 && 0 < coefNum < i < |errs| && coefNum != DELTA_MODE
    requires errorBuffer != bufferOut && bufferOut != coefTable && errorBuffer != coefTable
    requires |errs| <= errorBuffer.Length && errorBuffer[..|errs|] == errs
    requires i < bufferOut.Length && coefNum <= coefTable.Length
    modifies bufferOut, coefTable
    ensures DecodeFrom(bufferOut[..i + 1], errs, coefTable[..coefNum], p)
            == DecodeFrom(old(bufferOut[..i]), errs, old(coefTable[..coefNum]), p)
  {
    hide Predict, Reconstruct, Adapt, WeightedSum, Wrap32, SignExtend, Shr, Pow2, DecodeFrom, AdaptFrom;
    ghost var out, coefs := bufferOut[..i], coefTable[..coefNum];
    var base := i - coefNum - 1;
    var errorVal := errorBuffer[i];
    DecodeStep(out, errs, coefs, p);
    var sum := PredictorSum(bufferOut, base, coefTable, coefNum);
    GeneralStep(out, coefs, errorVal, p, sum);
    var outval := Shr(Wrap32(Pow2(p.quant - 1) + sum), p.quant);
    outval := SignExtend(Wrap32(outval + bufferOut[base] + errorVal), p.sampleBits);
    bufferOut[i] := outval;
    assert bufferOut[..i + 1] == out + [outval];
    assert bufferOut[..base + coefNum + 1] == out;
    AdaptCoefficients(bufferOut, base, coefTable, coefNum, errorVal, p);
    GeneralAdapt(out, coefs, errorVal, p);
  }

  /** Residuals to samples, in place: the buffer and the table end as the prediction says. */
  method PredictorDecompressFirAdapt(errorBuffer: array<int>, bufferOut: array<int>, outputSize: nat, p: FirParams,
                                     coefTable: array<int>, coefNum: nat)
    requires p.Valid() && errorBuffer != bufferOut && bufferOut != coefTable && errorBuffer != coefTable
    requires 1 <= errorBuffer.Length && 1 <= bufferOut.Length && coefNum <= coefTable.Length
    requires outputSize <= errorBuffer.Length && outputSize <= bufferOut.Length
    requires coefNum == 0 || coefNum == DELTA_MODE || (coefNum < outputSize && p.quant >= 1)
    modifies bufferOut, coefTable
    ensures (bufferOut[..outputSize], coefTable[..coefNum])
            == DecodeFir(errorBuffer[..outputSize], old(coefTable[..coefNum]), p)
  {
    hide DecodeFrom, DecodeFir;
    ghost var errs, coefs := errorBuffer[..outputSize], coefTable[..coefNum];
    FirstSample(errs, coefs, p);
    bufferOut[0] := errorBuffer[0];
    if coefNum == 0 {
      assert coefs == [] && coefTable[..coefNum] == [];
      if outputSize <= 1 {
        assert bufferOut[..outputSize] == errs;
        return;
      }
      forall i | 1 <= i < outputSize {
        bufferOut[i] := errorBuffer[i];
      }
      assert bufferOut[..outputSize] == errs && errs[..1] == [errs[0]];
      CopyMode(errs, 1, p);
      assert errorBuffer[..outputSize] == errs && coefTable[..coefNum] == [];
      return;
    }
    assert outputSize > 0 ==> bufferOut[..1] == [errs[0]];
    if coefNum == DELTA_MODE {
      if outputSize <= 1 {
        assert bufferOut[..outputSize] == errs;
        return;
      }
      AddDeltas(errorBuffer, bufferOut, outputSize, p, errs, coefs);
    } else {
      AddDeltas(errorBuffer, bufferOut, coefNum + 1, p, errs, coefs);
      var i := coefNum + 1;
      while i < outputSize
        invariant coefNum < i <= outputSize
        invariant errorBuffer[..outputSize] == errs
        invariant DecodeFrom(bufferOut[..i], errs, coefTable[..coefNum], p) == DecodeFir(errs, coefs, p)
      {
        PredictSample(errorBuffer, bufferOut, i, p, coefTable, coefNum, errs);
        i := i + 1;
      }
    }
    DecodeEnd(bufferOut[..outputSize], errs, coefTable[..coefNum], p);
  }

  lemma FirstSample(errs: seq<int>, coefs: seq<int>, p: FirParams)
    requires p.Valid()
    ensures errs == [] ==> DecodeFir(errs, coefs, p) == ([], coefs)
    ensures errs != [] ==> DecodeFir(errs, coefs, p) == DecodeFrom([errs[0]], errs, coefs, p)
    ensures |errs| == 1 ==> DecodeFir(errs, coefs, p) == (errs, coefs)
  {
    if errs != [] {
      assert [] + [errs[0]] == [errs[0]];
      if |errs| == 1 {
        assert [errs[0]] == errs;
      }
    }
  }

  lemma GeneralAdapt(out: seq<int>, coefs: seq<int>, err: int, p: FirParams)
    requires coefs != [] && |coefs| != DELTA_MODE && |coefs| < |out|
    ensures Adapt(out, coefs, err, p) == AdaptFrom(out, coefs, |coefs|, err, p)
  {
  }

  lemma DecodeEnd(out: seq<int>, errs: seq<int>, coefs: seq<int>, p: FirParams)
    requires p.Valid() && |out| == |errs|
    ensures DecodeFrom(out, errs, coefs, p) == (out, coefs)
  {
  }

  /** Writes sample pair i behind the pairs before it. */
  method PutPair(bufferOut: array<int>, i: nat, n: nat, left: int, right: int)
    requires i < n && 2 * n <= bufferOut.Length
    modifies bufferOut
    ensures bufferOut[..2 * (i + 1)] == old(bufferOut[..2 * i]) + [left, right]
    ensures bufferOut[2 * n..] == old(bufferOut[2 * n..])
  {
    bufferOut[2 * i] := left;
    bufferOut[2 * i + 1] := right;
  }

  lemma PairStep(a: seq<int>, b: seq<int>, i: nat, shift: nat, weight: nat)
    requires i < |a| && i < |b|
    ensures var right := if weight == 0 then Wrap16(b[i]) else Wrap16(a[i] - Shr(b[i] * weight, shift));
            var left := if weight == 0 then Wrap16(a[i]) else Wrap16(right + b[i]);
            Interleave(a, b, i + 1, shift, weight) == Interleave(a, b, i, shift, weight) + [left, right]
  {
    hide Wrap16, Shr;
  }

  /** Writes n interleaved pairs to the front of the PCM buffer. */
  method Deinterlace16(bufferA: array<int>, bufferB: array<int>, bufferOut: array<int>, numSamples: nat,
                       interlacingShift: nat, interlacingLeftWeight: nat)
    requires numSamples <= bufferA.Length && numSamples <= bufferB.Length && 2 * numSamples <= bufferOut.Length
    requires bufferOut != bufferA && bufferOut != bufferB
    modifies bufferOut
    ensures bufferOut[..2 * numSamples]
            == Interleave(bufferA[..numSamples], bufferB[..numSamples], numSamples, interlacingShift,
                          interlacingLeftWeight)
    ensures bufferOut[2 * numSamples..] == old(bufferOut[2 * numSamples..])
  {
    hide *;
    ghost var a, b := bufferA[..numSamples], bufferB[..numSamples];
    ghost var tail := bufferOut[2 * numSamples..];
    var i := 0;
    if interlacingLeftWeight != 0 {
      while i < numSamples
        invariant 0 <= i <= numSamples
        invariant bufferA[..numSamples] == a && bufferB[..numSamples] == b && bufferOut[2 * numSamples..] == tail
        invariant bufferOut[..2 * i] == Interleave(a, b, i, interlacingShift, interlacingLeftWeight)
      {
        PairStep(a, b, i, interlacingShift, interlacingLeftWeight);
        var midright, difference := bufferA[i], bufferB[i];
        var right := Wrap16(midright - Shr(difference * interlacingLeftWeight, interlacingShift));
        var left := Wrap16(right + difference);
        PutPair(bufferOut, i, numSamples, left, right);
        i := i + 1;
      }
    } else {
      while i < numSamples
        invariant 0 <= i <= numSamples
        invariant bufferA[..numSamples] == a && bufferB[..numSamples] == b && bufferOut[2 * numSamples..] == tail
        invariant bufferOut[..2 * i] == Interleave(a, b, i, interlacingShift, interlacingLeftWeight)
      {
        PairStep(a, b, i, interlacingShift, interlacingLeftWeight);
        PutPair(bufferOut, i, numSamples, Wrap16(bufferA[i]), Wrap16(bufferB[i]));
        i := i + 1;
      }
    }
  }
}
