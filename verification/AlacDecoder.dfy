/** The ALAC decoder as it runs: a byte pointer with a bit offset, and sample buffers filled in
    place. Every method is proved against the function that says what the stream means. */
module AlacDecoder {
  import opened Wrappers
  import opened Arith
  import opened BitStream
  import opened AlacReader
  import opened AlacEntropy
  import opened AlacPredictor
  import opened AlacMix
  import opened AlacFrame
  import opened AlacBuffers

  lemma SliceInTwo(s: seq<int>, i: nat, j: nat)
    requires i < j <= |s|
    ensures s[i..j] == [s[i]] + s[i + 1..j]
  {
  }

  class AlacFile {
    // input_buffer, as the buffer it started in and how far it has moved, and the bits already
    // read from the byte it points at
    var input: seq<byte>
    var ptr: nat
    var bitAccumulator: int

    const cfg: Config
    const predictErrorA: array<int>
    const predictErrorB: array<int>
    const outputSamplesA: array<int>
    const outputSamplesB: array<int>

    /** The buffers hold one frame and are distinct. */
    ghost predicate Valid() {
      && cfg.Valid()
      && predictErrorA.Length == predictErrorB.Length == cfg.maxSamples
      && outputSamplesA.Length == outputSamplesB.Length == cfg.maxSamples
      && predictErrorA != predictErrorB && outputSamplesA != outputSamplesB
      && predictErrorA != outputSamplesA && predictErrorA != outputSamplesB
      && predictErrorB != outputSamplesA && predictErrorB != outputSamplesB
    }

    /** Bits already read. */
    ghost function Position(): int
      reads this
    {
      8 * ptr + bitAccumulator
    }

    ghost predicate Reading()
      reads this
    {
      0 <= bitAccumulator < 8 && Position() <= 8 * |input|
    }

    /** The bits not yet read. */
    ghost function Rest(): seq<bool>
      requires Reading()
      reads this
    {
      BitsOf(input)[Position()..]
    }

    constructor (cfg: Config)
      requires cfg.Valid()
      ensures Valid() && this.cfg == cfg
      ensures fresh(predictErrorA) && fresh(predictErrorB) && fresh(outputSamplesA) && fresh(outputSamplesB)
    {
      this.cfg := cfg;
      input, ptr, bitAccumulator := [], 0, 0;
      predictErrorA := new int[cfg.maxSamples];
      predictErrorB := new int[cfg.maxSamples];
      outputSamplesA := new int[cfg.maxSamples];
      outputSamplesB := new int[cfg.maxSamples];
    }

    /** 1 to 16 bits, big-endian, out of the three bytes at the pointer. */
    method Read16(bits: nat) returns (result: nat)
      requires Reading() && 1 <= bits <= 16 && |Rest()| > 16
      modifies this`ptr, this`bitAccumulator
      ensures Reading() && Position() == old(Position()) + bits
      ensures result == Val(old(Rest())[..bits])
    {
      hide Word24, Pow2, Val, BitsOf;
      Read16Value(input, ptr, bitAccumulator, bits);
      result := Word24(input, ptr) * Pow2(bitAccumulator) % Pow2(24) / Pow2(24 - bits);
      var newAccumulator := bitAccumulator + bits;
      ptr := ptr + newAccumulator / 8;
      bitAccumulator := newAccumulator % 8;
    }

    /** 1 to 32 bits, big-endian. */
    method ReadBits(bits: nat) returns (result: nat)
      requires Reading() && 1 <= bits <= 32 && BitStream.ReadBits(Rest(), bits).Some?
      modifies this`ptr, this`bitAccumulator
      ensures Reading() && Position() == old(Position()) + bits
      ensures Some((result, Rest())) == BitStream.ReadBits(old(Rest()), bits)
    {
      hide BitsOf, Val, Pow2;
      if bits > 16 {
        SplitRead(Rest(), bits);
        var high := Read16(16);
        var low := Read16(bits - 16);
        result := high * Pow2(bits - 16) + low;
      } else {
        result := Read16(bits);
      }
    }

    method ReadBit() returns (result: bool)
      requires Reading() && Rest() != []
      modifies this`ptr, this`bitAccumulator
      ensures Reading() && Position() == old(Position()) + 1
      ensures result == old(Rest())[0]
    {
      var b: int := input[ptr];
      result := b * Pow2(bitAccumulator) / 128 % 2 == 1;
      ReadBitValue(input, ptr, bitAccumulator);
      var newAccumulator := bitAccumulator + 1;
      ptr := ptr + newAccumulator / 8;
      bitAccumulator := newAccumulator % 8;
    }

    /** Steps back over bits already read. */
    method UnreadBits(bits: nat)
      requires Reading() && bits <= Position()
      modifies this`ptr, this`bitAccumulator
      ensures Reading() && Position() == old(Position()) - bits
    {
      var newAccumulator := bitAccumulator - bits;
      ptr := ptr + newAccumulator / 8;
      bitAccumulator := newAccumulator % 8;
    }

    /** Counts the ones of a quotient, up to one past the threshold. */
    method ReadPrefix() returns (x: nat)
      requires Reading() && Ones(Rest(), 0).Some?
      modifies this`ptr, this`bitAccumulator
      ensures Reading() && Some((x, Rest())) == Ones(old(Rest()), 0)
    {
      hide BitsOf;
      ghost var start := Rest();
      x := 0;
      var more := true;
      while x <= RICE_THRESHOLD && more
        invariant Reading() && x <= RICE_THRESHOLD + 1
        invariant Ones(start, 0) == if more then Ones(Rest(), x) else Some((x, Rest()))
        decreases RICE_THRESHOLD + 1 - x, more
      {
        ghost var s := Rest();
        more := ReadBit();
        assert Rest() == s[1..];
        if more {
          x := x + 1;
        }
      }
    }

    /** One Rice value or escaped value. maskBits is the width of the caller's all-ones mask. */
    method EntropyDecodeValue(readSampleSize: nat, k: nat, maskBits: nat) returns (x: nat)
      requires 1 <= readSampleSize <= 32 && 1 <= k <= 16 && maskBits >= 1
      requires Reading() && DecodeValue(Rest(), readSampleSize, k, maskBits).Some?
      modifies this`ptr, this`bitAccumulator
      ensures Reading()
      ensures Some((x, Rest())) == DecodeValue(old(Rest()), readSampleSize, k, maskBits)
    {
      hide BitsOf, Val, Pow2, Ones, Multiplier;
      x := ReadPrefix();
      if x > RICE_THRESHOLD {
        x := ReadBits(readSampleSize);
      } else if k != 1 {
        x := ScaledRemainder(x, k, maskBits);
      }
    }

    /** The k-bit remainder behind quotient q, the last bit given back when it says 0 or 1. */
    method ScaledRemainder(q: nat, k: nat, maskBits: nat) returns (x: nat)
      requires 2 <= k <= 16 && maskBits >= 1 && Reading() && InBounds(Rest(), k)
      modifies this`ptr, this`bitAccumulator
      ensures Reading() && q * Multiplier(k, maskBits) >= 0
      ensures var extra := Val(old(Rest())[..k]);
        if extra > 1 then x == q * Multiplier(k, maskBits) + extra - 1 && Rest() == old(Rest())[k..]
        else x == q * Multiplier(k, maskBits) && Rest() == old(Rest())[k - 1..]
    {
      MulMonotone(0, q, Multiplier(k, maskBits));
      x := q * (Pow2(if k < maskBits then k else maskBits) - 1);
      var extraBits := ReadBits(k);
      if extraBits > 1 {
        x := x + extraBits - 1;
      } else {
        UnreadBits(1);
      }
    }

    /** The Rice parameter the running history calls for. */
    static method ParamOf(history: int, kModifier: nat) returns (k: int)
      requires ValidHistory(history)
      ensures k == SampleParam(history, kModifier)
    {
      k := 31 - kModifier - CountLeadingZeros(history / 512 + 3);
      if k < 0 {
        k := k + kModifier;
      } else {
        k := kModifier;
      }
    }

    /** The running history after a decoded value. */
    static method UpdateHistory(was: int, decodedValue: nat, multiplier: nat) returns (history: int)
      ensures history == NextHistory(was, decodedValue, multiplier)
    {
      history := was;
      history := history + (decodedValue * multiplier - history * multiplier / 512);
      if decodedValue > 0xFFFF {
        history := 0xFFFF;
      }
    }

    /** One turn of the decoding: a sample, and the zero run behind it when the history has run dry. */
    method RiceTurn(outputBuffer: array<int>, outputSize: nat, p: RiceParams, outputCount: nat, was: int, carried: nat)
      returns (next: nat, history: int, signModifier: nat)
      requires p.Valid() && outputCount < outputSize <= outputBuffer.Length && ValidHistory(was) && carried <= 1
      requires Reading() && DecodeRice(Rest(), outputSize - outputCount, was, carried, p).Some?
      modifies this`ptr, this`bitAccumulator, outputBuffer
      ensures Reading() && outputCount < next <= outputSize && ValidHistory(history) && signModifier <= 1
      ensures outputBuffer[..outputCount] == old(outputBuffer[..outputCount])
      ensures Continues(DecodeRice(old(Rest()), outputSize - outputCount, was, carried, p),
                        outputBuffer[outputCount..next],
                        DecodeRice(Rest(), outputSize - next, history, signModifier, p))
    {
      hide DecodeRice, DecodeValue, BitsOf, CountLeadingZeros, NextHistory, FitsInt32, SampleParam, Log2, Pow2;
      RiceStep(Rest(), outputSize - outputCount, was, carried, p);
      var k := ParamOf(was, p.kModifier);
      var decodedValue := EntropyDecodeValue(p.sampleBits, k, 32);
      decodedValue := decodedValue + carried;
      var finalValue: int := (decodedValue + 1) / 2;
      if decodedValue % 2 == 1 {
        finalValue := -finalValue;
      }
      outputBuffer[outputCount] := finalValue;
      signModifier := 0;
      history := UpdateHistory(was, decodedValue, p.multiplier);

      var blockSize := 0;
      if history < 128 && outputCount + 1 < outputSize {
        signModifier := 1;
        var runParam := CountLeadingZeros(history) + (history + 16) / 64 - 24;
        blockSize := EntropyDecodeValue(16, runParam, p.kModifier);
        ClearRun(outputBuffer, outputCount + 1, blockSize);
        if blockSize > 0xFFFF {
          signModifier := 0;
        }
        history := 0;
      }
      next := outputCount + 1 + blockSize;
      assert outputBuffer[outputCount + 1..next] == Repeat(0, blockSize);
      assert outputBuffer[..outputCount + 1][outputCount] == finalValue;
      SliceInTwo(outputBuffer[..], outputCount, next);
      assert outputBuffer[outputCount..next] == [finalValue] + Repeat(0, blockSize);
    }

    /** Writes a run of n zeros behind the first `start` samples. */
    static method ClearRun(outputBuffer: array<int>, start: nat, n: nat)
      requires start + n <= outputBuffer.Length
      modifies outputBuffer
      ensures outputBuffer[..start] == old(outputBuffer[..start])
      ensures outputBuffer[start..start + n] == Repeat(0, n)
    {
      forall i | 0 <= i < n {
        outputBuffer[start + i] := 0;
      }
    }

    /** One channel's residuals, written to the front of `outputBuffer`. */
    method EntropyRiceDecode(outputBuffer: array<int>, outputSize: nat, p: RiceParams, initialHistory: int)
      requires p.Valid() && ValidHistory(initialHistory) && outputSize <= outputBuffer.Length
      requires Reading() && DecodeRice(Rest(), outputSize, initialHistory, 0, p).Some?
      modifies this`ptr, this`bitAccumulator, outputBuffer
      ensures Reading()
      ensures Some((outputBuffer[..outputSize], Rest()))
              == DecodeRice(old(Rest()), outputSize, initialHistory, 0, p)
    {
      hide DecodeRice, BitsOf;
      ghost var whole := DecodeRice(Rest(), outputSize, initialHistory, 0, p);
      var history := initialHistory;
      var signModifier := 0;
      var outputCount := 0;
      while outputCount < outputSize
        invariant Reading() && 0 <= outputCount <= outputSize
        invariant ValidHistory(history) && 0 <= signModifier <= 1
        invariant Continues(whole, outputBuffer[..outputCount],
                            DecodeRice(Rest(), outputSize - outputCount, history, signModifier, p))
      {
        ghost var done := outputBuffer[..outputCount];
        ghost var here := DecodeRice(Rest(), outputSize - outputCount, history, signModifier, p);
        var next;
        next, history, signModifier := RiceTurn(outputBuffer, outputSize, p, outputCount, history, signModifier);
        ghost var more := outputBuffer[outputCount..next];
        assert outputBuffer[..next] == done + more;
        outputCount := next;
        ContinuesTrans(whole, done, here, more, DecodeRice(Rest(), outputSize - outputCount, history, signModifier, p));
      }
      RiceEnd(Rest(), history, signModifier, p);
      assert outputBuffer[..outputSize] + [] == outputBuffer[..outputSize];
    }

    /** Reads n coefficients to the front of the table. */
    method ReadTable(coefTable: array<int>, n: nat)
      requires Reading() && n <= coefTable.Length && ReadCoefs(Rest(), n).Some?
      modifies this`ptr, this`bitAccumulator, coefTable
      ensures Reading() && Some((coefTable[..n], Rest())) == ReadCoefs(old(Rest()), n)
    {
      hide BitsOf, BitStream.ReadBits, Wrap16, ReadCoefs;
      CoefsStep(Rest(), n);
      ghost var whole := ReadCoefs(Rest(), n).value;
      var i := 0;
      while i < n
        invariant Reading() && 0 <= i <= n
        invariant ReadCoefs(Rest(), n - i).Some?
        invariant whole.0 == coefTable[..i] + ReadCoefs(Rest(), n - i).value.0
        invariant whole.1 == ReadCoefs(Rest(), n - i).value.1
      {
        ghost var done := coefTable[..i];
        CoefsStep(Rest(), n - i);
        var v := ReadBits(16);
        coefTable[i] := Wrap16(v);
        assert coefTable[..i + 1] == done + [Wrap16(v)];
        i := i + 1;
      }
      CoefsStep(Rest(), 0);
      assert coefTable[..n] + [] == coefTable[..n];
    }

    /** One channel's prediction settings; the coefficients go to the front of the table. */
    method ReadChannelHeader(coefTable: array<int>)
      returns (predictionType: nat, quantization: nat, riceModifier: nat, coefNum: nat)
      requires Reading() && ReadHeader(Rest()).Some? && coefTable.Length == 32
      modifies this`ptr, this`bitAccumulator, coefTable
      ensures Reading() && coefNum < 32
      ensures Some((ChannelHeader(predictionType, quantization, riceModifier, coefTable[..coefNum]), Rest()))
              == ReadHeader(old(Rest()))
    {
      assert Pow2(5) == 32;
      hide BitsOf, InBounds, Wrap16, ReadCoefs, Pow2;
      predictionType := ReadBits(4);
      quantization := ReadBits(4);
      riceModifier := ReadBits(3);
      coefNum := ReadBits(5);
      ReadTable(coefTable, coefNum);
    }

    /** Entropy decoding and prediction of one channel. */
    method ReadChannel(predictError: array<int>, outputSamples: array<int>, outputSize: nat, ghost h: ChannelHeader,
                       quantization: nat, riceModifier: nat, coefTable: array<int>, coefNum: nat)
      requires cfg.Valid() && Reading() && DecodeChannel(Rest(), outputSize, h, cfg).Some?
      requires h.quant == quantization && h.riceModifier == riceModifier
      requires coefNum <= coefTable.Length && h.coefs == coefTable[..coefNum]
      requires outputSize <= cfg.maxSamples == predictError.Length == outputSamples.Length
      requires predictError != outputSamples && predictError != coefTable && outputSamples != coefTable
      modifies this`ptr, this`bitAccumulator, predictError, outputSamples, coefTable
      ensures Reading()
      ensures Some((outputSamples[..outputSize], Rest())) == DecodeChannel(old(Rest()), outputSize, h, cfg)
    {
      hide BitsOf, DecodeRice, DecodeFir;
      MulMonotone(0, riceModifier, cfg.historyMult);
      var p := RiceParams(CHANNEL_BITS, cfg.kModifier, riceModifier * cfg.historyMult / 4);
      assert p == RiceOf(h, cfg);
      EntropyRiceDecode(predictError, outputSize, p, cfg.initialHistory);
      PredictorDecompressFirAdapt(predictError, outputSamples, outputSize, FirParams(CHANNEL_BITS, quantization),
                                  coefTable, coefNum);
    }

    /** The stereo branch from the shift on, for a compressed frame. */
    method ReadCompressed(outputSize: nat) returns (shift: nat, weight: nat)
      requires Valid() && Reading() && outputSize <= cfg.maxSamples && DecodeCompressed(Rest(), outputSize, cfg).Some?
      modifies this`ptr, this`bitAccumulator, predictErrorA, predictErrorB, outputSamplesA, outputSamplesB
      ensures Reading()
      ensures Some(Decoded(Interleave(outputSamplesA[..outputSize], outputSamplesB[..outputSize], outputSize, shift,
                                      weight),
                           BYTES_PER_SAMPLE * outputSize, Rest()))
              == DecodeCompressed(old(Rest()), outputSize, cfg)
    {
      hide BitsOf, InBounds, Val, ReadHeader, DecodeChannel, Interleave;
      shift := ReadBits(8);
      weight := ReadBits(8);
      var tableA, tableB := new int[32], new int[32];
      ghost var s2 := Rest();
      var typeA, quantA, riceA, numA := ReadChannelHeader(tableA);
      ghost var ha := ChannelHeader(typeA, quantA, riceA, tableA[..numA]);
      ghost var s3 := Rest();
      var typeB, quantB, riceB, numB := ReadChannelHeader(tableB);
      ghost var hb := ChannelHeader(typeB, quantB, riceB, tableB[..numB]);
      assert ha.coefs == tableA[..numA];
      ReadChannel(predictErrorA, outputSamplesA, outputSize, ha, quantA, riceA, tableA, numA);
      ghost var a := outputSamplesA[..outputSize];
      assert hb.coefs == tableB[..numB];
      ReadChannel(predictErrorB, outputSamplesB, outputSize, hb, quantB, riceB, tableB, numB);
      assert outputSamplesA[..outputSize] == a;
    }

    /** Sample pair i of an uncompressed frame. */
    method ReadPair(i: nat, n: nat)
      requires Valid() && Reading() && i < cfg.maxSamples && n > 0 && ReadPairs(Rest(), n).Some?
      modifies this`ptr, this`bitAccumulator, outputSamplesA, outputSamplesB
      ensures Reading() && ReadPairs(Rest(), n - 1).Some?
      ensures outputSamplesA[..i] == old(outputSamplesA[..i]) && outputSamplesB[..i] == old(outputSamplesB[..i])
      ensures var (a, b, s) := ReadPairs(Rest(), n - 1).value;
        ReadPairs(old(Rest()), n) == Some(([outputSamplesA[i]] + a, [outputSamplesB[i]] + b, s))
    {
      hide BitsOf, BitStream.ReadBits, SignExtend, ReadPairs;
      PairsStep(Rest(), n);
      var audioA := ReadBits(16);
      var audioB := ReadBits(16);
      outputSamplesA[i] := SignExtend(audioA, 16);
      outputSamplesB[i] := SignExtend(audioB, 16);
    }

    /** The stereo branch for an uncompressed frame. */
    method ReadPlain(outputSize: nat)
      requires Valid() && Reading() && outputSize <= cfg.maxSamples && ReadPairs(Rest(), outputSize).Some?
      modifies this`ptr, this`bitAccumulator, outputSamplesA, outputSamplesB
      ensures Reading()
      ensures Some((outputSamplesA[..outputSize], outputSamplesB[..outputSize], Rest()))
              == ReadPairs(old(Rest()), outputSize)
    {
      hide BitsOf, ReadPairs;
      ghost var start := Rest();
      var i := 0;
      while i < outputSize
        invariant Reading() && 0 <= i <= outputSize
        invariant ReadPairs(Rest(), outputSize - i).Some? && ReadPairs(start, outputSize).Some?
        invariant ReadPairs(start, outputSize).value.0
                  == outputSamplesA[..i] + ReadPairs(Rest(), outputSize - i).value.0
        invariant ReadPairs(start, outputSize).value.1
                  == outputSamplesB[..i] + ReadPairs(Rest(), outputSize - i).value.1
        invariant ReadPairs(start, outputSize).value.2 == ReadPairs(Rest(), outputSize - i).value.2
      {
        ghost var doneA, doneB := outputSamplesA[..i], outputSamplesB[..i];
        ReadPair(i, outputSize - i);
        assert outputSamplesA[..i + 1] == doneA + [outputSamplesA[i]];
        assert outputSamplesB[..i + 1] == doneB + [outputSamplesB[i]];
        i := i + 1;
      }
      PairsStep(Rest(), 0);
      assert outputSamplesA[..outputSize] + [] == outputSamplesA[..outputSize];
      assert outputSamplesB[..outputSize] + [] == outputSamplesB[..outputSize];
    }

    /** The whole stereo branch behind the frame header. */
    method ReadBody(outbuffer: array<int>, outputSize: nat, uncompressedBytes: nat, isNotCompressed: nat)
      requires Valid() && Reading() && DecodeBody(Rest(), outputSize, uncompressedBytes, isNotCompressed, cfg).Some?
      requires 2 * cfg.maxSamples <= outbuffer.Length && Separate(outbuffer)
      modifies this`ptr, this`bitAccumulator, predictErrorA, predictErrorB, outputSamplesA, outputSamplesB, outbuffer
      ensures Reading() && 2 * outputSize <= outbuffer.Length
      ensures Some(Decoded(outbuffer[..2 * outputSize], BYTES_PER_SAMPLE * outputSize, Rest()))
              == DecodeBody(old(Rest()), outputSize, uncompressedBytes, isNotCompressed, cfg)
      ensures outbuffer[2 * outputSize..] == old(outbuffer[2 * outputSize..])
    {
      hide BitsOf, ReadPairs, DecodeCompressed, Interleave;
      var shift, weight := 0, 0;
      if isNotCompressed == 0 {
        shift, weight := ReadCompressed(outputSize);
      } else {
        ReadPlain(outputSize);
      }
      Deinterlace16(outputSamplesA, outputSamplesB, outbuffer, outputSize, shift, weight);
    }

    /** The PCM buffer is none of the decoder's own. */
    ghost predicate Separate(outbuffer: array<int>) {
      && outbuffer != predictErrorA && outbuffer != predictErrorB
      && outbuffer != outputSamplesA && outbuffer != outputSamplesB
    }

    /** One frame: fills the front of the PCM buffer as the frame's meaning says and reports its
        size, or size 0 when the buffer of `capacity` bytes is too small. */
    method DecodeFrame(inbuffer: seq<byte>, outbuffer: array<int>, capacity: int) returns (outputSize: int)
      requires Valid() && Separate(outbuffer) && capacity <= 2 * outbuffer.Length
      requires AlacFrame.DecodeFrame(BitsOf(inbuffer), cfg, capacity).Some?
      modifies this, predictErrorA, predictErrorB, outputSamplesA, outputSamplesB, outbuffer
      ensures Reading() && input == inbuffer
      ensures var d := AlacFrame.DecodeFrame(BitsOf(inbuffer), cfg, capacity).value;
        && outputSize == d.outputSize && Rest() == d.rest && |d.pcm| <= outbuffer.Length
        && outbuffer[..|d.pcm|] == d.pcm && outbuffer[|d.pcm|..] == old(outbuffer[|d.pcm|..])
    {
      hide BitsOf, BitStream.ReadBits, DecodeStereo;
      input, ptr, bitAccumulator := inbuffer, 0, 0;
      assert Rest() == BitsOf(inbuffer);
      var channels := ReadBits(3);
      outputSize := cfg.maxSamples * BYTES_PER_SAMPLE;
      if outputSize > capacity {
        outputSize := 0;
        return;
      }
      outputSize := ReadStereo(outbuffer, capacity, outputSize);
    }

    /** The stereo branch; `size` is the size of a full frame. */
    method ReadStereo(outbuffer: array<int>, capacity: int, size: int) returns (outputSize: int)
      requires Valid() && Separate(outbuffer) && size <= capacity <= 2 * outbuffer.Length
      requires size == cfg.maxSamples * BYTES_PER_SAMPLE
      requires Reading() && DecodeStereo(Rest(), cfg, capacity).Some?
      modifies this`ptr, this`bitAccumulator, predictErrorA, predictErrorB, outputSamplesA, outputSamplesB, outbuffer
      ensures Reading()
      ensures var d := DecodeStereo(old(Rest()), cfg, capacity).value;
        && outputSize == d.outputSize && Rest() == d.rest && |d.pcm| <= outbuffer.Length
        && outbuffer[..|d.pcm|] == d.pcm && outbuffer[|d.pcm|..] == old(outbuffer[|d.pcm|..])
    {
      hide BitsOf, BitStream.ReadBits, DecodeBody, Wrap32;
      outputSize := size;
      var tag := ReadBits(4);
      var reserved := ReadBits(12);
      var hasSize := ReadBits(1);
      var uncompressedBytes := ReadBits(2);
      var isNotCompressed := ReadBits(1);
      var outputSamples := cfg.maxSamples;
      if hasSize != 0 {
        outputSamples := ReadBits(32);
        outputSize := Wrap32(outputSamples * BYTES_PER_SAMPLE);
        if outputSize > capacity {
          outputSize := 0;
          return;
        }
      }
      SizeFits(Rest(), outputSamples, uncompressedBytes, isNotCompressed);
      ReadBody(outbuffer, outputSamples, uncompressedBytes, isNotCompressed);
    }

    lemma SizeFits(s: seq<bool>, n: nat, uncompressedBytes: nat, plain: nat)
      requires cfg.Valid() && DecodeBody(s, n, uncompressedBytes, plain, cfg).Some?
      ensures n <= cfg.maxSamples && Wrap32(n * BYTES_PER_SAMPLE) == n * BYTES_PER_SAMPLE
    {
      hide DecodeCompressed, ReadPairs;
      WrapIdentity(n * BYTES_PER_SAMPLE, 0x1_0000_0000);
    }
  }

  /** One turn of the decoding: a sample, and its zero run when the history has run dry. */
  lemma RiceStep(s: seq<bool>, n: nat, h: int, signModifier: nat, p: RiceParams)
    requires p.Valid() && ValidHistory(h) && signModifier <= 1 && n > 0
    requires DecodeRice(s, n, h, signModifier, p).Some?
    ensures 1 <= SampleParam(h, p.kModifier) <= 16
    ensures DecodeValue(s, p.sampleBits, SampleParam(h, p.kModifier), 32).Some?
    ensures
      var (x, s1) := DecodeValue(s, p.sampleBits, SampleParam(h, p.kModifier), 32).value;
      var h' := NextHistory(h, x + signModifier, p.multiplier);
      && ValidHistory(h')
      && if h' < 128 && n > 1 then
           && 2 <= RunParam(h') <= 8
           && DecodeValue(s1, RUN_BITS, RunParam(h'), p.kModifier).Some?
           && var (z, s2) := DecodeValue(s1, RUN_BITS, RunParam(h'), p.kModifier).value;
           && z <= n - 1
           && Continues(DecodeRice(s, n, h, signModifier, p), [Unfold(x + signModifier)] + Repeat(0, z),
                        DecodeRice(s2, n - 1 - z, 0, if z > 0xFFFF then 0 else 1, p))
         else
           Continues(DecodeRice(s, n, h, signModifier, p), [Unfold(x + signModifier)] + Repeat(0, 0),
                     DecodeRice(s1, n - 1, h', 0, p))
  {
    hide DecodeValue, CountLeadingZeros, NextHistory, FitsInt32, SampleParam, RunParam, Unfold;
    SampleParamMeaning(h, p.kModifier);
    var (x, s1) := DecodeValue(s, p.sampleBits, SampleParam(h, p.kModifier), 32).value;
    var h' := NextHistory(h, x + signModifier, p.multiplier);
    NextHistoryBounded(h, x + signModifier, p.multiplier);
    if h' < 128 && n > 1 {
      RunParamBounds(h');
    }
  }

  /** One turn of reading coefficients. */
  lemma CoefsStep(s: seq<bool>, n: nat)
    requires ReadCoefs(s, n).Some?
    ensures n == 0 ==> ReadCoefs(s, n) == Some(([], s))
    ensures n > 0 ==> (
      && BitStream.ReadBits(s, 16).Some?
      && var (v, s1) := BitStream.ReadBits(s, 16).value;
      && ReadCoefs(s1, n - 1).Some?
      && var (cs, s2) := ReadCoefs(s1, n - 1).value;
      && ReadCoefs(s, n) == Some(([Wrap16(v)] + cs, s2)))
  {
  }

  /** One turn of reading uncompressed pairs. */
  lemma PairsStep(s: seq<bool>, n: nat)
    requires ReadPairs(s, n).Some?
    ensures n == 0 ==> ReadPairs(s, n) == Some(([], [], s))
    ensures n > 0 ==> (
      && BitStream.ReadBits(s, 16).Some?
      && var (a, s1) := BitStream.ReadBits(s, 16).value;
      && BitStream.ReadBits(s1, 16).Some?
      && var (b, s2) := BitStream.ReadBits(s1, 16).value;
      && ReadPairs(s2, n - 1).Some?
      && var (la, lb, s3) := ReadPairs(s2, n - 1).value;
      && ReadPairs(s, n) == Some(([SignExtend(a, 16)] + la, [SignExtend(b, 16)] + lb, s3)))
  {
    hide SignExtend;
  }

  lemma RiceEnd(s: seq<bool>, h: int, signModifier: nat, p: RiceParams)
    requires p.Valid() && ValidHistory(h) && signModifier <= 1
    ensures DecodeRice(s, 0, h, signModifier, p) == Some(([], s))
  {
  }

  /** `whole` is the decoding that starts with `done` and goes on as `next` says. */
  predicate Continues(whole: Option<(seq<int>, seq<bool>)>, done: seq<int>, next: Option<(seq<int>, seq<bool>)>) {
    whole.Some? && next.Some? && whole.value.0 == done + next.value.0 && whole.value.1 == next.value.1
  }

  lemma ContinuesTrans(a: Option<(seq<int>, seq<bool>)>, ab: seq<int>, b: Option<(seq<int>, seq<bool>)>,
                       bc: seq<int>, c: Option<(seq<int>, seq<bool>)>)
    requires Continues(a, ab, b) && Continues(b, bc, c)
    ensures Continues(a, ab + bc, c)
  {
  }
}
