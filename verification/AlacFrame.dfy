/** A whole stereo ALAC frame: what the decoder makes of a bit string, and the encoder it inverts. */
module AlacFrame {
  import opened Wrappers
  import opened Arith
  import opened BitStream
  import opened AlacEntropy
  import opened AlacPredictor
  import opened AlacMix

  /** The decoder's settings from the stream description, for 16-bit stereo. */
  datatype Config = Config(maxSamples: nat, historyMult: nat, initialHistory: nat, kModifier: nat) {
    predicate Valid() {
      1 <= maxSamples <= 4096 && historyMult < 256 && initialHistory < 256 && 1 <= kModifier <= 31
    }
  }

  const BYTES_PER_SAMPLE := 4

  /** What one channel's header announces. */
  datatype ChannelHeader = ChannelHeader(predictionType: nat, quant: nat, riceModifier: nat, coefs: seq<int>)

  /** A decoded frame: interleaved PCM, the reported output size in bytes, the unread bits. */
  datatype Decoded = Decoded(pcm: seq<int>, outputSize: int, rest: seq<bool>) {
    predicate SizedFor(n: nat) {
      outputSize == BYTES_PER_SAMPLE * n && |pcm| == 2 * n
    }

    /** The reported size is that of the PCM, which is whole frames. */
    predicate Sized() {
      outputSize == 2 * |pcm| && |pcm| % 2 == 0
    }
  }

  lemma SizedForIsSized(d: Decoded, n: nat)
    requires d.SizedFor(n)
    ensures d.Sized()
  {
  }

  function RiceOf(h: ChannelHeader, cfg: Config): (p: RiceParams)
    requires cfg.Valid() && h.riceModifier < 8
    ensures p.Valid()
  {
    MulMonotone(h.riceModifier, 7, cfg.historyMult);
    MulMonotone(0, h.riceModifier, cfg.historyMult);
    RiceParams(CHANNEL_BITS, cfg.kModifier, h.riceModifier * cfg.historyMult / 4)
  }

  /** The history multiplier is a quarter of header's times stream's, and escaped samples have 17 bits. */
  lemma RiceOfHeader(h: ChannelHeader, cfg: Config)
    requires cfg.Valid() && h.riceModifier < 8
    ensures var p := RiceOf(h, cfg);
      && p.sampleBits == 17 && p.kModifier == cfg.kModifier
      && 4 * p.multiplier <= h.riceModifier * cfg.historyMult < 4 * (p.multiplier + 1)
  {
    MulMonotone(0, h.riceModifier, cfg.historyMult);
  }

  /** The predictor modes that keep the C code inside its buffers. */
  predicate Decodable(h: ChannelHeader, n: nat) {
    && h.predictionType == 0 && h.quant < 16 && h.riceModifier < 8
    && (|h.coefs| == 0 || |h.coefs| == DELTA_MODE || (|h.coefs| < n && h.quant >= 1))
  }

  // ----- decoding -----

  function ReadCoefs(s: seq<bool>, n: nat): (r: Option<(seq<int>, seq<bool>)>)
    ensures r.Some? ==> |r.value.0| == n
    decreases n
  {
    if n == 0 then Some(([], s))
    else
      var (v, s1) :- ReadBits(s, 16);
      var (cs, s2) :- ReadCoefs(s1, n - 1);
      Some(([Wrap16(v)] + cs, s2))
  }

  function ReadHeader(s: seq<bool>): Option<(ChannelHeader, seq<bool>)> {
    var (predictionType, s1) :- ReadBits(s, 4);
    var (quant, s2) :- ReadBits(s1, 4);
    var (riceModifier, s3) :- ReadBits(s2, 3);
    var (n, s4) :- ReadBits(s3, 5);
    var (coefs, s5) :- ReadCoefs(s4, n);
    Some((ChannelHeader(predictionType, quant, riceModifier, coefs), s5))
  }

  function DecodeChannel(s: seq<bool>, n: nat, h: ChannelHeader, cfg: Config): (r: Option<(seq<int>, seq<bool>)>)
    requires cfg.Valid()
    ensures r.Some? ==> |r.value.0| == n
  {
    if !Decodable(h, n) then None
    else
      var (errs, s1) :- DecodeRice(s, n, cfg.initialHistory, 0, RiceOf(h, cfg));
      Some((DecodeFir(errs, h.coefs, FirParams(CHANNEL_BITS, h.quant)).0, s1))
  }

  function DecodeCompressed(s: seq<bool>, n: nat, cfg: Config): (r: Option<Decoded>)
    requires cfg.Valid()
    ensures r.Some? ==> r.value.SizedFor(n)
  {
    var (shift, s1) :- ReadBits(s, 8);
    var (weight, s2) :- ReadBits(s1, 8);
    var (ha, s3) :- ReadHeader(s2);
    var (hb, s4) :- ReadHeader(s3);
    var (a, s5) :- DecodeChannel(s4, n, ha, cfg);
    var (b, s6) :- DecodeChannel(s5, n, hb, cfg);
    if weight != 0 && shift >= 32 then None
    else Some(Decoded(Interleave(a, b, n, shift, weight), BYTES_PER_SAMPLE * n, s6))
  }

  /** Uncompressed samples: n pairs of 16-bit values. */
  function ReadPairs(s: seq<bool>, n: nat): (r: Option<(seq<int>, seq<int>, seq<bool>)>)
    ensures r.Some? ==> |r.value.0| == |r.value.1| == n
    decreases n
  {
    if n == 0 then Some(([], [], s))
    else
      var (a, s1) :- ReadBits(s, 16);
      var (b, s2) :- ReadBits(s1, 16);
      var (la, lb, s3) :- ReadPairs(s2, n - 1);
      Some(([SignExtend(a, 16)] + la, [SignExtend(b, 16)] + lb, s3))
  }

  function DecodeBody(s: seq<bool>, n: nat, uncompressedBytes: nat, plain: nat, cfg: Config): (r: Option<Decoded>)
    requires cfg.Valid()
    ensures r.Some? ==> r.value.SizedFor(n)
  {
    if n > cfg.maxSamples then None
    else if plain != 0 then
      var (a, b, s1) :- ReadPairs(s, n);
      Some(Decoded(Interleave(a, b, n, 0, 0), BYTES_PER_SAMPLE * n, s1))
    else if uncompressedBytes != 0 then None
    else DecodeCompressed(s, n, cfg)
  }

  /** The sample count, if the frame names one, and the samples. */
  function DecodeSized(s: seq<bool>, hasSize: nat, uncompressedBytes: nat, plain: nat, cfg: Config, capacity: int)
    : (r: Option<Decoded>)
    requires cfg.Valid()
    ensures r.Some? ==> r.value.Sized()
  {
    if hasSize != 0 then
      var (n, s1) :- ReadBits(s, 32);
      if Wrap32(n * BYTES_PER_SAMPLE) > capacity then Some(Decoded([], 0, s1))
      else
        var d :- DecodeBody(s1, n, uncompressedBytes, plain, cfg);
        SizedForIsSized(d, n);
        Some(d)
    else
      var d :- DecodeBody(s, cfg.maxSamples, uncompressedBytes, plain, cfg);
      SizedForIsSized(d, cfg.maxSamples);
      Some(d)
  }

  /** The stereo branch behind the channel field. */
  function DecodeStereo(s: seq<bool>, cfg: Config, capacity: int): (r: Option<Decoded>)
    requires cfg.Valid()
    ensures r.Some? ==> r.value.Sized()
  {
    var (_, s2) :- ReadBits(s, 4);
    var (_, s3) :- ReadBits(s2, 12);
    var (hasSize, s4) :- ReadBits(s3, 1);
    var (uncompressedBytes, s5) :- ReadBits(s4, 2);
    var (plain, s6) :- ReadBits(s5, 1);
    DecodeSized(s6, hasSize, uncompressedBytes, plain, cfg, capacity)
  }

  /** The frame at the front of s, for an output buffer of `capacity` bytes. A frame that does not
      fit the output is reported with size 0. None stands for the mono and low-byte layouts, which
      16-bit stereo does not use, for streams on which the C code would leave a buffer, shift by
      32 or more, or overflow a history product, and for unknown prediction types. */
  function DecodeFrame(s: seq<bool>, cfg: Config, capacity: int): (r: Option<Decoded>)
    requires cfg.Valid()
    ensures r.Some? ==> r.value.Sized()
  {
    var (channels, s1) :- ReadBits(s, 3);
    if cfg.maxSamples * BYTES_PER_SAMPLE > capacity then Some(Decoded([], 0, s1))
    else if channels != 1 then None
    else DecodeStereo(s1, cfg, capacity)
  }

  // ----- where the fields are -----

  /** The signed value of the 16 bits at a position. */
  predicate CoefAt(c: int, s: seq<bool>, at: nat) {
    IsPcm(c) && at + 16 <= |s| && (c - Val(s[at..at + 16])) % 0x1_0000 == 0
  }

  /** A channel header bit by bit: type, quantisation, Rice modifier and number of coefficients, and each
      coefficient in 16 bits of two's complement. */
  lemma HeaderExactly(s: seq<bool>)
    requires ReadHeader(s).Some?
    ensures |s| > 16
    ensures var (h, rest) := ReadHeader(s).value;
      && h.predictionType == Val(s[..4]) && h.quant == Val(s[4..8]) && h.riceModifier == Val(s[8..11])
      && |h.coefs| == Val(s[11..16]) && |s| >= 16 + 16 * |h.coefs| && rest == s[16 + 16 * |h.coefs|..]
      && forall i :: 0 <= i < |h.coefs| ==> CoefAt(h.coefs[i], s, 16 + 16 * i)
  {
    hide Val, ReadCoefs, CoefAt;
    assert s[4..][..4] == s[4..8] && s[4..][4..] == s[8..] && s[8..][..3] == s[8..11] && s[8..][3..] == s[11..];
    assert s[11..][..5] == s[11..16] && s[11..][5..] == s[16..];
    var n := Val(s[11..16]);
    CoefsEnd(s, 16, n);
    forall i | 0 <= i < n
      ensures CoefAt(ReadCoefs(s[16..], n).value.0[i], s, 16 + 16 * i)
    {
      CoefExactly(s, 16, n, i);
    }
  }

  lemma {:induction false} CoefExactly(s: seq<bool>, at: nat, n: nat, i: nat)
    requires at <= |s| && ReadCoefs(s[at..], n).Some? && i < n
    ensures CoefAt(ReadCoefs(s[at..], n).value.0[i], s, at + 16 * i)
    decreases n
  {
    FirstCoef(s, at, n);
    hide *;
    var cs := ReadCoefs(s[at..], n).value.0;
    if i > 0 {
      CoefExactly(s, at + 16, n - 1, i - 1);
      assert cs[1..][i - 1] == cs[i];
    }
  }

  lemma {:induction false} CoefsEnd(s: seq<bool>, at: nat, n: nat)
    requires at <= |s| && ReadCoefs(s[at..], n).Some?
    ensures |s| >= at + 16 * n && ReadCoefs(s[at..], n).value.1 == s[at + 16 * n..]
    decreases n
  {
    if n == 0 {
    } else {
      FirstCoef(s, at, n);
      hide *;
      CoefsEnd(s, at + 16, n - 1);
    }
  }

  lemma FirstCoef(s: seq<bool>, at: nat, n: nat)
    requires at <= |s| && n > 0 && ReadCoefs(s[at..], n).Some?
    ensures at + 16 <= |s| && ReadCoefs(s[at + 16..], n - 1).Some?
    ensures var (cs, rest) := ReadCoefs(s[at..], n).value;
      var (more, rest') := ReadCoefs(s[at + 16..], n - 1).value;
      rest == rest' && |cs| == 1 + |more| && cs[1..] == more && CoefAt(cs[0], s, at)
  {
    assert s[at..][..16] == s[at..at + 16] && s[at..][16..] == s[at + 16..];
    Wrap16Means(Val(s[at..at + 16]));
    hide Val, Wrap16;
  }

  /** A stereo frame bit by bit: the channel field says 1, sixteen bits are skipped, then come the size flag, the
      number of uncompressed low bytes and the flag for uncompressed samples. */
  lemma FrameExactly(s: seq<bool>, cfg: Config, capacity: int)
    requires cfg.Valid() && |s| > 48
    ensures 4 * cfg.maxSamples > capacity ==> DecodeFrame(s, cfg, capacity) == Some(Decoded([], 0, s[3..]))
    ensures 4 * cfg.maxSamples <= capacity && Val(s[..3]) == 1 ==>
      DecodeFrame(s, cfg, capacity)
      == DecodeSized(s[23..], Bit(s[19]), Val(s[20..22]), Bit(s[22]), cfg, capacity)
  {
    hide DecodeSized;
    assert s[3..][..4] == s[3..7] && s[3..][4..] == s[7..] && s[7..][..12] == s[7..19] && s[7..][12..] == s[19..];
    assert s[19..][..1] == [s[19]] && s[19..][1..] == s[20..] && s[20..][..2] == s[20..22] && s[20..][2..] == s[22..];
    assert s[22..][..1] == [s[22]] && s[22..][1..] == s[23..];
    OneBit(s[19]);
    OneBit(s[22]);
    hide Val;
  }

  lemma OneBit(b: bool)
    ensures Val([b]) == Bit(b)
  {
    ValSnoc([], b);
    assert [] + [b] == [b];
  }

  // ----- encoding -----

  /** Everything an encoder is free to choose. */
  datatype Choice = Choice(tag: nat, reserved: nat, hasSize: bool, uncompressedBytes: nat, body: BodyChoice)
  datatype BodyChoice = Plain | Compressed(shift: nat, weight: nat, a: ChannelHeader, b: ChannelHeader)

  predicate GoodHeader(h: ChannelHeader, n: nat) {
    Decodable(h, n) && |h.coefs| < 32 && AllPcm(h.coefs)
  }

  /** Choices a frame of n samples can carry. */
  predicate GoodChoice(c: Choice, n: nat, cfg: Config) {
    && cfg.Valid() && n <= cfg.maxSamples && (c.hasSize || n == cfg.maxSamples)
    && c.tag < 16 && c.reserved < 4096 && c.uncompressedBytes < 4
    && match c.body
       case Plain => true
       case Compressed(shift, weight, a, b) =>
         && c.uncompressedBytes == 0
         && shift < 256 && weight < 256 && (weight == 0 || shift < 32)
         && GoodHeader(a, n) && GoodHeader(b, n)
  }

  function EncodeCoefs(cs: seq<int>): seq<bool> {
    if cs == [] then [] else ToBits(cs[0] % 0x1_0000, 16) + EncodeCoefs(cs[1..])
  }

  function EncodeHeader(h: ChannelHeader): seq<bool> {
    ToBits(h.predictionType, 4) + (ToBits(h.quant, 4) + (ToBits(h.riceModifier, 3) +
      (ToBits(|h.coefs|, 5) + EncodeCoefs(h.coefs))))
  }

  /** The residuals of one channel. */
  function Residuals(xs: seq<int>, h: ChannelHeader): (errs: seq<int>)
    requires h.quant < 16
    ensures |errs| == |xs|
  {
    EncodeFir(xs, h.coefs, FirParams(CHANNEL_BITS, h.quant)).0
  }

  lemma ResidualsEncodable(xs: seq<int>, h: ChannelHeader, cfg: Config)
    requires cfg.Valid() && h.quant < 16 && h.riceModifier < 8 && |xs| <= 0x1_0000
    ensures Encodable(Residuals(xs, h), 0, RiceOf(h, cfg))
  {
    hide EncodeFrom;
    ResidualsInRange(xs, 0, h.coefs, FirParams(CHANNEL_BITS, h.quant));
  }

  function EncodeChannel(xs: seq<int>, h: ChannelHeader, cfg: Config): seq<bool>
    requires cfg.Valid() && h.quant < 16 && h.riceModifier < 8 && |xs| <= 0x1_0000
  {
    ResidualsEncodable(xs, h, cfg);
    EncodeRice(Residuals(xs, h), cfg.initialHistory, 0, RiceOf(h, cfg))
  }

  function EncodePairs(left: seq<int>, right: seq<int>): seq<bool>
    requires |left| == |right|
  {
    if left == [] then []
    else
      ToBits(left[0] % 0x1_0000, 16) + (ToBits(right[0] % 0x1_0000, 16) + EncodePairs(left[1..], right[1..]))
  }

  function EncodeBody(left: seq<int>, right: seq<int>, c: Choice, cfg: Config): seq<bool>
    requires |left| == |right| && GoodChoice(c, |left|, cfg)
  {
    match c.body
    case Plain => EncodePairs(left, right)
    case Compressed(shift, weight, ha, hb) =>
      var (a, b) := MixAll(left, right, shift, weight);
      ToBits(shift, 8) + (ToBits(weight, 8) + (EncodeHeader(ha) + (EncodeHeader(hb) +
        (EncodeChannel(a, ha, cfg) + EncodeChannel(b, hb, cfg)))))
  }

  function EncodeSized(left: seq<int>, right: seq<int>, c: Choice, cfg: Config): seq<bool>
    requires |left| == |right| && GoodChoice(c, |left|, cfg)
  {
    var body := EncodeBody(left, right, c, cfg);
    if c.hasSize then ToBits(|left|, 32) + body else body
  }

  function EncodeStereo(left: seq<int>, right: seq<int>, c: Choice, cfg: Config): seq<bool>
    requires |left| == |right| && GoodChoice(c, |left|, cfg)
  {
    ToBits(c.tag, 4) + (ToBits(c.reserved, 12) + (ToBits(Bit(c.hasSize), 1) +
      (ToBits(c.uncompressedBytes, 2) + (ToBits(Bit(c.body.Plain?), 1) +
        EncodeSized(left, right, c, cfg)))))
  }

  function EncodeFrame(left: seq<int>, right: seq<int>, c: Choice, cfg: Config): seq<bool>
    requires |left| == |right| && GoodChoice(c, |left|, cfg)
  {
    ToBits(1, 3) + EncodeStereo(left, right, c, cfg)
  }

  /** The encoder's residuals keep every history product within 32 bits. A multiplier of at most
      64 always does. */
  predicate FitsHistory(left: seq<int>, right: seq<int>, c: Choice, cfg: Config)
    requires |left| == |right| && GoodChoice(c, |left|, cfg)
  {
    c.body.Compressed? ==>
      var (a, b) := MixAll(left, right, c.body.shift, c.body.weight);
      && HistoryFits(Residuals(a, c.body.a), cfg.initialHistory, RiceOf(c.body.a, cfg).multiplier)
      && HistoryFits(Residuals(b, c.body.b), cfg.initialHistory, RiceOf(c.body.b, cfg).multiplier)
  }

  // ----- decoding inverts encoding -----

  /** A 16-bit two's complement field gives back the signed value. */
  lemma Signed16(v: int)
    requires IsPcm(v)
    ensures 0 <= v % 0x1_0000 < 0x1_0000 && Wrap16(v % 0x1_0000) == v
  {
    WrapAbsorbs(0, v, 0x1_0000);
    var q := v / 0x1_0000;
    ModShift(v + 0x8000, -q, 0x1_0000);
    assert v % 0x1_0000 == v + (-q) * 0x1_0000;
    WrapIdentity(v, 0x1_0000);
  }

  lemma {:induction false} CoefsRoundTrip(cs: seq<int>, rest: seq<bool>)
    requires AllPcm(cs) && |rest| >= 16
    ensures ReadCoefs(EncodeCoefs(cs) + rest, |cs|) == Some((cs, rest))
  {
    if cs == [] {
      assert EncodeCoefs(cs) + rest == rest;
    } else {
      Signed16(cs[0]);
      Pow2Constants();
      assert IsPcm(cs[0]) && AllPcm(cs[1..]);
      hide ReadBits, ToBits, Wrap16, AllPcm, Pow2;
      ReadField(cs[0] % 0x1_0000, 16, EncodeCoefs(cs[1..]), rest);
      hide EncodeCoefs;
      CoefsRoundTrip(cs[1..], rest);
      assert cs == [cs[0]] + cs[1..];
    }
  }

  lemma HeaderRoundTrip(h: ChannelHeader, n: nat, rest: seq<bool>)
    requires GoodHeader(h, n) && |rest| >= 16
    ensures ReadHeader(EncodeHeader(h) + rest) == Some((h, rest))
  {
    assert Pow2(4) == 16 && Pow2(3) == 8 && Pow2(5) == 32;
    hide ReadBits, ToBits, Pow2, EncodeCoefs, ReadCoefs;
    var t4 := EncodeCoefs(h.coefs);
    var t3 := ToBits(|h.coefs|, 5) + t4;
    var t2 := ToBits(h.riceModifier, 3) + t3;
    var t1 := ToBits(h.quant, 4) + t2;
    ReadField(h.predictionType, 4, t1, rest);
    ReadField(h.quant, 4, t2, rest);
    ReadField(h.riceModifier, 3, t3, rest);
    ReadField(|h.coefs|, 5, t4, rest);
    CoefsRoundTrip(h.coefs, rest);
  }

  lemma ChannelRoundTrip(xs: seq<int>, h: ChannelHeader, cfg: Config, rest: seq<bool>)
    requires cfg.Valid() && Decodable(h, |xs|) && |xs| <= 0x1_0000 && AllSigned(xs, CHANNEL_BITS)
    requires HistoryFits(Residuals(xs, h), cfg.initialHistory, RiceOf(h, cfg).multiplier)
    requires |rest| >= 16
    ensures DecodeChannel(EncodeChannel(xs, h, cfg) + rest, |xs|, h, cfg) == Some((xs, rest))
  {
    hide EncodeRice, DecodeRice, HistoryFits, EncodeFir, DecodeFir, AllSigned, RiceOf;
    ResidualsEncodable(xs, h, cfg);
    RiceRoundTrip(Residuals(xs, h), cfg.initialHistory, 0, RiceOf(h, cfg), rest);
    SignedOf(xs, CHANNEL_BITS);
    FirRoundTrip(xs, h.coefs, FirParams(CHANNEL_BITS, h.quant));
  }

  lemma SignedOf(xs: seq<int>, bits: nat)
    requires AllSigned(xs, bits)
    ensures forall j :: 0 <= j < |xs| ==> InSigned(xs[j], bits)
  {
  }

  /** One pair in front of the others. */
  lemma PairField(l: int, r: int, tail: seq<bool>, rest: seq<bool>, n: nat, left: seq<int>, right: seq<int>)
    requires IsPcm(l) && IsPcm(r) && |rest| >= 16 && ReadPairs(tail + rest, n) == Some((left, right, rest))
    ensures ReadPairs(ToBits(l % 0x1_0000, 16) + (ToBits(r % 0x1_0000, 16) + tail) + rest, n + 1)
         == Some(([l] + left, [r] + right, rest))
  {
    Signed16(l);
    Signed16(r);
    Pow2Constants();
    assert SignExtend(l % 0x1_0000, 16) == l && SignExtend(r % 0x1_0000, 16) == r;
    hide ReadBits, ToBits, SignExtend, Wrap16, Pow2;
    ReadField(l % 0x1_0000, 16, ToBits(r % 0x1_0000, 16) + tail, rest);
    ReadField(r % 0x1_0000, 16, tail, rest);
  }

  lemma PcmParts(s: seq<int>)
    requires s != [] && AllPcm(s)
    ensures s == [s[0]] + s[1..] && IsPcm(s[0]) && AllPcm(s[1..])
  {
  }

  lemma PairsSplit(left: seq<int>, right: seq<int>)
    requires |left| == |right| && left != []
    ensures EncodePairs(left, right)
         == ToBits(left[0] % 0x1_0000, 16) + (ToBits(right[0] % 0x1_0000, 16) + EncodePairs(left[1..], right[1..]))
  {
    hide ToBits;
  }

  lemma {:induction false} PairsRoundTrip(left: seq<int>, right: seq<int>, rest: seq<bool>)
    requires |left| == |right| && AllPcm(left) && AllPcm(right) && |rest| >= 16
    ensures ReadPairs(EncodePairs(left, right) + rest, |left|) == Some((left, right, rest))
  {
    if left == [] {
      assert EncodePairs(left, right) + rest == rest;
    } else {
      hide *;
      PcmParts(left);
      PcmParts(right);
      PairsSplit(left, right);
      PairsRoundTrip(left[1..], right[1..], rest);
      PairField(left[0], right[0], EncodePairs(left[1..], right[1..]), rest, |left| - 1, left[1..], right[1..]);
    }
  }

  lemma MixAllInRange(left: seq<int>, right: seq<int>, shift: nat, weight: nat)
    requires |left| == |right| && AllPcm(left) && AllPcm(right)
    ensures AllSigned(MixAll(left, right, shift, weight).0, CHANNEL_BITS)
    ensures AllSigned(MixAll(left, right, shift, weight).1, CHANNEL_BITS)
  {
    var (a, b) := MixAll(left, right, shift, weight);
    forall i | 0 <= i < |left|
      ensures InSigned(a[i], CHANNEL_BITS) && InSigned(b[i], CHANNEL_BITS)
    {
      MixInRange(left[i], right[i], shift, weight);
    }
  }

  lemma CompressedRoundTrip(left: seq<int>, right: seq<int>, c: Choice, cfg: Config, rest: seq<bool>)
    requires |left| == |right| && GoodChoice(c, |left|, cfg) && AllPcm(left) && AllPcm(right)
    requires c.body.Compressed? && FitsHistory(left, right, c, cfg) && |rest| >= 16
    ensures DecodeCompressed(EncodeBody(left, right, c, cfg) + rest, |left|, cfg)
            == Some(Decoded(Pcm(left, right, |left|), BYTES_PER_SAMPLE * |left|, rest))
  {
    var n := |left|;
    var Compressed(shift, weight, ha, hb) := c.body;
    var (a, b) := MixAll(left, right, shift, weight);
    MixAllInRange(left, right, shift, weight);
    StereoRoundTrip(left, right, n, shift, weight);
    hide MixAll, Interleave, Pcm, EncodeHeader, ReadHeader, EncodeChannel, DecodeChannel, DecodeCompressed, HistoryFits,
      AllSigned, AllPcm, RiceOf, Residuals, ToBits;
    CompressedFields(a, b, n, shift, weight, ha, hb, cfg, rest);
  }

  /** Mixing parameters, headers and channels of a compressed body. */
  lemma CompressedFields(a: seq<int>, b: seq<int>, n: nat, shift: nat, weight: nat, ha: ChannelHeader,
                         hb: ChannelHeader, cfg: Config, rest: seq<bool>)
    requires cfg.Valid() && n == |a| == |b| <= 0x1_0000 && |rest| >= 16
    requires shift < 256 && weight < 256 && (weight == 0 || shift < 32) && GoodHeader(ha, n) && GoodHeader(hb, n)
    requires AllSigned(a, CHANNEL_BITS) && AllSigned(b, CHANNEL_BITS)
    requires HistoryFits(Residuals(a, ha), cfg.initialHistory, RiceOf(ha, cfg).multiplier)
    requires HistoryFits(Residuals(b, hb), cfg.initialHistory, RiceOf(hb, cfg).multiplier)
    ensures DecodeCompressed(ToBits(shift, 8) + (ToBits(weight, 8) + (EncodeHeader(ha) + (EncodeHeader(hb) +
              (EncodeChannel(a, ha, cfg) + EncodeChannel(b, hb, cfg))))) + rest, n, cfg)
         == Some(Decoded(Interleave(a, b, n, shift, weight), BYTES_PER_SAMPLE * n, rest))
  {
    Pow2Constants();
    hide ReadBits, ToBits, Pow2, Interleave, EncodeHeader, ReadHeader, EncodeChannel, DecodeChannel, HistoryFits,
      AllSigned, AllPcm, RiceOf, Residuals;
    var t5 := EncodeChannel(b, hb, cfg);
    var t4 := EncodeChannel(a, ha, cfg) + t5;
    var t3 := EncodeHeader(hb) + t4;
    var t2 := EncodeHeader(ha) + t3;
    ReadField(shift, 8, ToBits(weight, 8) + t2, rest);
    ReadField(weight, 8, t2, rest);
    HeaderRoundTrip(ha, n, t3 + rest);
    HeaderRoundTrip(hb, n, t4 + rest);
    ChannelRoundTrip(a, ha, cfg, t5 + rest);
    ChannelRoundTrip(b, hb, cfg, rest);
    AppendAssoc(EncodeHeader(ha), [], t3, rest);
    AppendAssoc(EncodeHeader(hb), [], t4, rest);
    AppendAssoc(EncodeChannel(a, ha, cfg), [], t5, rest);
  }

  lemma BodyRoundTrip(left: seq<int>, right: seq<int>, c: Choice, cfg: Config, rest: seq<bool>)
    requires |left| == |right| && GoodChoice(c, |left|, cfg) && AllPcm(left) && AllPcm(right)
    requires FitsHistory(left, right, c, cfg) && |rest| >= 16
    ensures DecodeBody(EncodeBody(left, right, c, cfg) + rest, |left|, c.uncompressedBytes, Bit(c.body.Plain?), cfg)
            == Some(Decoded(Pcm(left, right, |left|), BYTES_PER_SAMPLE * |left|, rest))
  {
    if c.body.Plain? {
      hide EncodePairs, ReadPairs, FitsHistory, Interleave, Pcm, AllPcm;
      PairsRoundTrip(left, right, rest);
      PlainInterleave(left, right);
    } else {
      hide DecodeCompressed, EncodeBody, Pcm, FitsHistory, AllPcm;
      CompressedRoundTrip(left, right, c, cfg, rest);
    }
  }

  lemma PlainInterleave(left: seq<int>, right: seq<int>)
    requires |left| == |right| && AllPcm(left) && AllPcm(right)
    ensures Interleave(left, right, |left|, 0, 0) == Pcm(left, right, |left|)
  {
    hide Interleave, Pcm, AllPcm;
    StereoRoundTrip(left, right, |left|, 0, 0);
    var (a, b) := MixAll(left, right, 0, 0);
    assert a == left && b == right;
  }

  lemma SizedRoundTrip(left: seq<int>, right: seq<int>, c: Choice, cfg: Config, capacity: int, rest: seq<bool>)
    requires |left| == |right| && GoodChoice(c, |left|, cfg) && AllPcm(left) && AllPcm(right)
    requires FitsHistory(left, right, c, cfg) && |rest| >= 16
    requires capacity >= cfg.maxSamples * BYTES_PER_SAMPLE
    ensures DecodeSized(EncodeSized(left, right, c, cfg) + rest, Bit(c.hasSize), c.uncompressedBytes,
                        Bit(c.body.Plain?), cfg, capacity)
            == Some(Decoded(Pcm(left, right, |left|), BYTES_PER_SAMPLE * |left|, rest))
  {
    var n := |left|;
    Pow2Constants();
    WrapIdentity(n * BYTES_PER_SAMPLE, 0x1_0000_0000);
    BodyRoundTrip(left, right, c, cfg, rest);
    assert n <= cfg.maxSamples <= 4096 && (c.hasSize || n == cfg.maxSamples);
    hide GoodChoice, ReadBits, ToBits, Pow2, EncodeBody, DecodeBody, Pcm, FitsHistory, AllPcm, Wrap32;
    if c.hasSize {
      ReadField(n, 32, EncodeBody(left, right, c, cfg), rest);
    }
  }

  lemma StereoFrameRoundTrip(left: seq<int>, right: seq<int>, c: Choice, cfg: Config, capacity: int, rest: seq<bool>)
    requires |left| == |right| && GoodChoice(c, |left|, cfg) && AllPcm(left) && AllPcm(right)
    requires FitsHistory(left, right, c, cfg) && |rest| >= 16
    requires capacity >= cfg.maxSamples * BYTES_PER_SAMPLE
    ensures DecodeStereo(EncodeStereo(left, right, c, cfg) + rest, cfg, capacity)
            == Some(Decoded(Pcm(left, right, |left|), BYTES_PER_SAMPLE * |left|, rest))
  {
    assert c.tag < 16 && c.reserved < 4096 && c.uncompressedBytes < 4;
    hide GoodChoice, ReadBits, ToBits, Pow2, EncodeSized, DecodeSized, DecodeStereo, Pcm, FitsHistory, AllPcm;
    SizedRoundTrip(left, right, c, cfg, capacity, rest);
    FieldsRoundTrip(c, EncodeSized(left, right, c, cfg), rest, cfg, capacity);
  }

  /** The fields in front of the sample count. */
  lemma FieldsRoundTrip(c: Choice, t6: seq<bool>, rest: seq<bool>, cfg: Config, capacity: int)
    requires cfg.Valid() && c.tag < 16 && c.reserved < 4096 && c.uncompressedBytes < 4 && |rest| >= 16
    ensures DecodeStereo(ToBits(c.tag, 4) + (ToBits(c.reserved, 12) + (ToBits(Bit(c.hasSize), 1) +
              (ToBits(c.uncompressedBytes, 2) + (ToBits(Bit(c.body.Plain?), 1) + t6)))) + rest, cfg, capacity)
         == DecodeSized(t6 + rest, Bit(c.hasSize), c.uncompressedBytes, Bit(c.body.Plain?), cfg, capacity)
  {
    assert Pow2(1) == 2 && Pow2(2) == 4 && Pow2(4) == 16 && Pow2(12) == 4096;
    hide ReadBits, ToBits, Pow2, DecodeSized, Config.Valid;
    var t5 := ToBits(Bit(c.body.Plain?), 1) + t6;
    var t4 := ToBits(c.uncompressedBytes, 2) + t5;
    var t3 := ToBits(Bit(c.hasSize), 1) + t4;
    var t2 := ToBits(c.reserved, 12) + t3;
    ReadField(c.tag, 4, t2, rest);
    ReadField(c.reserved, 12, t3, rest);
    ReadField(Bit(c.hasSize), 1, t4, rest);
    ReadField(c.uncompressedBytes, 2, t5, rest);
    ReadField(Bit(c.body.Plain?), 1, t6, rest);
  }

  /** Losslessness: for every 16-bit stereo signal and every choice the encoder makes, decoding the
      frame gives back exactly the interleaved samples, reports four bytes a sample and leaves
      exactly the bits behind the frame. */
  lemma FrameRoundTrip(left: seq<int>, right: seq<int>, c: Choice, cfg: Config, capacity: int, rest: seq<bool>)
    requires |left| == |right| && GoodChoice(c, |left|, cfg) && AllPcm(left) && AllPcm(right)
    requires FitsHistory(left, right, c, cfg) && |rest| >= 16
    requires capacity >= cfg.maxSamples * BYTES_PER_SAMPLE
    ensures DecodeFrame(EncodeFrame(left, right, c, cfg) + rest, cfg, capacity)
            == Some(Decoded(Pcm(left, right, |left|), BYTES_PER_SAMPLE * |left|, rest))
  {
    assert Pow2(3) == 8;
    hide ReadBits, ToBits, Pow2, EncodeStereo, DecodeStereo, Pcm, FitsHistory, AllPcm;
    ReadField(1, 3, EncodeStereo(left, right, c, cfg), rest);
    StereoFrameRoundTrip(left, right, c, cfg, capacity, rest);
  }

  /** With both effective multipliers at most 64 nothing about the signal has to be assumed. */
  lemma SmallMultipliersFit(left: seq<int>, right: seq<int>, c: Choice, cfg: Config)
    requires |left| == |right| && GoodChoice(c, |left|, cfg)
    requires c.body.Compressed? ==>
      c.body.a.riceModifier * cfg.historyMult / 4 <= 64 && c.body.b.riceModifier * cfg.historyMult / 4 <= 64
    ensures FitsHistory(left, right, c, cfg)
  {
    if c.body.Compressed? {
      hide HistoryFits;
      var (a, b) := MixAll(left, right, c.body.shift, c.body.weight);
      SmallMultiplierFits(Residuals(a, c.body.a), cfg.initialHistory, RiceOf(c.body.a, cfg).multiplier);
      SmallMultiplierFits(Residuals(b, c.body.b), cfg.initialHistory, RiceOf(c.body.b, cfg).multiplier);
    }
  }
}
