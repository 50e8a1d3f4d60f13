/** From a buffered payload to the PCM ring: decryption of the whole blocks, the ALAC frame, and the
    backpressured feed. The cipher is a parameter. */
module RtpDecode {
  import opened Wrappers
  import opened BitStream
  import opened AlacMix
  import opened AlacFrame
  import opened AlacDecoder
  import opened PcmRing
  import opened PcmFeed

  type Bytes = seq<byte>

  const BLOCK := 16
  const PLAIN_SIZE := 2048
  const PCM_SIZE := 8192
  const PCM_BYTES := 2 * PCM_SIZE

  /** The largest whole number of blocks is encrypted, the tail is not. */
  function CipherLen(n: nat): nat {
    n - n % BLOCK
  }

  /** The payload in the clear, or None when the cipher fails. */
  function Clear(payload: Bytes, decrypt: Bytes -> Option<Bytes>): Option<Bytes> {
    var c := CipherLen(|payload|);
    if c == 0 then Some(payload)
    else
      var head :- decrypt(payload[..c]);
      Some(head + payload[c..])
  }

  /** As many whole blocks of 16 bytes as there are go through the cipher, the rest is taken as it is. */
  lemma ClearExactly(payload: Bytes, decrypt: Bytes -> Option<Bytes>, blocks: nat)
    requires 16 * blocks <= |payload| < 16 * (blocks + 1)
    ensures Clear(payload, decrypt) ==
      if blocks == 0 then Some(payload)
      else
        match decrypt(payload[..16 * blocks])
        case None => None
        case Some(head) => Some(head + payload[16 * blocks..])
  {
    assert CipherLen(|payload|) == 16 * blocks;
  }

  ghost predicate KeepsLength(decrypt: Bytes -> Option<Bytes>) {
    forall c :: decrypt(c).Some? ==> |decrypt(c).value| == |c|
  }

  /** Interleaved samples as frames. */
  function FramesOf(pcm: seq<int>): (fs: seq<Frame>)
    ensures |fs| == |pcm| / 2
  {
    seq(|pcm| / 2, i requires 0 <= i < |pcm| / 2 => Frame(pcm[2 * i], pcm[2 * i + 1]))
  }

  class Player {
    const alac: AlacFile
    const feeder: Feeder
    const plain: array<byte>
    const pcm: array<int>

    ghost predicate Valid()
      reads this, feeder, feeder.ring, feeder.ring.storage
    {
      && alac.Valid() && alac.Separate(pcm) && feeder.Valid()
      && plain.Length == PLAIN_SIZE && pcm.Length == PCM_SIZE
    }

    /** What the decoder sees: the clear payload in front of whatever an earlier one left behind. */
    ghost function Seen(payload: Bytes, decrypt: Bytes -> Option<Bytes>): Bytes
      requires Clear(payload, decrypt).Some? && |Clear(payload, decrypt).value| <= plain.Length
      reads this, plain
    {
      Clear(payload, decrypt).value + plain[|Clear(payload, decrypt).value|..]
    }

    constructor (cfg: Config, feeder: Feeder)
      requires cfg.Valid() && feeder.Valid()
      ensures Valid() && alac.cfg == cfg && this.feeder == feeder
    {
      alac := new AlacFile(cfg);
      plain := new byte[PLAIN_SIZE];
      pcm := new int[PCM_SIZE];
      this.feeder := feeder;
    }

    /** One payload: nothing for a bad length or a failing cipher, otherwise the ring's stream grows
        by the frames the payload decodes to, all of them unless the task is stopped. */
    method DecodeAndFeed(payload: Bytes, decrypt: Bytes -> Option<Bytes>) returns (fed: nat)
      requires Valid() && KeepsLength(decrypt)
      requires 0 < |payload| <= PLAIN_SIZE && Clear(payload, decrypt).Some? ==>
        |Clear(payload, decrypt).value| == |payload| &&
        AlacFrame.DecodeFrame(BitsOf(Seen(payload, decrypt)), alac.cfg, PCM_BYTES).Some?
      modifies plain, pcm, alac, alac.predictErrorA, alac.predictErrorB, alac.outputSamplesA, alac.outputSamplesB,
        feeder`polls, feeder.ring, feeder.ring.storage
      ensures Valid()
      ensures payload == [] || |payload| > 2048 || Clear(payload, decrypt).None? ==>
        fed == 0 && feeder.ring.written == old(feeder.ring.written) && feeder.At(0) == old(feeder.At(0))
      ensures 0 < |payload| <= 2048 && Clear(payload, decrypt).Some? ==>
        var d := AlacFrame.DecodeFrame(BitsOf(old(Seen(payload, decrypt))), alac.cfg, PCM_BYTES).value;
        var frames := FramesOf(d.pcm);
        && fed <= |frames| && feeder.ring.written == old(feeder.ring.written) + frames[..fed]
        && feeder.At(fed) == Feed(old(feeder.At(0)), feeder.ring.capacity, |frames|)
        && (fed == |frames| || feeder.Stopped())
    {
      hide AlacFrame.DecodeFrame, BitsOf, FramesOf, Feed, Clear;
      FeedStep(feeder.At(0), feeder.ring.capacity, 0);
      if |payload| == 0 || |payload| > plain.Length {
        return 0;
      }
      var clear := Unlock(payload, decrypt);
      if clear.None? {
        return 0;
      }
      fed := DecodeClear(clear.value);
    }

    /** Decrypts the whole blocks of a payload. */
    method Unlock(payload: Bytes, decrypt: Bytes -> Option<Bytes>) returns (clear: Option<Bytes>)
      ensures clear == Clear(payload, decrypt)
    {
      var cipherLen := CipherLen(|payload|);
      clear := Some(payload);
      if cipherLen > 0 {
        var head := decrypt(payload[..cipherLen]);
        clear := if head.None? then None else Some(head.value + payload[cipherLen..]);
      }
    }

    /** Decodes a payload in the clear and feeds its frames. */
    method DecodeClear(clear: Bytes) returns (fed: nat)
      requires Valid() && |clear| <= PLAIN_SIZE
      requires AlacFrame.DecodeFrame(BitsOf(clear + plain[|clear|..]), alac.cfg, PCM_BYTES).Some?
      modifies plain, pcm, alac, alac.predictErrorA, alac.predictErrorB, alac.outputSamplesA, alac.outputSamplesB,
        feeder`polls, feeder.ring, feeder.ring.storage
      ensures Valid()
      ensures var d := AlacFrame.DecodeFrame(BitsOf(old(clear + plain[|clear|..])), alac.cfg, PCM_BYTES).value;
        var frames := FramesOf(d.pcm);
        && fed <= |frames| && feeder.ring.written == old(feeder.ring.written) + frames[..fed]
        && feeder.At(fed) == Feed(old(feeder.At(0)), feeder.ring.capacity, |frames|)
        && (fed == |frames| || feeder.Stopped())
    {
      hide AlacFrame.DecodeFrame, BitsOf, FramesOf, Feed;
      FeedStep(feeder.At(0), feeder.ring.capacity, 0);
      ghost var seen := clear + plain[|clear|..];
      forall i | 0 <= i < |clear| {
        plain[i] := clear[i];
      }
      assert plain[..] == seen;
      var outSize := alac.DecodeFrame(plain[..], pcm, PCM_BYTES);
      ghost var d := AlacFrame.DecodeFrame(BitsOf(seen), alac.cfg, PCM_BYTES).value;
      if outSize <= 0 {
        NoFrames(d.pcm);
        assert feeder.ring.written + [] == feeder.ring.written;
        return 0;
      }
      var frames := outSize / BYTES_PER_SAMPLE;
      assert pcm[..2 * frames] == d.pcm;
      fed := feeder.FeedPcm(FramesOf(pcm[..2 * frames]));
    }

    lemma NoFrames(pcm: seq<int>)
      requires pcm == []
      ensures FramesOf(pcm) == []
    {
    }
  }

  lemma BitsOfAppend(a: Bytes, b: Bytes)
    ensures BitsOf(a + b) == BitsOf(a) + BitsOf(b)
  {
    forall i | 0 <= i < 8 * |a + b|
      ensures BitsOf(a + b)[i] == (BitsOf(a) + BitsOf(b))[i]
    {
      if i >= 8 * |a| {
        assert (i - 8 * |a|) / 8 == i / 8 - |a| && (i - 8 * |a|) % 8 == i % 8;
      }
    }
  }

  /** End to end: when a payload in the clear is an encoded frame, padded to whole bytes, what is fed
      is exactly the samples the sender encoded, whatever the buffer held behind them. */
  lemma EncodedPayloadPlays(left: seq<int>, right: seq<int>, c: Choice, cfg: Config, clear: Bytes, pad: seq<bool>,
                            stale: Bytes)
    requires |left| == |right| && GoodChoice(c, |left|, cfg) && AllPcm(left) && AllPcm(right)
    requires FitsHistory(left, right, c, cfg)
    requires BitsOf(clear) == EncodeFrame(left, right, c, cfg) + pad && |stale| >= 2
    ensures var d := AlacFrame.DecodeFrame(BitsOf(clear + stale), cfg, PCM_BYTES);
            && d.Some? && |FramesOf(d.value.pcm)| == |left|
            && forall i :: 0 <= i < |left| ==> FramesOf(d.value.pcm)[i] == Frame(left[i], right[i])
  {
    hide AlacFrame.DecodeFrame, EncodeFrame, FitsHistory;
    BitsOfAppend(clear, stale);
    var rest := pad + BitsOf(stale);
    assert BitsOf(clear + stale) == EncodeFrame(left, right, c, cfg) + rest;
    FrameRoundTrip(left, right, c, cfg, PCM_BYTES, rest);
    PcmFrames(left, right, |left|);
  }

  lemma {:induction false} PcmFrames(left: seq<int>, right: seq<int>, n: nat)
    requires n <= |left| == |right|
    ensures forall i :: 0 <= i < n ==>
      Pcm(left, right, n)[2 * i] == left[i] && Pcm(left, right, n)[2 * i + 1] == right[i]
  {
    if n == 0 {
    } else {
      PcmFrames(left, right, n - 1);
    }
  }
}
