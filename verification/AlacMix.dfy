/** Stereo decorrelation: the un-mixing of two decoded channels into interleaved PCM and the
    mixing it inverts. */
module AlacMix {
  import opened Arith
  import opened AlacPredictor

  /** 16-bit samples travel as 17-bit channel values. */
  const CHANNEL_BITS := 17

  /** The part of the difference that the middle value carries. */
  function Share(difference: int, weight: nat, shift: nat): int {
    Shr(difference * weight, shift)
  }

  /** One (left, right) pair from the two channel values. */
  function Unmix(a: int, b: int, shift: nat, weight: nat): (int, int) {
    if weight == 0 then (Wrap16(a), Wrap16(b))
    else
      var right := Wrap16(a - Share(b, weight, shift));
      (Wrap16(right + b), right)
  }

  function Mix(left: int, right: int, shift: nat, weight: nat): (int, int) {
    if weight == 0 then (left, right)
    else
      var difference := left - right;
      (SignExtend(right + Share(difference, weight, shift), CHANNEL_BITS), difference)
  }

  predicate IsPcm(v: int) {
    -0x8000 <= v < 0x8000
  }

  lemma MixInRange(left: int, right: int, shift: nat, weight: nat)
    requires IsPcm(left) && IsPcm(right)
    ensures InSigned(Mix(left, right, shift, weight).0, CHANNEL_BITS)
    ensures InSigned(Mix(left, right, shift, weight).1, CHANNEL_BITS)
  {
    Pow2Constants();
    hide Share;
  }

  /** Un-mixing inverts mixing for every shift and every weight: a middle value too wide for the
      channel is wrapped, and the truncation to 16 bits undoes the wrap. */
  lemma UnmixInverts(left: int, right: int, shift: nat, weight: nat)
    requires IsPcm(left) && IsPcm(right)
    ensures var (a, b) := Mix(left, right, shift, weight); Unmix(a, b, shift, weight) == (left, right)
  {
    Wrap16Identity(left);
    Wrap16Identity(right);
    TruncationUndoesWrap(right, Share(left - right, weight, shift));
    hide Share, Wrap16, SignExtend;
    assert right + (left - right) == left;
  }

  lemma Wrap16Identity(v: int)
    requires IsPcm(v)
    ensures Wrap16(v) == v
  {
    WrapIdentity(v, 0x1_0000);
  }

  lemma TruncationUndoesWrap(right: int, t: int)
    requires IsPcm(right)
    ensures Wrap16(SignExtend(right + t, CHANNEL_BITS) - t) == right
  {
    Pow2Constants();
    hide Pow2;
    var k := WrapShift(right + t, 0x2_0000);
    hide Wrap;
    ShiftedWrap16(right, k);
  }

  lemma ShiftedWrap16(v: int, k: int)
    requires IsPcm(v)
    ensures Wrap16(v + k * 0x2_0000) == v
  {
    ModShift(v + 0x8000, 2 * k, 0x1_0000);
    WrapIdentity(v, 0x1_0000);
  }

  /** Interleaved PCM of the first n pairs of channel values. */
  function Interleave(a: seq<int>, b: seq<int>, n: nat, shift: nat, weight: nat): (pcm: seq<int>)
    requires n <= |a| && n <= |b|
    ensures |pcm| == 2 * n
    ensures forall i :: 0 <= i < n ==> (pcm[2 * i], pcm[2 * i + 1]) == Unmix(a[i], b[i], shift, weight)
  {
    if n == 0 then []
    else
      var (left, right) := Unmix(a[n - 1], b[n - 1], shift, weight);
      Interleave(a, b, n - 1, shift, weight) + [left, right]
  }

  /** What the un-mixing writes for pair i. With a weight, q is the one integer part of the weighted difference
      over 2^shift: right is the first channel less q, left is right plus the difference, each cut to 16 bits. */
  lemma InterleaveMeans(a: seq<int>, b: seq<int>, n: nat, shift: nat, weight: nat, i: nat, q: int)
    requires i < n <= |a| && n <= |b|
    requires weight > 0 ==> q * Pow2(shift) <= b[i] * weight < (q + 1) * Pow2(shift)
    ensures var pcm := Interleave(a, b, n, shift, weight);
      && IsPcm(pcm[2 * i]) && IsPcm(pcm[2 * i + 1])
      && (pcm[2 * i + 1] - (if weight > 0 then a[i] - q else b[i])) % 0x1_0000 == 0
      && (pcm[2 * i] - (if weight > 0 then pcm[2 * i + 1] + b[i] else a[i])) % 0x1_0000 == 0
  {
    hide *;
    UnmixMeans(a[i], b[i], shift, weight, q);
  }

  lemma UnmixMeans(a: int, b: int, shift: nat, weight: nat, q: int)
    requires weight > 0 ==> q * Pow2(shift) <= b * weight < (q + 1) * Pow2(shift)
    ensures var (left, right) := Unmix(a, b, shift, weight);
      && IsPcm(left) && IsPcm(right)
      && (right - (if weight > 0 then a - q else b)) % 0x1_0000 == 0
      && (left - (if weight > 0 then right + b else a)) % 0x1_0000 == 0
  {
    if weight > 0 {
      ShrIs(b * weight, shift, q);
      Wrap16Means(a - q);
      Wrap16Means(Wrap16(a - q) + b);
    } else {
      Wrap16Means(a);
      Wrap16Means(b);
    }
    hide Wrap16, Shr, IsPcm;
  }

  lemma Wrap16Means(v: int)
    ensures IsPcm(Wrap16(v)) && (Wrap16(v) - v) % 0x1_0000 == 0
  {
    var k := WrapShift(v, 0x1_0000);
    WrapRange(v, 0x1_0000);
    ModShift(0, k, 0x1_0000);
  }

  /** Left and right samples as the receiver plays them. */
  function Pcm(left: seq<int>, right: seq<int>, n: nat): (pcm: seq<int>)
    requires n <= |left| && n <= |right|
    ensures |pcm| == 2 * n
  {
    if n == 0 then [] else Pcm(left, right, n - 1) + [left[n - 1], right[n - 1]]
  }

  function MixAll(left: seq<int>, right: seq<int>, shift: nat, weight: nat): (r: (seq<int>, seq<int>))
    requires |left| == |right|
    ensures |r.0| == |left| && |r.1| == |left|
    ensures forall i :: 0 <= i < |left| ==> (r.0[i], r.1[i]) == Mix(left[i], right[i], shift, weight)
  {
    (seq(|left|, i requires 0 <= i < |left| => Mix(left[i], right[i], shift, weight).0),
     seq(|left|, i requires 0 <= i < |left| => Mix(left[i], right[i], shift, weight).1))
  }

  predicate AllPcm(s: seq<int>) {
    forall i :: 0 <= i < |s| ==> IsPcm(s[i])
  }

  lemma {:induction false} StereoRoundTrip(left: seq<int>, right: seq<int>, n: nat, shift: nat, weight: nat)
    requires n <= |left| == |right| && AllPcm(left) && AllPcm(right)
    ensures var (a, b) := MixAll(left, right, shift, weight);
            Interleave(a, b, n, shift, weight) == Pcm(left, right, n)
  {
    if n == 0 {
    } else {
      hide Mix, Unmix;
      StereoRoundTrip(left, right, n - 1, shift, weight);
      UnmixInverts(left[n - 1], right[n - 1], shift, weight);
    }
  }
}
