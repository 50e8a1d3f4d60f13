# Conduit receiver: verified model

A Dafny model of the decoding and transport core of the Conduit AirPlay receiver, and proofs of what
that core is for. The modules follow the program from the wire to the DAC.

* **ALAC decoder** (`AlacReader`, `AlacEntropy`, `AlacPredictor`, `AlacMix`, `AlacFrame`, `AlacBuffers`,
  `AlacDecoder`): the bit reader, the adaptive Rice coder, the self-modifying predictor and the stereo
  un-mix. `AlacFrame` gives a frame its meaning and an encoder; the codec is shown to be lossless.
  `AlacDecoder` and `AlacBuffers` are the decoder as it runs, on buffers, proved against that meaning.
* **RTP reception** (`RtpQueue`, `RtpReorder`, `RtpPackets`, `RtpReceiver`, `RtpDecode`, `RtpStream`): the ring
  of slots keyed by wrapping 16-bit numbers refines a map over unbounded numbers (`RtpQueue`), over which whole
  runs are reasoned about; the receive path reads the 16 bits of each datagram and nothing else. `RtpStream`
  goes from datagrams to the PCM ring.
* **PCM path** (`PcmRing`, `PcmSteps`, `PcmFeed`, `Playback`): the ring as each side calls it, the same
  ring as single interleaved steps of a producer and a consumer, the backpressured feed, and the
  playback loop, whose log of events is given exactly and held against a set of rules.
* **RTSP byte stream** (`RtspParser`, `RtspPrint`, `RtspServer`, `RtspTraffic`, `RtspResync`): parsing against printing,
  dispatching independent of how the stream is cut, and the drain of oversized requests.
* **Lifecycle**: the RTSP task, the RTP task, the diagnostic tone and the caller that starts it, one
  access to shared state at a time.
* **Base64** and **Dmap**: two smaller parsers against their printers.
* `Arith`, `BitStream` and `Wrappers` are shared.

Specification functions answer `None` where the C code would leave its buffers or overflow a signed
product; methods require that they do not. I/O, clocks and the AES cipher are parameters: the cipher is a
function, the resend throttle a boolean, a run flag with whatever the playback side does meanwhile a list
of polls.

## Where the code differs from its documentation

* `raop/README.md` says a gap never stalls. It does in two ways: after an outage of a whole window every later
  packet is TOO_NEW until the 16-bit numbers come round, and so it is when one packet is lost, the next arrives
  and the rest lies beyond the window (`RtpReceiver.StallingRun`). `RtpReceiver.ProgressIff` gives the exact
  condition on the datagrams, from every state between two of them.
* That the sequence arithmetic survives wrap-around holds within half the sequence space only: an older
  duplicate can be stored as a later packet (`RtpReceiver.StaleDuplicate` says when).
* `raop/README.md` says the buffer re-anchors after FLUSH. The code only acknowledges FLUSH.
* `raop/README.md` puts the drift watermarks at 3/4 and 1/4 of the capacity. The code uses
  capacity - 1 and 256 frames, and so does the model.
* `raop/README.md` says TEARDOWN resumes the tone and that a buffer overflow tears the session down. The
  tone call is commented out, and an oversized request with a header end is drained and answered 200.
* "Blocks until the tone task exits" fails for the tone stop in two ways when a tone start runs beside it: a start
  that overtakes an ending tone lets it through early (`Lifecycle.RestartLetsThrough`,
  `Lifecycle.OvertakenStop`), and a start that passes its flags while the stop waits makes it wait for ever (`Lifecycle.RestartHangs`,
  `Lifecycle.HangingStop`). `Lifecycle.ToneStopProgresses` has the exact condition for a wait that can end, and
  `Lifecycle.GetsStuckIff` the steps that break it. The shipped program has no caller of the tone start: its three
  call sites are commented out.
* `hdr_scan_long` is meant to find the Content-Length header; it searches anywhere in the head
  (`RtspServer.LooseSearchDisagrees`, `RtspResync.ResyncsIff`).

## Model

| member | source | states |
|---|---|---|
| AlacFrame.FrameRoundTrip | framework/components/alac/src/alac.c:644-976 | losslessness: for every 16-bit stereo signal and every choice of coefficients, quantisation, Rice modifiers, shift and weight an encoder makes, decoding the encoded frame gives exactly the interleaved samples, reports 4 bytes per sample pair and leaves exactly the bits behind the frame |
| AlacFrame.SmallMultipliersFit | framework/components/alac/src/alac.c:369-370 | with both effective history multipliers at most 64 the losslessness result assumes nothing about the signal |
| AlacFrame.CompressedRoundTrip | framework/components/alac/src/alac.c:855-932 | shift, weight, both channel headers and both channels come back from a compressed body, for every suffix |
| AlacFrame.PairsRoundTrip | framework/components/alac/src/alac.c:934-945 | uncompressed sample pairs come back with their signs |
| AlacFrame.HeaderRoundTrip | framework/components/alac/src/alac.c:876-902 | a channel header of 4, 4, 3 and 5 bits and its signed 16-bit coefficients is read back |
| AlacFrame.HeaderExactly | framework/components/alac/src/alac.c:876-902 | where the fields of a channel header are: 4, 4, 3 and 5 bits, then each coefficient in 16 bits of two's complement |
| AlacFrame.FrameExactly | framework/components/alac/src/alac.c:816-853 | where the size flag, the number of low bytes and the flag for uncompressed samples are, and that a frame of the maximal size must fit the output |
| AlacFrame.RiceOfHeader | framework/components/alac/src/alac.c:907-910 | the history multiplier is the whole part of a quarter of header's times stream's, and escaped samples have 17 bits |
| AlacFrame.ChannelRoundTrip | framework/components/alac/src/alac.c:907-920 | residual coding and prediction of one channel invert each other for every channel of 17-bit values |
| AlacEntropy.RiceRoundTrip | framework/components/alac/src/alac.c:338-398 | adaptive Rice decoding inverts encoding for every residual sequence in signed range: history, parameter, escapes, zero runs and the sign-modifier carry stay in step to the last bit |
| AlacEntropy.RunFitsIff | framework/components/alac/src/alac.c:375-396 | once the history has run dry, decoding a channel goes on if and only if the zero run read leaves at most the samples still to come and what follows can be decoded |
| AlacEntropy.OverlongRun | framework/components/alac/src/alac.c:375-396 | for every frame of two samples or more and every longer run of 16 bits, bits that name that run: the frame has no meaning, one long enough for the run decodes to zeros |
| AlacEntropy.ValueRoundTrip | framework/components/alac/src/alac.c:302-336 | one value comes back whatever follows it, through quotient, escape, remainder and the one-bit give-back |
| AlacEntropy.ShortExactly | framework/components/alac/src/alac.c:302-336 | for any bits behind a quotient of up to eight ones: the value in numbers, and that the last bit is not taken when they say 0 or 1 |
| AlacEntropy.UnaryExactly | framework/components/alac/src/alac.c:318 | with parameter 1 the quotient is the value |
| AlacEntropy.LongExactly | framework/components/alac/src/alac.c:310-317 | nine ones, and the value of the given width as it stands behind them |
| AlacEntropy.ZeroRemainderBack | framework/components/alac/src/alac.c:319-332 | k-1 zeros stand for remainder 0 whichever bit follows, because the code gives that bit back |
| AlacEntropy.EscapeBack | framework/components/alac/src/alac.c:306-318 | nine ones are an escape: no ninth zero is consumed |
| AlacEntropy.SampleParamMeaning | framework/components/alac/src/alac.c:345-355 | the sample parameter is the smaller of the logarithm of (history >> 9) + 3 and the modifier, and between 1 and 16 |
| AlacEntropy.RunParamExact | framework/components/alac/src/alac.c:380 | the zero-run parameter for every history below 128: 8, 7, 6, 5, 4, 3 at the powers of two, 2 from 32, 3 from 48, 2 from 64 and 3 from 112 |
| AlacEntropy.RunParamBounds | framework/components/alac/src/alac.c:380 | so it lies between 2 and 8 |
| AlacEntropy.NextHistoryBounded | framework/components/alac/src/alac.c:368-373 | for every multiplier up to 512 the history stays between 0 and 512 * 65535 |
| AlacEntropy.HistoryExactly | framework/components/alac/src/alac.c:368-373 | the history moves towards 512 times the folded sample, its distance shrinking by multiplier / 512; a sample above 65535 sets it to 65535 |
| AlacEntropy.OtherTermsFit | framework/components/alac/src/alac.c:369-370 | whatever the stream says, no term of the history update but the product of history and multiplier can leave 32 bits |
| AlacEntropy.DecodeValueBound | framework/components/alac/src/alac.c:302-336 | a decoded value of a channel is less than 9 * 65535, from any bits |
| AlacEntropy.OverflowFreeIff | framework/components/alac/src/alac.c:369-370 | no residual sequence makes the history product leave 32 bits if and only if the multiplier is at most 64 |
| AlacEntropy.LoudRunOverflows | framework/components/alac/src/alac.c:369-370 | for every multiplier from 65 to 512 a run of loud residuals that overflows the product |
| AlacEntropy.UnfoldFold | framework/components/alac/src/alac.c:360-364 | the sign in the low bit is put back: even values are their half, odd ones the negative of half the next |
| AlacPredictor.FirRoundTrip | framework/components/alac/src/alac.c:404-522 | the adaptive predictor is invertible in all three modes: the encoder's residuals give back the samples and both sides end with the same coefficient table |
| AlacPredictor.ReconstructInverts | framework/components/alac/src/alac.c:470-485 | one sample is restored despite sign extension and the 32-bit wrap of the prediction sum |
| AlacPredictor.ResidualsInRange | framework/components/alac/src/alac.c:404-522 | every residual of a channel fits the sample width the Rice coder carries |
| AlacPredictor.AdaptsTowardsSample | framework/components/alac/src/alac.c:487-517 | adaptation moves the weighted sum of the window up after a positive residual and down after a negative one, unless a 16-bit coefficient wraps |
| AlacPredictor.AdaptsExactly | framework/components/alac/src/alac.c:487-517 | which coefficients an adaptation moves and by what, for every window, table and residual: one moves by the sign exactly while the shifted and weighted distances of those visited before it add up to less than the residual |
| AlacPredictor.SampleExactly | framework/components/alac/src/alac.c:404-485 | each sample by its mode: the residual, the sample before plus it, or the rounded 32-bit sum shifted right plus the sample that leaves the window plus it, reduced to the sample width |
| AlacPredictor.TableExactly | framework/components/alac/src/alac.c:404-522 | the table changes only in the general mode behind the warm-up, and then as said |
| AlacPredictor.AdaptsByOne | framework/components/alac/src/alac.c:487-517 | an adaptation changes each coefficient by at most one step and none behind those it visits |
| AlacMix.UnmixInverts | framework/components/alac/src/alac.c:537-545 | un-mixing inverts mixing for every shift and every weight, because the truncation to 16 bits undoes the wrap of a middle value too wide for its channel |
| AlacMix.InterleaveMeans | framework/components/alac/src/alac.c:537-573 | the pair written for any channel values, shift and weight: right is the first channel less the whole part of the weighted difference over 2^shift, left is right plus the difference, both cut to 16 bits |
| AlacMix.StereoRoundTrip | framework/components/alac/src/alac.c:524-573 | mixing two channels and interleaving the un-mixed ones gives left and right in turn |
| AlacMix.MixInRange | framework/components/alac/src/alac.c:853 | mixed channel values fit 17 bits, the width the frame codes them in |
| AlacReader.Read16Value | framework/components/alac/src/alac.c:139-165 | three bytes shifted, masked and shifted back are the big-endian value of the bits at the position |
| AlacReader.ReadBitValue | framework/components/alac/src/alac.c:182-199 | the shifted top bit of a byte is the bit at the position |
| AlacReader.SplitRead | framework/components/alac/src/alac.c:168-179 | a read of more than 16 bits is two reads put together |
| AlacDecoder.AlacFile.Read16 | framework/components/alac/src/alac.c:139-165 | the reader refines an index into a bit sequence: value of the next bits, position advanced, offset within 0..7 |
| AlacDecoder.AlacFile.ReadBits | framework/components/alac/src/alac.c:168-179 | the same for 1 to 32 bits |
| AlacDecoder.AlacFile.ReadBit | framework/components/alac/src/alac.c:182-199 | the next bit, position advanced by one |
| AlacDecoder.AlacFile.UnreadBits | framework/components/alac/src/alac.c:201-209 | the position goes back by the bits given up, offset within 0..7 |
| AlacDecoder.AlacFile.EntropyDecodeValue | framework/components/alac/src/alac.c:302-336 | returns the value at the position and stops where its code stops |
| AlacDecoder.AlacFile.ParamOf | framework/components/alac/src/alac.c:350-355 | computes the sample parameter from the running history |
| AlacDecoder.AlacFile.UpdateHistory | framework/components/alac/src/alac.c:369-373 | computes the next history |
| AlacDecoder.AlacFile.RiceTurn | framework/components/alac/src/alac.c:350-396 | one turn of the decoding loop: a sample and the zero run behind it, with what is before them untouched |
| AlacDecoder.AlacFile.EntropyRiceDecode | framework/components/alac/src/alac.c:338-398 | fills the front of the buffer with exactly the residuals the bits mean |
| AlacBuffers.PredictorSum | framework/components/alac/src/alac.c:473-475 | the sum accumulated with wrap at every step is the wrapped exact weighted sum of the window |
| AlacBuffers.AdaptCoefficients | framework/components/alac/src/alac.c:487-517 | changes the table in place to the adapted one, exactly the coefficients it should move |
| AlacBuffers.AdaptOne | framework/components/alac/src/alac.c:487-517 | one coefficient, and the residual left for the next |
| AlacBuffers.AddDeltas | framework/components/alac/src/alac.c:420-449 | delta and warm-up samples, leaving the rest of the buffer alone |
| AlacBuffers.PredictSample | framework/components/alac/src/alac.c:464-519 | one sample of the general mode and the adaptation it causes |
| AlacBuffers.PredictorDecompressFirAdapt | framework/components/alac/src/alac.c:404-522 | buffer and table end as the prediction of the whole channel says |
| AlacBuffers.Deinterlace16 | framework/components/alac/src/alac.c:524-573 | fills the front of the PCM buffer with the interleaved un-mixed pairs and nothing else |
| AlacDecoder.AlacFile.ReadChannelHeader | framework/components/alac/src/alac.c:876-902 | reads one channel's settings, coefficients to the front of the table |
| AlacDecoder.AlacFile.ReadCompressed | framework/components/alac/src/alac.c:870-932 | a compressed stereo body |
| AlacDecoder.AlacFile.ReadPlain | framework/components/alac/src/alac.c:933-945 | an uncompressed stereo body |
| AlacDecoder.AlacFile.ReadStereo | framework/components/alac/src/alac.c:816-976 | the stereo branch with its size check |
| AlacDecoder.AlacFile.DecodeFrame | framework/components/alac/src/alac.c:644-976 | a frame in the buffers: PCM, reported size and position are those of the frame's meaning, 0 when the output is too small, the rest of the output untouched |
| RtpReorder.SeqLtExact | framework/components/raop/src/rtp_reorder.c:4 | modular order is the true order for numbers within half the sequence space |
| RtpReorder.SeqDiffExact | framework/components/raop/src/rtp_reorder.c:5 | modular difference is the true difference below the sequence space |
| RtpReorder.SlotOfSeq | framework/components/raop/src/rtp_reorder.c:24 | a slot does not depend on the wrap, because the window divides 65536 |
| RtpReorder.SlotsDiffer | framework/components/raop/src/rtp_reorder.c:24 | two numbers of one window never share a slot |
| RtpReorder.Reorder.constructor | framework/components/raop/src/rtp_reorder.c:7-13 | an empty buffer; a hold of 0 or beyond the window becomes window - 1 |
| RtpReorder.Reorder.AnchorAt | framework/components/raop/src/rtp_reorder.c:14-16 | refines anchoring of the queue over unbounded numbers at the number the sequence number stands for; the buffer stays in order if and only if nothing was left in it |
| RtpReorder.NumberOfIff | framework/components/raop/src/rtp_reorder.c:4-5 | the 16 bits of a packet number stand for that number exactly when it is within half the sequence space of the cursor |
| RtpReceiver.WindowIff | framework/components/raop/src/rtp_reorder.c:23 | a sequence number stands for a number in the window exactly when its 16-bit distance from the cursor is less than the window |
| RtpReorder.Reorder.Insert | framework/components/raop/src/rtp_reorder.c:18-31 | refines insertion into a map over unbounded numbers, of the number nearest to the cursor with these 16 bits, with exact results STORED, DUP, TOO_OLD, TOO_NEW and BADLEN; writes no live slot and no slot but its own |
| RtpQueue.Queue.InsertExactly | framework/components/raop/src/rtp_reorder.c:18-31 | which payloads are refused and why, 1536 bytes being the most, and that a stored one is all that changes |
| RtpReorder.Reorder.Store | framework/components/raop/src/rtp_reorder.c:24-30 | fills the free slot of a packet in the window and no other |
| RtpReorder.Reorder.Pop | framework/components/raop/src/rtp_reorder.c:33-51 | refines the pop of the queue: OK with the stored bytes, CONCEAL, WAIT or EMPTY |
| RtpReorder.Reorder.Gap | framework/components/raop/src/rtp_reorder.c:53-69 | reports exactly the missing numbers between the cursor and the first buffered one |
| RtpQueue.RunDeliversInOrder | framework/components/raop/src/rtp_reorder.c:18-51 | over every run of inserts and pops the cursor's advances are consecutive numbers, each delivered once as the bytes first stored for it or concealed when none were; stored bytes are never replaced |
| RtpQueue.DrainMeaning | framework/components/raop/src/raop_rtp.c:218-230 | a drain delivers or conceals every number up to the first one missing within the hold distance, keeps the later ones, and leaves head - next at most hold |
| RtpQueue.DrainedGap | framework/components/raop/src/raop_rtp.c:218-253 | after a drain there is a range to request exactly when the drain stopped on WAIT, and it is shorter than hold |
| RtpQueue.InOrderDelivery | framework/components/raop/src/raop_rtp.c:211-230 | over unbounded numbers, bounded reordering and duplication are invisible: what was played is the in-order stream up to the first packet not arrived, with no concealment, whatever the arrival order |
| RtpQueue.EveryNumberAccounted | framework/components/raop/src/raop_rtp.c:211-230 | whatever arrives in whatever order, consecutive numbers have been passed, each played as its own packet, which had arrived, or concealed |
| RtpReceiver.ProgressIff | framework/components/raop/src/raop_rtp.c:218-230 | gap or no gap, from any state between two datagrams a run of datagrams plays something, a packet or its concealment, if and only if one of them carries a payload in the window whose 16-bit distance from the cursor is 0 or at least hold; otherwise nothing played changes |
| RtpReceiver.StallingRun | framework/components/raop/src/raop_rtp.c:218-230 | one lost packet, the one behind it in, and nothing but packets beyond the window from then on: nothing is ever played although the buffer holds a packet |
| RtpReceiver.TakesIff | framework/components/raop/src/rtp_reorder.c:22-23 | an empty buffer takes a packet from a run of datagrams if and only if one of them carries a payload whose 16-bit distance from the cursor is less than the window |
| RtpReceiver.StaleDuplicate | framework/components/raop/src/rtp_reorder.c:22-30 | a packet from behind the cursor, however old and whatever is buffered, is dropped if and only if its 16-bit distance ahead of the cursor is beyond the window or the packet that far ahead is in; otherwise it is stored as that packet |
| RtpPackets.PacketRoundTrip | framework/components/raop/src/rtp_parser.c:3-23 | parsing gives back the fields of a packet, and unwrapping a resend response the packet |
| RtpPackets.FieldsExactly | framework/components/raop/src/rtp_parser.c:12-23 | every field of a packet by its bytes, for any datagram, and what a resend response wraps |
| RtpPackets.RequestRoundTrip | framework/components/raop/src/rtp_resend.c:3-8 | the 8-byte request is of type 0x55 and carries first number and count unharmed |
| RtpReceiver.CarriedExactly | framework/components/raop/src/raop_rtp.c:257-302 | which datagrams carry audio, by length and type bytes |
| RtpReceiver.RtpTask.DrainDecode | framework/components/raop/src/raop_rtp.c:218-230 | pops until WAIT or EMPTY and hands on every delivery and one silence per concealment, in order; ends |
| RtpReceiver.RtpTask.PopAndPlay | framework/components/raop/src/raop_rtp.c:218-230 | one pop: a delivery or a silence is handed on, WAIT and EMPTY end the drain |
| RtpReceiver.RtpTask.TakeIn | framework/components/raop/src/raop_rtp.c:211-230 | buffering a payload and draining is one arrival, and leaves no gap of hold or more |
| RtpReceiver.RtpTask.InsertAudio | framework/components/raop/src/raop_rtp.c:211-214 | buffers a payload and ignores what the buffer thinks of it |
| RtpReceiver.RtpTask.HandleAudio | framework/components/raop/src/raop_rtp.c:257-283 | any audio datagram is the arrival its 16-bit number stands for, the first one anchors; a request is sent if and only if there is a control socket and a gap in front that was not asked for a moment ago, names exactly that gap, and is remembered |
| RtpReceiver.RtpTask.TakeAudio | framework/components/raop/src/raop_rtp.c:267-281 | the part of that up to the drain |
| RtpReceiver.FirstIsPlayed | framework/components/raop/src/raop_rtp.c:267-272 | the first audio packet is the first one played, whatever its number |
| RtpReceiver.LossIsAskedFor | framework/components/raop/src/raop_rtp.c:235-253 | a packet that leaves some missing in front of it, fewer than hold, is held and makes the receiver ask for exactly those |
| RtpReceiver.RtpTask.HandleControl | framework/components/raop/src/raop_rtp.c:287-302 | a resend response is the arrival of the packet it wraps, anything else changes nothing |
| RtpReceiver.RtpTask.Handle | framework/components/raop/src/raop_rtp.c:257-302 | a datagram of either socket is received as it should be, and answered with a request exactly when it should be |
| RtpReceiver.RtpTask.HandleAll | framework/components/raop/src/raop_rtp.c:362-366 | a run of datagrams on both sockets is received one after the other, each answered with a request exactly when it should be |
| RtpReceiver.RtpTask.MaybeRequestResend | framework/components/raop/src/raop_rtp.c:235-253 | a request is sent exactly when a peer and socket are known, there is a gap and it was not asked for a moment ago, and it names exactly the missing packets |
| RtpReceiver.WireArrivals | framework/components/raop/src/rtp_resend.c:9-16 | the 16 bits on the wire, in a direct packet or a resend response, stand for the sender's numbers over any number of wraps, as long as each arrives within half the sequence space of the cursor |
| RtpReceiver.StreamIsAccounted | framework/components/raop/src/raop_rtp.c:211-302 | with every arrival within half the sequence space of the cursor, after any number of datagrams every number passed was played as its own packet or concealed, read off the 16-bit numbers alone |
| RtpReceiver.ReorderWithinReach | framework/components/raop/src/rtp_reorder.c:22-23 | bounded reordering with no packet half the sequence space behind another keeps every arrival within that reach |
| RtpReceiver.StreamIsInOrder | framework/components/raop/src/raop_rtp.c:211-302 | loss repaired by retransmission, duplication and bounded reordering leave no trace in what is played, read off the 16-bit numbers alone |
| RtpDecode.Player.DecodeAndFeed | framework/components/raop/src/raop_rtp.c:182-206 | the ring grows by the frames the payload decodes to, as many as the feed gets in, by nothing for a bad length or a failing cipher |
| RtpDecode.ClearExactly | framework/components/raop/src/raop_rtp.c:182-196 | as many whole blocks of 16 bytes as there are go through the cipher, the rest is taken as it is |
| RtpDecode.Player.DecodeClear | framework/components/raop/src/raop_rtp.c:193-206 | a payload in the clear, behind it what an earlier one left in the buffer, is decoded and fed |
| RtpDecode.EncodedPayloadPlays | framework/components/raop/src/raop_rtp.c:182-206 | when a payload in the clear is an encoded frame padded to bytes, the frames fed are the sender's samples whatever an earlier packet left behind it |
| RtpStream.PlayOut | framework/components/raop/src/raop_rtp.c:182-230 | items handed on put into the ring what they stand for, in order and behind what is there, as many frames as the feeds get in |
| RtpStream.PlayDatagram | framework/components/raop/src/raop_rtp.c:211-302 | one datagram of a stream, and what it sets free decoded and fed at once |
| RtpStream.PlayStream | framework/components/raop/src/raop_rtp.c:155-302 | end to end, for any encrypted encoded frames within reach, lost, late, doubled or resent: the ring's stream grows by consecutive packets, each its samples or a frame length of silence, all of them when the playback side keeps up; with losses repaired and reordering below hold it is the sender's samples up to the first packet not arrived |
| RtpStream.ItemsComplete | framework/components/raop/src/raop_rtp.c:155-177 | running and drained between attempts, every item is fed whole within one look a frame, two a frame of silence |
| RtpStream.LooksBound | framework/components/raop/src/raop_rtp.c:155-177 | which is at least one and at most two looks for every frame of the stream |
| PcmRing.DistanceExact | framework/components/audio/src/audio_ringbuf.c:11-15 | the fill computed from wrapped indices is frames written minus frames consumed |
| PcmRing.RingBuf.Available | framework/components/audio/src/audio_ringbuf.c:11-15 | the number of unread frames |
| PcmRing.RingBuf.FreeSpace | framework/components/audio/src/audio_ringbuf.c:17-20 | capacity - 1 less the unread frames |
| PcmRing.RingBuf.Write | framework/components/audio/src/audio_ringbuf.c:22-39 | appends as many frames as fit, in one or two pieces, and disturbs no unread frame |
| PcmRing.RingBuf.Read | framework/components/audio/src/audio_ringbuf.c:41-58 | takes up to n of the oldest frames in order |
| PcmRing.RingBuf.Drop | framework/components/audio/src/audio_ringbuf.c:60-67 | discards up to n of the oldest frames |
| PcmRing.RingBuf.FirstFrame | framework/components/audio/src/audio_ringbuf.c:69-75 | shows the oldest frame, if any, and leaves it |
| PcmSteps.NoConflict | framework/components/audio/src/audio_ringbuf.c:22-75 | in every reachable state the producer writes no slot holding an unread frame, the consumer reads only the published frame it is owed, and they never touch one slot |
| PcmSteps.StepSafe | framework/components/audio/src/audio_ringbuf.c:11-75 | every index load, frame copy and index publication of either side keeps the ring safe; stale indices only under-report |
| PcmSteps.NeverBlocked | framework/components/audio/src/audio_ringbuf.c:22-67 | a task in the middle of a write, read or drop can always go on |
| PcmSteps.StepIsFifo | framework/components/audio/src/audio_ringbuf.c:22-67 | every step is invisible to a bounded FIFO, or appends the accepted frames, or takes the returned ones off the front |
| PcmSteps.AmountsExactly | framework/components/audio/src/audio_ringbuf.c:22-75 | how many frames a write accepts, a read or drop takes and what a look sees, by the queue when the index is loaded |
| PcmSteps.PublishesExactly | framework/components/audio/src/audio_ringbuf.c:22-67 | publishing appends all that was accepted, or takes off all that was copied or is to be dropped |
| PcmSteps.RunIsFifo | framework/components/audio/src/audio_ringbuf.c:11-75 | under every interleaving from the empty ring the consumed frames are a prefix of the written ones |
| PcmFeed.Feeder.FeedPcm | framework/components/raop/src/raop_rtp.c:155-161 | the ring's stream grows by a beginning of the decoded frames, exactly as long as looks at the flag and room allow; left over only when stopped or out of looks |
| PcmFeed.Feeder.Try | framework/components/raop/src/raop_rtp.c:155-161 | one look at the flag and one attempt take the feed to where its function goes in one turn |
| PcmFeed.FeedCompletes | framework/components/raop/src/raop_rtp.c:155-161 | while the task runs and the ring is drained between attempts everything is fed, within one attempt a frame |
| PcmFeed.ShortOnlyWhenFull | framework/components/raop/src/raop_rtp.c:155-161 | while the task runs no attempt passes over room: frames are left only in front of a full ring |
| PcmFeed.StoppedFeedsNothing | framework/components/raop/src/raop_rtp.c:155-177 | once the flag is down nothing is fed |
| PcmFeed.Feeder.FeedSilence | framework/components/raop/src/raop_rtp.c:165-177 | the same for a number of zero frames in chunks of at most 256 |
| PcmFeed.ChunksComplete | framework/components/raop/src/raop_rtp.c:165-177 | while the task runs and the ring is drained between attempts all of them are fed |
| Playback.Player.Cycle | framework/components/audio/src/audio_playback.c:67-126 | one cycle, with the producer writing between its looks at the ring, does exactly what the fill at each look calls for, and emits exactly what that stands for |
| Playback.Player.Look | framework/components/audio/src/audio_playback.c:67-126 | the one look at the fill at the top of a cycle is the fill then, and is logged |
| Playback.Player.StayQuiet | framework/components/audio/src/audio_playback.c:67-126 | an unprimed cycle emits one chunk of silence and takes nothing |
| Playback.OneLookPerCycle | framework/components/audio/src/audio_playback.c:76 | a cycle observes the fill once, first of all, as it is then |
| Playback.CycleCorrects | framework/components/audio/src/audio_playback.c:93-113 | a cycle corrects at most once: a drop exactly when primed and the ring brim-full, a duplicate exactly when a chunk or less but not nothing is left |
| Playback.CycleIsSilent | framework/components/audio/src/audio_playback.c:81-126 | a cycle is silent exactly when not primed or when its read finds nothing, and otherwise plays what the read finds up to a chunk |
| Playback.CycleConserves | framework/components/audio/src/audio_playback.c:67-126 | taken and unread frames together grow only by what the producer hands over |
| Playback.SilentIff | framework/components/audio/src/audio_playback.c:81-91 | from an underrun on only silence leaves the loop exactly as long as no cycle sees at least the prefill in the ring |
| Playback.LoopIsCycles | framework/components/audio/src/audio_playback.c:67-126 | what a loop does is what its cycles do, one after the other |
| Playback.Player.Correct | framework/components/audio/src/audio_playback.c:93-126 | the primed part of a cycle: the correction due for the fill seen, then the read |
| Playback.Player.DropOrDouble | framework/components/audio/src/audio_playback.c:93-113 | carries out the correction due for the fill seen |
| Playback.Player.PlayChunk | framework/components/audio/src/audio_playback.c:115-126 | plays all that is in the ring up to a chunk, in stream order; silence and no longer primed exactly when it is empty |
| Playback.Player.Loop | framework/components/audio/src/audio_playback.c:67-126 | the same for any number of cycles |
| Playback.TakenInOrder | framework/components/audio/src/audio_playback.c:67-126 | every frame taken from the ring is played or dropped once, in stream order |
| Playback.DupThenItsFrame | framework/components/audio/src/audio_playback.c:98-118 | a duplicate is followed at once by the frame it doubles |
| Playback.OneCorrectionPerCycle | framework/components/audio/src/audio_playback.c:93-113 | in every log the loop can write a correction comes right after a look at the fill |
| Playback.CorrectionIff | framework/components/audio/src/audio_drift.c:2-7 | and in every such log a look at the fill is followed by a drop or a duplicate exactly when the watermarks call for one |
| Playback.SilentUntilPrefilled | framework/components/audio/src/audio_playback.c:81-91 | in every such log the prefill has been observed between an underrun and the next frame |
| Playback.MonoExceptDuplicates | framework/components/audio/src/audio_playback.c:16-28 | in the mono build what is emitted has equal channels, except exactly a duplicate of a frame that has not: the duplicate path skips the mix |
| Playback.RenderExactly | framework/components/audio/src/audio_playback.c:67-126 | the output frame by frame: silence is zeros in chunks of 256, a played frame keeps its channels or, in the mono build, has half of left plus right in both, an extra copy is the frame as it is |
| RtspParser.ParseStable | framework/components/raop/src/rtsp_parser.c:23-92 | a completed parse is unchanged by the bytes that follow |
| RtspParser.ParseNeedsOnlyItsBytes | framework/components/raop/src/rtsp_parser.c:23-92 | a completed parse needs no byte behind the request |
| RtspParser.ParseRequest | framework/components/raop/src/rtsp_parser.c:23-92 | the scanning parser returns the request at the front or that more bytes are needed |
| RtspParser.ScanCrlf | framework/components/raop/src/rtsp_parser.c:17-21 | the first line end before the limit |
| RtspParser.LookUp | framework/components/raop/src/rtsp_parser.c:94-98 | the first header of that name, ignoring case |
| RtspParser.ScanHeaders | framework/components/raop/src/rtsp_parser.c:59-73 | the headers of the block, at most 20 |
| RtspPrint.RequestRoundTrip | framework/components/raop/src/rtsp_parser.c:23-92 | parsing inverts printing: line, headers and body come back from a printed request with anything behind it, cut only by the fixed-size fields and the 20 headers there is room for |
| RtspPrint.ExactRoundTrip | framework/components/raop/src/rtsp_parser.c:9-92 | nothing is lost of a request with verb and version under 16 bytes, URI under 128, at most 20 headers, names under 32 and values under 384 bytes |
| RtspPrint.PartsExactly | framework/components/raop/src/rtsp_parser.c:9-92 | of any printed request exactly the first 15, 127, 31 and 383 bytes of the parts and the first 20 headers come back |
| RtspPrint.ShortLines | framework/components/raop/src/rtsp_parser.c:38-57 | a request line of one word or two has the other parts empty |
| RtspPrint.HeaderForms | framework/components/raop/src/rtsp_parser.c:59-73 | one leading blank of a value is dropped, and a line without a colon is no header |
| RtspPrint.IgnoringCase | framework/components/raop/src/rtsp_parser.c:94-98 | names are compared letter by letter up to the case of ASCII letters |
| RtspPrint.LongExactly | framework/components/raop/src/rtsp_parser.c:109-116 | what strtol makes of white space, a sign and a decimal number of any size |
| RtspPrint.DeclaredRoundTrip | framework/components/raop/src/rtsp_parser.c:75-92 | the same when the first header named Content-Length gives the body's length in decimal |
| RtspPrint.LongRoundTrip | framework/components/raop/src/rtsp_parser.c:109-116 | a decimal length is read back |
| RtspPrint.TermFound | framework/components/raop/src/rtsp_parser.c:26-34 | the first blank line of a printed request is the one behind its headers |
| RtspTraffic.StreamOfRequests | framework/components/raop/src/raop.c:513-528 | a stream of printed requests is dispatched request by request, up to the first TEARDOWN, with what follows left over |
| RtspTraffic.PrintedFits | framework/components/raop/src/raop.c:505-528 | such a stream fits the buffer when each request does, so it is served so however it is cut |
| RtspTraffic.AnsweredMeaning | framework/components/raop/src/raop.c:513-528 | the requests answered are those up to and including the first TEARDOWN |
| RtspServer.RequestsSplit | framework/components/raop/src/raop.c:513-528 | dispatching a beginning of a stream and going on with the leftover dispatches what the whole stream does |
| RtspServer.LeftoverFits | framework/components/raop/src/raop.c:505-528 | what a beginning of a fitting stream leaves is shorter than the buffer |
| RtspServer.Connection.DispatchAll | framework/components/raop/src/raop.c:516-528 | dispatches every complete request up to a TEARDOWN and keeps the rest at the front |
| RtspServer.Connection.Receive | framework/components/raop/src/raop.c:505-534 | after every recv what was dispatched is what the bytes received so far ask for |
| RtspServer.Connection.DispatchOne | framework/components/raop/src/raop.c:516-528 | one turn of that loop: the request at the front of the buffer, if it is complete |
| RtspServer.Connection.Serve | framework/components/raop/src/raop.c:505-534 | framing does not depend on chunking: however recv splits a stream of requests that fit the buffer, those dispatched are those of the unsplit stream up to the first TEARDOWN, and the buffer never fills |
| RtspServer.DrainBody | framework/components/raop/src/raop.c:485-491 | throws away no more than is to be drained, and all of it unless the peer stops sending |
| RtspServer.ScanExactly | framework/components/raop/src/raop.c:333-357 | what the loose search answers for any block: the number behind the first place where the key stands |
| RtspServer.ScanMisses | framework/components/raop/src/raop.c:333-357 | and -1 when there is none |
| RtspServer.TeardownName | framework/components/raop/src/raop.c:295-300 | the connection ends with the method spelled TEARDOWN and no other |
| RtspServer.Connection.Oversized | framework/components/raop/src/raop.c:467-504 | a full buffer without a header end rejects the connection; with one, no more than the rest the search reads is thrown away, all of it unless the bytes or the turns run out, and the connection goes on with an empty buffer |
| RtspServer.LeftoverIncomplete | framework/components/raop/src/raop.c:516-528 | what a dispatching turn leaves is an incomplete request |
| RtspServer.ResyncIff | framework/components/raop/src/raop.c:467-498 | after a complete drain the connection stands at the end of the oversized request if and only if the loose search read the length the parser would |
| RtspServer.LooseSearchDisagrees | framework/components/raop/src/raop.c:467-498 | every full buffer that starts with a certain head is an incomplete request for which the search reads another length, so that nothing is drained and the connection goes on in its body |
| RtspResync.SearchAgrees | framework/components/raop/src/raop.c:345-357 | the search reads the declared length when the place it hits first is the declaring header |
| RtspResync.OversizedResyncs | framework/components/raop/src/raop.c:467-498 | then draining ends exactly where the printed request ends |
| RtspResync.ResyncsIff | framework/components/raop/src/raop.c:467-498 | for any printed oversized request the connection goes on at its end if and only if the number behind the first occurrence of the key in its head is its body's length |
| RtspTraffic.ServeAll | framework/components/raop/src/raop.c:467-534 | the whole loop over printed requests, some larger than the buffer: when each of those has its body's length behind the first occurrence of the key, the requests dispatched are all but the oversized ones up to the first TEARDOWN, however recv cuts the stream |
| RtspTraffic.PrefixDispatches | framework/components/raop/src/raop.c:513-528 | any beginning of such a stream that fits the buffer dispatches the messages whole in it and leaves the beginning of the rest |
| RtspTraffic.ReceiveTurn | framework/components/raop/src/raop.c:505-534 | one recv of that loop |
| RtspTraffic.SkipTurn | framework/components/raop/src/raop.c:467-498 | one pass through its branch for a full buffer: the oversized message is gone, or the turns have run out before its end |
| RtspTraffic.Skips | framework/components/raop/src/raop.c:467-498 | with an oversized message at the front of a full buffer, what is to be drained ends where the message ends |
| RtspResync.KeyIsThere | framework/components/raop/src/raop.c:345-357 | there is such an occurrence, the declaring header at the latest |
| Lifecycle.HandoffIsSafe | framework/components/raop/src/raop_rtp.c:336-380 | in every interleaving at most one task can be writing PCM, decoder, key and slots live while the RTP task can touch them, and its audio socket is open |
| Lifecycle.RecordingIsStreaming | framework/components/raop/src/raop.c:253-284 | between requests, state RECORDING implies key, format, a running RTP task and the producer slot held by it |
| Lifecycle.TeardownEndsClean | framework/components/raop/src/raop.c:75-82 | every teardown ends idle with the task joined, its resources freed, the slot not its own and the session's handles closed |
| Lifecycle.TeardownCanEnd | framework/components/raop/src/raop.c:75-82 | from every reachable state between requests a teardown can run to the idle session with the task gone and the handles closed, and so can the idle timeout unless the session is recording, when it changes nothing |
| Lifecycle.SessionCanStream | framework/components/raop/src/raop.c:253-284 | from every reachable state between requests without a stream and without a tone start under way, ANNOUNCE, SETUP and RECORD can lead to streaming, even beside a running tone |
| Lifecycle.RecordBeginsIff | framework/components/raop/src/raop.c:168-262 | after an ANNOUNCE a RECORD begins if and only if there was a key and there is a format |
| Lifecycle.SetupExactly | framework/components/raop/src/rtsp_session.c:54-67 | a SETUP binds three handles nobody had, or leaves the session without any |
| Lifecycle.TasksWork | framework/components/raop/src/raop_rtp.c:336-380 | a task that has looked works while its flag is up, and is on its way out once it is down |
| Lifecycle.OthersChangeNothing | framework/components/raop/src/raop.c:253-262 | a refused request changes nothing |
| Lifecycle.StopWaitsForAnEndingTask | framework/components/raop/src/raop_rtp.c:537-550 | a stop that still waits waits for a task that was told to end and can take a step towards it |
| Lifecycle.ToneStopJoins | framework/components/audio/src/audio_diag.c:74-78 | when the tone stop returns no tone task is left and the slot is not a tone's, unless a new start has just begun, as long as no start resets the done flag of an ending tone |
| Lifecycle.ToneStopProgresses | framework/components/audio/src/audio_diag.c:74-78 | in every reachable state in which the tone stop waits, some continuation ends its wait if and only if it is not stuck: done flag down, no tone ending, and the tone on record not told to end, or none there and none that has been told to end being created |
| Lifecycle.GetsStuckIff | framework/components/audio/src/audio_diag.c:56-78 | the steps that get it stuck are exactly a start passing its flags during the wait with no tone ending, the wait beginning with no tone left and none being created, and the failing creation of a tone already told to end |
| Lifecycle.NoStartNotStuck | framework/components/audio/src/audio_diag.c:56-78 | as long as no start passes its flags while a tone is being stopped the stop is never stuck, and the tone it waits for can take a step |
| Lifecycle.RestartHangs | framework/components/audio/src/audio_diag.c:56-78 | every start that passes its flags during the wait with no tone ending gets the stop stuck, whether or not its task can be created |
| Lifecycle.RestartLetsThrough | framework/components/audio/src/audio_diag.c:56-78 | every start that does so with a tone ending has a continuation in which the stop returns beside the running new tone |
| Lifecycle.StuckForEver | framework/components/audio/src/audio_diag.c:74-78 | no step of any task ends a stuck wait |
| Lifecycle.HangingStop | framework/components/audio/src/audio_diag.c:56-78 | a run from the start that gets stuck beside a running tone although no start overtakes an ending one |
| Lifecycle.OvertakenStop | framework/components/audio/src/audio_diag.c:56-78 | a run in which a start does, and the stop returns while a tone is running |
| Lifecycle.LossIff | framework/components/raop/src/rtsp_session.c:54-67 | a bound handle is overwritten exactly by a SETUP that finds the session's sockets bound |
| Lifecycle.RunKeeps | framework/components/raop/src/raop_rtp.c:459-550 | the invariant behind these results holds after every run of steps of all tasks |
| Base64.EncodeDecode | framework/components/raop/src/base64.c:16-66 | decoding inverts encoding for every byte string |
| Base64.AlphabetExactly | framework/components/raop/src/base64.c:3-14 | the characters of the 64 values, and that no other character has one |
| Base64.GroupExactly | framework/components/raop/src/base64.c:16-45 | a group of three bytes is four characters of six bits each, a rest is padded |
| Base64.BlanksExactly | framework/components/raop/src/base64.c:53-54 | which characters are skipped, and which one ends the text |
| Base64.DecodeTolerates | framework/components/raop/src/base64.c:53-54 | so does decoding any text that is the encoding but for blanks anywhere and for its padding, present or stripped as in the challenge reply |
| Base64.AccumulatorStep | framework/components/raop/src/base64.c:57-62 | the 32-bit accumulator that keeps shifting old bits out still holds the bits not yet given out |
| Base64.EncodeLength | framework/components/raop/src/base64.c:17-18 | the size asked for is exactly what the encoding and its terminator take |
| Base64.Base64Encode | framework/components/raop/src/base64.c:16-45 | writes the encoding and a terminator, or -1 and nothing when it does not fit |
| Base64.Base64Decode | framework/components/raop/src/base64.c:47-66 | writes the decoded bytes, or -1 for a foreign character or too little room |
| Dmap.ParseInvertsPrinting | framework/components/raop/src/dmap.c:28-54 | parsing the encoding of any tree of tags yields the stored texts reachable through at most four containers and their count |
| Dmap.WalkPrefix | framework/components/raop/src/dmap.c:28-48 | truncation at any byte keeps exactly the tags whole at their level; deeper containers are skipped without disturbing what follows |
| Dmap.FourDeep | framework/components/raop/src/dmap.c:19-36 | a text is found inside four containers and not inside five |
| Dmap.TagExactly | framework/components/raop/src/dmap.c:20-34 | code, length and value of a tag byte by byte |
| Dmap.OthersStay | framework/components/raop/src/dmap.c:37-44 | a code without a text leaves its field alone |
| Dmap.LastStays | framework/components/raop/src/dmap.c:40-42 | the last "minm", "asar" and "asal" stay as title, artist and album, cut to 127 bytes |
| Dmap.DmapMeta.WalkBytes | framework/components/raop/src/dmap.c:28-48 | the walk ends in bounds on every input and stores and counts what it means |
| Dmap.DmapMeta.DmapParse | framework/components/raop/src/dmap.c:50-54 | the same from an empty result |

## Left out

- ALAC mono frames, 24-bit output, low uncompressed bytes in compressed frames, unknown prediction types and `alac_set_info`: the receiver accepts only 16-bit stereo, and those branches are unused or unfinished. The meaning of a frame is `None` there, as for frames longer than the stream's maximum and zero runs past the frame end (`AlacEntropy.RunFitsIff`, `AlacEntropy.OverlongRun`), which the C code does not check. For channel tags from 2 on, where the code leaves the full size reported and the output as it was, it is `None` too.
- The reader reads three bytes at a time, so two bytes behind the frame are assumed in the losslessness results; the receiver's 2048-byte plain buffer has them.
- AlacEntropy.RiceRoundTrip: assumes that no history product overflows, because for multipliers from 65 on the C product does on loud streams (`AlacEntropy.OverflowFreeIff`); the count of leading zeros of 0, undefined for the compiler builtin, is taken as 32.
- AlacFrame.FrameRoundTrip: assumes quantisation at least 1 and fewer coefficients than samples in the general mode, where the code shifts by quantisation - 1 and warms up without a bound.
- AlacPredictor.AdaptsTowardsSample: says nothing once a coefficient wraps at 16 bits, where the sum can move the wrong way.
- RtpReceiver.RtpTask.HandleAudio: the peer address learned from the first datagram is only remembered as known.
- RtpReceiver.RtpTask.DrainDecode: hands payloads and silences on; `RtpStream.PlayDatagram` decodes and feeds them behind each drain, where the source does so between two pops, which changes no frame and no order.
- RtpStream.PlayStream: starts from an anchored receiver with an empty buffer, and every arrival is within half the sequence space of the cursor, beyond which 16 bits mean another packet (`RtpReceiver.StaleDuplicate`); the payloads are those of well-formed frames, since on others the decoder can leave its buffers.
- RtpReceiver.StreamIsInOrder: assumes an anchored receiver, reordering within the hold distance, and no packet half the sequence space behind one already in, which 16 bits cannot tell from a later one.
- RtpQueue.InOrderDelivery: is about unbounded numbers; that the 16 bits on the wire stand for them is `RtpReceiver.WireArrivals`. Assumes that everything at least the hold distance before an arrival has arrived, since the code conceals what is later than that.
- RtpReceiver.RtpTask.MaybeRequestResend: whether the last request is recent is an input, not a clock.
- RtpDecode.Player.DecodeAndFeed: the cipher is a parameter that keeps lengths; key handling and the fixed IV are part of it.
- PcmFeed.Feeder.FeedPcm: a finite list of looks at the run flag stands for every finite beginning of a task's life, so that a ring that never drains ends with a prefix; how many frames go in is exact for every such list.
- Playback.Player.Cycle: a chunk is played frame by frame, ring calls are atomic against the producer (which `PcmSteps` justifies down to single frames), the volume gain is not applied.
- PcmSteps.RunIsFifo: index loads and stores are atomic and seen in program order, as the code demands by pinning both tasks to one core.
- RtspServer.Connection.Serve: for streams of any bytes whose requests fit the buffer; `RtspTraffic.ServeAll` is about printed requests that need not.
- RtspTraffic.ServeAll: assumes of each oversized request what `RtspResync.ResyncsIff` shows to be needed; the 200 sent for it is not modelled. A number that runs to the very end of the full buffer, which `strtol` would read past, ends there in the model.
- RtspPrint.RequestRoundTrip: for parts without a carriage return and names without a colon, so folded header lines are not printed; `long` has 32 bits.
- RtspParser.ParseRequest: works on byte sequences; the request's body is a copy, not a pointer into the buffer.
- Lifecycle.RecordingIsStreaming: the converse is not claimed, since an ANNOUNCE or SETUP during RECORDING moves the state away while the RTP task runs on.
- Lifecycle.TeardownEndsClean: closes the handles the session has; those a repeated SETUP overwrote stay open (`Lifecycle.LossIff`).
- Lifecycle.ToneStopProgresses: says which waits can end, not that the scheduler ends them.
- Lifecycle.StopWaitsForAnEndingTask: says that progress is possible, not that the scheduler grants it. A tone start during RECORD can make the RTP start fail; task creation and the store of its handle are one step; the reset of the zeroed session at server start is not modelled.
- Response building, the session challenge, SDP, parameter and metadata storage, volume mapping, timing packets: fixed-layout or pointwise code that would add only easy members.
- Sockets, `select`, mbedTLS, I2S, scheduling, heap and logging; Wi-Fi, provisioning, mDNS, NVS, LED and button code.
